/**
 * Row-major flattening of a grid of equally sized blocks into one flat
 * sequence. Both sphere buffers have this shape: a loop over rows `j`
 * around a loop over columns `i`, each inner step appending one block
 * (three coordinates of a grid point, or six indices of a grid cell).
 */
module Grid {

  /** Every block of `f` holds exactly `w` elements. */
  ghost predicate Uniform<T>(f: (nat, nat) -> seq<T>, w: nat) {
    forall j: nat, i: nat :: |f(j, i)| == w
  }

  /** The blocks f(j, 0), ..., f(j, i - 1) of row `j`, in column order. */
  function Row<T>(f: (nat, nat) -> seq<T>, j: nat, i: nat): seq<T>
  {
    if i == 0 then [] else Row(f, j, i - 1) + f(j, i - 1)
  }

  /** Rows 0, ..., j - 1, each of `cols` blocks, in row-major order. */
  function Rows<T>(f: (nat, nat) -> seq<T>, cols: nat, j: nat): seq<T>
  {
    if j == 0 then [] else Rows(f, cols, j - 1) + Row(f, j - 1, cols)
  }

  /** A row prefix of `i` blocks of width `w` holds `w * i` elements. */
  lemma {:induction false} RowLength<T>(f: (nat, nat) -> seq<T>, w: nat, j: nat, i: nat)
    requires Uniform(f, w)
    ensures |Row(f, j, i)| == w * i
  {
    if i > 0 {
      RowLength(f, w, j, i - 1);
      assert w * i == w * (i - 1) + w;
    }
  }

  /** `j` complete rows of `cols` blocks of width `w` hold `j * (w * cols)` elements. */
  lemma {:induction false} RowsLength<T>(f: (nat, nat) -> seq<T>, w: nat, cols: nat, j: nat)
    requires Uniform(f, w)
    ensures |Rows(f, cols, j)| == j * (w * cols)
  {
    if j > 0 {
      RowsLength(f, w, cols, j - 1);
      RowLength(f, w, j - 1, cols);
    }
  }

  /** Block `i` of row `j` sits right after the first `i` blocks, in any longer row prefix. */
  lemma {:induction false} RowAt<T>(f: (nat, nat) -> seq<T>, j: nat, n: nat, i: nat, s: nat)
    requires i < n && s < |f(j, i)|
    ensures |Row(f, j, i)| + s < |Row(f, j, n)|
    ensures Row(f, j, n)[|Row(f, j, i)| + s] == f(j, i)[s]
  {
    if i < n - 1 {
      RowAt(f, j, n - 1, i, s);
    }
  }

  /**
   * Block (j, i) sits right after rows 0..j-1 and the first `i` blocks of
   * row `j`, in any prefix of complete rows that contains row `j`: the
   * order is row-major.
   */
  lemma {:induction false} RowsAt<T>(f: (nat, nat) -> seq<T>, cols: nat, m: nat, j: nat, i: nat, s: nat)
    requires j < m && i < cols && s < |f(j, i)|
    ensures |Rows(f, cols, j)| + |Row(f, j, i)| + s < |Rows(f, cols, m)|
    ensures Rows(f, cols, m)[|Rows(f, cols, j)| + |Row(f, j, i)| + s] == f(j, i)[s]
  {
    if j < m - 1 {
      RowsAt(f, cols, m - 1, j, i, s);
    } else {
      RowAt(f, j, cols, i, s);
    }
  }

  /**
   * With blocks of uniform width `w`, block (j, i) of the first `m` rows
   * starts at offset `w * (j * cols + i)`.
   */
  lemma UniformRowsAt<T>(f: (nat, nat) -> seq<T>, w: nat, cols: nat, m: nat, j: nat, i: nat, s: nat)
    requires Uniform(f, w)
    requires j < m && i < cols && s < w
    ensures w * (j * cols + i) + s < |Rows(f, cols, m)|
    ensures Rows(f, cols, m)[w * (j * cols + i) + s] == f(j, i)[s]
  {
    RowsAt(f, cols, m, j, i, s);
    RowsLength(f, w, cols, j);
    RowLength(f, w, j, i);
    Regroup(w, j, cols, i);
  }

  lemma Regroup(w: nat, j: nat, cols: nat, i: nat)
    ensures w * (j * cols + i) == j * (w * cols) + w * i
  {
  }

  /** A property of flat sequences that holds of the empty one and that concatenation keeps. */
  ghost predicate ConcatClosed<T(!new)>(Q: seq<T> -> bool) {
    Q([]) && forall a, b :: Q(a) && Q(b) ==> Q(a + b)
  }

  /** A concatenation-closed property of every block of a row holds of the whole row prefix. */
  lemma {:induction false} RowClosed<T(!new)>(f: (nat, nat) -> seq<T>, j: nat, n: nat, Q: seq<T> -> bool)
    requires ConcatClosed(Q)
    requires forall i: nat :: i < n ==> Q(f(j, i))
    ensures Q(Row(f, j, n))
  {
    if n > 0 {
      RowClosed(f, j, n - 1, Q);
    }
  }

  /** A concatenation-closed property of every block of the first `m` rows holds of `Rows`. */
  lemma {:induction false} RowsClosed<T(!new)>(f: (nat, nat) -> seq<T>, cols: nat, m: nat, Q: seq<T> -> bool)
    requires ConcatClosed(Q)
    requires forall j: nat, i: nat :: j < m && i < cols ==> Q(f(j, i))
    ensures Q(Rows(f, cols, m))
  {
    if m > 0 {
      RowsClosed(f, cols, m - 1, Q);
      RowClosed(f, m - 1, cols, Q);
    }
  }
}
