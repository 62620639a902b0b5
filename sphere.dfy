/**
 * The procedural unit-sphere mesh: a (d+1) x (d+1) grid of vertex
 * positions and, for each of the d x d grid cells, two triangles given as
 * indices into that grid.
 *
 * The coordinates are floating point in the JavaScript generator; here they are kept
 * as the symbolic expressions the generator evaluates (sin and cos of two
 * angles), so that only the layout of the buffers is reasoned about.
 */
module SphereMesh {
  import Grid

  /** Resolution the sphere constructor always uses (`circleNum`). */
  const CircleNum: nat := 16

  /** Size of the value range of a 16-bit unsigned integer. */
  const Uint16Range: nat := 0x1_0000

  /** An element of a 16-bit unsigned integer array. */
  newtype u16 = x: int | 0 <= x < 0x1_0000

  /** The angles the generator passes to sin and cos, left unevaluated. */
  datatype Angle =
    | Polar(j: nat, d: nat)    // j * PI / d: inclination of grid row j
    | Azimuth(i: nat, d: nat)  // i * 2 * PI / d: azimuth of grid column i

  /** A coordinate value, as the expression that computes it. */
  datatype Term =
    | Sin(a: Angle)
    | Cos(a: Angle)
    | Times(x: Term, y: Term)

  /** One triangle of an index buffer: three vertex indices in winding order. */
  datatype Triangle = Triangle(a: nat, b: nat, c: nat)

  // ---------------------------------------------------------------------
  // Vertex grid
  // ---------------------------------------------------------------------

  /** Position of grid point (j, i) as X, Y, Z. */
  function Point(d: nat, j: nat, i: nat): (p: seq<Term>)
    ensures |p| == 3
  {
    var sj := Sin(Polar(j, d));
    var cj := Cos(Polar(j, d));
    var si := Sin(Azimuth(i, d));
    var ci := Cos(Azimuth(i, d));
    [Times(si, sj), cj, Times(ci, sj)]
  }

  function Points(d: nat): (nat, nat) -> seq<Term> {
    (j: nat, i: nat) => Point(d, j, i)
  }

  /** The flat position buffer for resolution `d`: rows j = 0..d of points i = 0..d. */
  function Vertices(d: nat): seq<Term> {
    Grid.Rows(Points(d), d + 1, d + 1)
  }

  // ---------------------------------------------------------------------
  // Index buffer
  // ---------------------------------------------------------------------

  /** The six indices of grid cell (j, i): triangles (p1, p2, p1+1) and (p1+1, p2, p2+1). */
  function Cell(d: nat, j: nat, i: nat): (c: seq<nat>)
    ensures |c| == 6
  {
    var p1 := j * (d + 1) + i;
    var p2 := p1 + (d + 1);
    [p1, p2, p1 + 1, p1 + 1, p2, p2 + 1]
  }

  function Cells(d: nat): (nat, nat) -> seq<nat> {
    (j: nat, i: nat) => Cell(d, j, i)
  }

  /** The flat index buffer for resolution `d`: cells (j, i), j, i < d, in row-major order. */
  function Indices(d: nat): seq<nat> {
    Grid.Rows(Cells(d), d, d)
  }

  /** Triangle `t` of a flat index list: its entries 3t, 3t+1 and 3t+2. */
  function TriangleAt(s: seq<nat>, t: nat): Triangle
    requires 3 * t + 2 < |s|
  {
    Triangle(s[3 * t], s[3 * t + 1], s[3 * t + 2])
  }

  /** The three corners of `tri` are pairwise distinct. */
  predicate Proper(tri: Triangle) {
    tri.a != tri.b && tri.b != tri.c && tri.a != tri.c
  }

  /** `tri` traverses the directed edge u -> v in its winding order. */
  predicate HasEdge(tri: Triangle, u: nat, v: nat) {
    (tri.a == u && tri.b == v) || (tri.b == u && tri.c == v) || (tri.c == u && tri.a == v)
  }

  /** `s` is a whole number of triangles, none of them degenerate. */
  ghost predicate AllProper(s: seq<nat>) {
    && |s| % 3 == 0
    && forall t: nat :: 3 * t + 2 < |s| ==> Proper(TriangleAt(s, t))
  }

  /** Every entry of `s` is below `bound`. */
  ghost predicate Below(s: seq<nat>, bound: nat) {
    forall k :: 0 <= k < |s| ==> s[k] < bound
  }

  /** Conversion of an integer to a 16-bit unsigned array element (modulo 2^16). */
  function ToUint16(x: int): (r: u16)
    ensures 0 <= x < Uint16Range ==> r as int == x
    ensures (x - r as int) % Uint16Range == 0
  {
    (x % Uint16Range) as u16
  }

  // ---------------------------------------------------------------------
  // Arithmetic helpers
  // ---------------------------------------------------------------------

  lemma MulMonotone(w: nat, a: nat, b: nat)
    requires a <= b
    ensures a * w <= b * w
  {
  }

  lemma NextRow(d: nat, j: nat)
    ensures (j + 1) * (d + 1) == j * (d + 1) + d + 1
  {
  }

  // ---------------------------------------------------------------------
  // Properties of the index buffer
  // ---------------------------------------------------------------------

  /** The index buffer holds two triangles of three indices for each of the d * d cells. */
  lemma IndicesLength(d: nat)
    ensures |Indices(d)| == 6 * d * d
  {
    Grid.RowsLength(Cells(d), 6, d, d);
  }

  /**
   * Cell (j, i) occupies entries 6(jd + i) .. 6(jd + i) + 5, holding
   * p1, p2, p1+1, p1+1, p2, p2+1 with p1 = j(d+1) + i and p2 = p1 + d + 1:
   * the cells are emitted in row-major order, each with this winding.
   */
  lemma CellLayout(d: nat, j: nat, i: nat)
    requires j < d && i < d
    ensures var o := 6 * (j * d + i);
            var p1 := j * (d + 1) + i;
            var p2 := p1 + d + 1;
            && o + 5 < |Indices(d)|
            && Indices(d)[o..o + 6] == [p1, p2, p1 + 1, p1 + 1, p2, p2 + 1]
  {
    var o := 6 * (j * d + i);
    assert Cells(d)(j, i) == Cell(d, j, i);
    Grid.UniformRowsAt(Cells(d), 6, d, d, j, i, 5);
    forall s: nat | s < 6
      ensures Indices(d)[o + s] == Cell(d, j, i)[s]
    {
      Grid.UniformRowsAt(Cells(d), 6, d, d, j, i, s);
    }
    assert Indices(d)[o..o + 6] == Cell(d, j, i);
  }

  /** Every cell's indices name grid points of a (d+1) x (d+1) grid. */
  lemma CellBelow(d: nat, j: nat, i: nat)
    requires j < d && i < d
    ensures Below(Cell(d, j, i), (d + 1) * (d + 1))
  {
    MulMonotone(d + 1, j + 1, d);
    NextRow(d, j);
    NextRow(d, d);
  }

  /** Every index the generator emits is below (d+1)^2, the number of grid points. */
  lemma IndicesBelow(d: nat)
    ensures Below(Indices(d), (d + 1) * (d + 1))
  {
    var bound := (d + 1) * (d + 1);
    var Q := (s: seq<nat>) => Below(s, bound);
    forall j: nat, i: nat | j < d && i < d
      ensures Q(Cells(d)(j, i))
    {
      CellBelow(d, j, i);
    }
    Grid.RowsClosed(Cells(d), d, d, Q);
  }

  /** The bound is tight: for d >= 1 the last index emitted is (d+1)^2 - 1. */
  lemma LastIndex(d: nat)
    requires d >= 1
    ensures |Indices(d)| == 6 * d * d
    ensures Indices(d)[6 * d * d - 1] == (d + 1) * (d + 1) - 1
  {
    IndicesLength(d);
    CellLayout(d, d - 1, d - 1);
    var o := 6 * ((d - 1) * d + (d - 1));
    assert o + 5 == 6 * d * d - 1;
    assert Indices(d)[o + 5] == Indices(d)[o..o + 6][5];
    NextRow(d, d - 1);
  }

  /** For d >= 1 the two triangles of a cell each have three distinct corners. */
  lemma CellProper(d: nat, j: nat, i: nat)
    requires d >= 1
    ensures AllProper(Cell(d, j, i))
  {
  }

  /** Concatenating two whole lists of proper triangles gives one. */
  lemma AllProperAppend(a: seq<nat>, b: seq<nat>)
    requires AllProper(a) && AllProper(b)
    ensures AllProper(a + b)
  {
    var q := |a| / 3;
    forall t: nat | 3 * t + 2 < |a + b|
      ensures Proper(TriangleAt(a + b, t))
    {
      if t < q {
        assert TriangleAt(a + b, t) == TriangleAt(a, t);
      } else {
        assert TriangleAt(a + b, t) == TriangleAt(b, t - q);
      }
    }
  }

  /** Every triangle of the index buffer has three pairwise distinct corners. */
  lemma IndicesProper(d: nat)
    ensures AllProper(Indices(d))
  {
    var Q := (s: seq<nat>) => AllProper(s);
    forall a: seq<nat>, b: seq<nat> | Q(a) && Q(b)
      ensures Q(a + b)
    {
      AllProperAppend(a, b);
    }
    if d >= 1 {
      forall j: nat, i: nat | j < d && i < d
        ensures Q(Cells(d)(j, i))
      {
        CellProper(d, j, i);
      }
    }
    Grid.RowsClosed(Cells(d), d, d, Q);
  }

  /**
   * The two triangles of cell (j, i) are triangles 2(jd + i) and
   * 2(jd + i) + 1 of the buffer: (p1, p2, p1+1) and (p1+1, p2, p2+1).
   */
  lemma CellTriangles(d: nat, j: nat, i: nat)
    requires j < d && i < d
    ensures var t := 2 * (j * d + i);
            var p1 := j * (d + 1) + i;
            var p2 := p1 + d + 1;
            && 3 * (t + 1) + 2 < |Indices(d)|
            && TriangleAt(Indices(d), t) == Triangle(p1, p2, p1 + 1)
            && TriangleAt(Indices(d), t + 1) == Triangle(p1 + 1, p2, p2 + 1)
  {
    var t := 2 * (j * d + i);
    CellLayout(d, j, i);
    var o := 6 * (j * d + i);
    assert o == 3 * t;
    assert Indices(d)[o] == Indices(d)[o..o + 6][0];
    assert Indices(d)[o + 1] == Indices(d)[o..o + 6][1];
    assert Indices(d)[o + 2] == Indices(d)[o..o + 6][2];
    assert Indices(d)[o + 3] == Indices(d)[o..o + 6][3];
    assert Indices(d)[o + 4] == Indices(d)[o..o + 6][4];
    assert Indices(d)[o + 5] == Indices(d)[o..o + 6][5];
  }

  /**
   * The triangles are consistently oriented. The two triangles of cell
   * (j, i) share the diagonal p2 - p1+1 and traverse it in opposite
   * directions; so do the second triangle of a cell and the first
   * triangle of the cell to its right (edge p1+1 - p2+1) and of the cell
   * below it (edge p2 - p2+1).
   */
  lemma ConsistentWinding(d: nat, j: nat, i: nat)
    requires j < d && i < d
    ensures var I := Indices(d);
            var t := 2 * (j * d + i);
            var p1 := j * (d + 1) + i;
            var p2 := p1 + d + 1;
            && 3 * (t + 1) + 2 < |I|
            && HasEdge(TriangleAt(I, t), p2, p1 + 1)
            && HasEdge(TriangleAt(I, t + 1), p1 + 1, p2)
            && (i + 1 < d ==>
                  && 3 * (t + 2) + 2 < |I|
                  && HasEdge(TriangleAt(I, t + 1), p2 + 1, p1 + 1)
                  && HasEdge(TriangleAt(I, t + 2), p1 + 1, p2 + 1))
            && (j + 1 < d ==>
                  && 3 * (t + 2 * d) + 2 < |I|
                  && HasEdge(TriangleAt(I, t + 1), p2, p2 + 1)
                  && HasEdge(TriangleAt(I, t + 2 * d), p2 + 1, p2))
  {
    CellTriangles(d, j, i);
    if i + 1 < d {
      CellTriangles(d, j, i + 1);
      assert 2 * (j * d + (i + 1)) == 2 * (j * d + i) + 2;
    }
    if j + 1 < d {
      CellTriangles(d, j + 1, i);
      NextRow(d, j);
      assert 2 * ((j + 1) * d + i) == 2 * (j * d + i) + 2 * d;
    }
  }

  // ---------------------------------------------------------------------
  // Properties of the vertex buffer
  // ---------------------------------------------------------------------

  /** The position buffer holds three numbers for each of the (d+1)^2 grid points. */
  lemma VerticesLength(d: nat)
    ensures |Vertices(d)| == 3 * ((d + 1) * (d + 1))
  {
    Grid.RowsLength(Points(d), 3, d + 1, d + 1);
  }

  /**
   * Grid point (j, i) starts at offset 3(j(d+1) + i); its X is
   * sin(ai) sin(aj), its Y is cos(aj) and its Z is cos(ai) sin(aj), with
   * aj = j PI / d and ai = i 2 PI / d.
   */
  lemma VertexLayout(d: nat, j: nat, i: nat)
    requires j <= d && i <= d
    ensures var o := 3 * (j * (d + 1) + i);
            && o + 2 < |Vertices(d)|
            && Vertices(d)[o] == Times(Sin(Azimuth(i, d)), Sin(Polar(j, d)))
            && Vertices(d)[o + 1] == Cos(Polar(j, d))
            && Vertices(d)[o + 2] == Times(Cos(Azimuth(i, d)), Sin(Polar(j, d)))
  {
    PointAt(d, j, i, 0);
    PointAt(d, j, i, 1);
    PointAt(d, j, i, 2);
  }

  lemma PointAt(d: nat, j: nat, i: nat, c: nat)
    requires j <= d && i <= d && c < 3
    ensures 3 * (j * (d + 1) + i) + c < |Vertices(d)|
    ensures Vertices(d)[3 * (j * (d + 1) + i) + c] == Point(d, j, i)[c]
  {
    assert Points(d)(j, i) == Point(d, j, i);
    Grid.UniformRowsAt(Points(d), 3, d + 1, d + 1, j, i, c);
  }

  /** The Y coordinate is the same for every point of a grid row: it depends on j only. */
  lemma RowSharesY(d: nat, j: nat, i: nat, i': nat)
    requires j <= d && i <= d && i' <= d
    ensures 3 * (j * (d + 1) + i) + 1 < |Vertices(d)|
    ensures 3 * (j * (d + 1) + i') + 1 < |Vertices(d)|
    ensures Vertices(d)[3 * (j * (d + 1) + i) + 1] == Vertices(d)[3 * (j * (d + 1) + i') + 1]
  {
    VertexLayout(d, j, i);
    VertexLayout(d, j, i');
  }

  /** Every index of the index buffer names a vertex of the position buffer of the same resolution. */
  lemma IndicesNameVertices(d: nat)
    ensures |Indices(d)| % 3 == 0
    ensures forall k :: 0 <= k < |Indices(d)| ==> Indices(d)[k] < |Vertices(d)| / 3
  {
    IndicesProper(d);
    IndicesBelow(d);
    VerticesLength(d);
  }

  /** At resolution 0 there are no cells and a single grid point. */
  lemma ZeroResolution()
    ensures Indices(0) == []
    ensures Vertices(0) == Point(0, 0, 0)
  {
  }

  /**
   * At the constructor's resolution the largest index is 288, so storing
   * the indices as 16-bit unsigned integers changes none of them.
   */
  lemma ResolutionFitsUint16()
    ensures Below(Indices(CircleNum), 289)
    ensures Indices(CircleNum)[|Indices(CircleNum)| - 1] == 288
    ensures forall k :: 0 <= k < |Indices(CircleNum)| ==>
              ToUint16(Indices(CircleNum)[k]) as int == Indices(CircleNum)[k]
  {
    IndicesBelow(CircleNum);
    LastIndex(CircleNum);
  }

  // ---------------------------------------------------------------------
  // The sphere object
  // ---------------------------------------------------------------------

  /** A sphere model: its position, index and normal buffers. */
  class Sphere {
    const vertices: array<Term>  // 32-bit float buffer of positions
    const indices: array<u16>    // 16-bit unsigned index buffer
    const normals: array<Term>   // 32-bit float buffer of normals

    /**
     * Mesh invariant: whole triangles, indices naming vertices, normals equal
     * to positions. It is what the renderer relies on when it draws the
     * buffers; the renderer itself is not part of this model.
     */
    ghost predicate Valid()
      reads this, vertices, indices, normals
    {
      && vertices != normals
      && normals[..] == vertices[..]
      && vertices.Length % 3 == 0
      && indices.Length % 3 == 0
      && forall k :: 0 <= k < indices.Length ==> (indices[k] as int) < vertices.Length / 3
    }

    /** Builds the unit sphere at resolution 16; the normals are a separate copy of the positions. */
    constructor ()
      ensures fresh(vertices) && fresh(indices) && fresh(normals)
      ensures Valid()
      ensures vertices[..] == Vertices(CircleNum)
      ensures indices.Length == |Indices(CircleNum)|
      ensures forall k :: 0 <= k < indices.Length ==> indices[k] as int == Indices(CircleNum)[k]
    {
      var circleNum := CircleNum;
      var vertices1 := CreateVertices(circleNum);
      var indices1 := CreateIndices(circleNum);
      var vertexArray := Float32Array(vertices1);
      var indexArray := Uint16Array(indices1);
      var normalArray := Float32Array(vertices1);
      vertices, indices, normals := vertexArray, indexArray, normalArray;
      new;
      ResolutionFitsUint16();
      assert vertices.Length == 867;
      assert indices.Length == 1536;
      forall k | 0 <= k < indices.Length
        ensures indices[k] as int == indices1[k] < 17 * 17
      {
        assert indices[k] == ToUint16(indices1[k]);
      }
    }

    /** A new 32-bit float array holding a copy of `s`. */
    static method Float32Array(s: seq<Term>) returns (a: array<Term>)
      ensures fresh(a)
      ensures a[..] == s
    {
      a := new Term[|s|](k requires 0 <= k < |s| => s[k]);
    }

    /** A new 16-bit unsigned array holding `s`, each element taken modulo 2^16. */
    static method Uint16Array(s: seq<nat>) returns (a: array<u16>)
      ensures fresh(a)
      ensures a.Length == |s|
      ensures forall k :: 0 <= k < |s| ==> a[k] == ToUint16(s[k])
    {
      a := new u16[|s|](k requires 0 <= k < |s| => ToUint16(s[k]));
    }

    /** The position buffer: rows j = 0..d, points i = 0..d within a row, three coordinates each. */
    static method CreateVertices(d: nat) returns (positions: seq<Term>)
      ensures positions == Vertices(d)
      ensures |positions| == 3 * ((d + 1) * (d + 1))
    {
      positions := [];
      var j := 0;
      while j <= d
        invariant 0 <= j <= d + 1
        invariant positions == Grid.Rows(Points(d), d + 1, j)
      {
        var aj := Polar(j, d);
        var sj := Sin(aj);
        var cj := Cos(aj);
        var i := 0;
        while i <= d
          invariant 0 <= i <= d + 1
          invariant positions == Grid.Rows(Points(d), d + 1, j) + Grid.Row(Points(d), j, i)
        {
          ghost var before := positions;
          var ai := Azimuth(i, d);
          var si := Sin(ai);
          var ci := Cos(ai);
          positions := positions + [Times(si, sj)];  // X
          positions := positions + [cj];             // Y
          positions := positions + [Times(ci, sj)];  // Z
          assert positions == before + Point(d, j, i);
          assert Grid.Row(Points(d), j, i + 1) == Grid.Row(Points(d), j, i) + Point(d, j, i);
          i := i + 1;
        }
        j := j + 1;
      }
      VerticesLength(d);
    }

    /** The index buffer: for each cell (j, i), j, i < d, in row-major order, its two triangles. */
    static method CreateIndices(d: nat) returns (indices: seq<nat>)
      ensures indices == Indices(d)
      ensures |indices| == 6 * d * d
      ensures Below(indices, (d + 1) * (d + 1))
    {
      indices := [];
      var j := 0;
      while j < d
        invariant 0 <= j <= d
        invariant indices == Grid.Rows(Cells(d), d, j)
      {
        var i := 0;
        while i < d
          invariant 0 <= i <= d
          invariant indices == Grid.Rows(Cells(d), d, j) + Grid.Row(Cells(d), j, i)
        {
          var p1 := j * (d + 1) + i;
          var p2 := p1 + (d + 1);

          indices := indices + [p1];
          indices := indices + [p2];
          indices := indices + [p1 + 1];

          indices := indices + [p1 + 1];
          indices := indices + [p2];
          indices := indices + [p2 + 1];
          assert Grid.Row(Cells(d), j, i + 1) == Grid.Row(Cells(d), j, i) + Cell(d, j, i);
          i := i + 1;
        }
        j := j + 1;
      }
      IndicesLength(d);
      IndicesBelow(d);
    }
  }
}
