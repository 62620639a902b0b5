# Procedural sphere mesh

A Dafny model of the unit-sphere generator of a small WebGL scene viewer
(`Sphere.js`). A `Sphere` is built at a fixed resolution of 16. It holds three
flat buffers:

- a position buffer: a `(d+1) x (d+1)` grid of points, emitted row by row
  (`j` outer, `i` inner), three coordinates per point;
- a normal buffer, which is a separate copy of the position buffer;
- a 16-bit index buffer: for each of the `d x d` grid cells, in row-major
  order, two triangles `(p1, p2, p1+1)` and `(p1+1, p2, p2+1)`, where
  `p1 = j(d+1) + i` and `p2 = p1 + d + 1`.

Files:

- `grid.dfy`, module `Grid`: row-major flattening of a grid of blocks (`Row`,
  `Rows`). Both generator loops have this shape. The module proves the
  flattened length, the offset at which block `(j, i)` starts, and that a
  property kept by concatenation carries over from the blocks to the whole.
- `sphere.dfy`, module `SphereMesh`:
  - the specification functions `Vertices(d)` and `Indices(d)`;
  - the class `Sphere`, whose static methods `CreateVertices` and
    `CreateIndices` are the source's nested loops, proved equal to those
    functions, and whose constructor builds the buffers;
  - the lemmas about the buffers.

The coordinates are floating-point values in the source. The model keeps
each coordinate as the expression that computes it (`Term`: `Sin`, `Cos` and
`Times` over the two angles `Polar(j, d)` = j·π/d and `Azimuth(i, d)` =
i·2·π/d). So sin and cos are uninterpreted, and only the structure of the
buffers is proved.

## Model

| member | source | states |
|---|---|---|
| `SphereMesh.Sphere.CreateVertices` | Sphere.js:15-32 | The nested `j <= d` / `i <= d` loops return exactly `Vertices(d)`, which holds `3·(d+1)²` numbers |
| `SphereMesh.Sphere.CreateIndices` | Sphere.js:34-51 | The nested `j < d` / `i < d` loops return exactly `Indices(d)`. That list has `6·d²` entries, each below `(d+1)²` |
| `SphereMesh.Sphere.constructor` | Sphere.js:2-13 | The constructor builds resolution 16. It creates three fresh arrays. The positions equal `Vertices(16)`. Each 16-bit index equals the matching entry of `Indices(16)`. The normals are a different array with the same contents as the positions. The mesh invariant `Valid()` holds: whole triangles, and every index names a vertex |
| `SphereMesh.Sphere.Float32Array` | Sphere.js:10-12 | Returns a fresh array whose contents equal the given list |
| `SphereMesh.Sphere.Uint16Array` | Sphere.js:11 | Returns a fresh array of the same length; element `k` is the list's element `k` converted to 16 bits |
| `SphereMesh.ToUint16` | Sphere.js:11 | The 16-bit conversion keeps every value in `[0, 65536)` unchanged, and keeps any value modulo 2^16 |
| `SphereMesh.IndicesLength` | Sphere.js:36-48 | `createIndices(d)` returns exactly `6·d²` entries: two triangles of three indices for each of the `d·d` cells |
| `SphereMesh.CellLayout` | Sphere.js:36-47 | Cell `(j, i)` occupies entries `6(jd+i)` to `6(jd+i)+5`, with values `p1, p2, p1+1, p1+1, p2, p2+1`. This fixes the row-major cell order and the winding |
| `SphereMesh.CellTriangles` | Sphere.js:38-47 | Triangles `2(jd+i)` and `2(jd+i)+1` of the buffer are `(p1, p2, p1+1)` and `(p1+1, p2, p2+1)` |
| `SphereMesh.ConsistentWinding` | Sphere.js:38-47 | Neighbouring triangles traverse each shared edge in opposite directions, so the mesh is consistently oriented. This holds for the diagonal inside a cell, the edge shared with the cell to the right, and the edge shared with the cell below |
| `SphereMesh.CellBelow` | Sphere.js:38-47 | All six indices of a cell `(j, i)` with `j, i < d` are below `(d+1)²` |
| `SphereMesh.IndicesBelow` | Sphere.js:36-48 | Every index `createIndices(d)` emits is below `(d+1)²`, the number of grid points `createVertices(d)` emits |
| `SphereMesh.LastIndex` | Sphere.js:38-47 | For `d ≥ 1`, the last index emitted (`p2+1` of cell `(d-1, d-1)`) is exactly `(d+1)²-1`, so the bound is tight |
| `SphereMesh.CellProper` | Sphere.js:38-47 | For `d ≥ 1`, both triangles of a cell have three pairwise distinct corners, because `p2 ≥ p1+2` |
| `SphereMesh.IndicesProper` | Sphere.js:36-48 | The index list is a whole number of triangles, and no triangle repeats a corner |
| `SphereMesh.IndicesNameVertices` | Sphere.js:15-50 | The index count is a multiple of 3, and every index is below `vertices.length / 3` for the same resolution |
| `SphereMesh.VerticesLength` | Sphere.js:17-30 | `createVertices(d)` returns exactly `3·(d+1)²` numbers |
| `SphereMesh.VertexLayout` | Sphere.js:17-30 | Grid point `(j, i)` starts at offset `3(j(d+1)+i)`. Its X is `sin(ai)·sin(aj)`, its Y is `cos(aj)` and its Z is `cos(ai)·sin(aj)` |
| `SphereMesh.RowSharesY` | Sphere.js:18-28 | The Y coordinate of grid point `(j, i)` is the same for every `i`: it depends on `j` only |
| `SphereMesh.ZeroResolution` | Sphere.js:15-37 | At `d = 0` the index list is empty and the position list holds the single grid point `(j, i) = (0, 0)` |
| `SphereMesh.ResolutionFitsUint16` | Sphere.js:5-11 | At resolution 16 every index is at most 288, the last one is 288, and the 16-bit conversion changes none of them |
| `Grid.RowsLength` | Sphere.js:17-30 | `j` complete rows of `cols` blocks of width `w` hold `j·(w·cols)` elements |
| `Grid.RowsAt` | Sphere.js:36-48 | Block `(j, i)` comes right after rows `0..j-1` and the first `i` blocks of row `j`. This is the row-major order of both loops |
| `Grid.UniformRowsAt` | Sphere.js:36-48 | With blocks of uniform width `w`, block `(j, i)` starts at offset `w·(j·cols + i)` |
| `Grid.RowsClosed` | Sphere.js:36-48 | A property that holds of the empty list and that concatenation keeps holds of the whole flattened grid once it holds of every block |

## Left out

- The `Model` base class is not part of this model, and neither is the `color` argument passed to it (Sphere.js:1-3). The scaling and translation set on the model elsewhere are left out too.
- Floating-point arithmetic is not modelled. `Math.sin`, `Math.cos` and `Math.PI` stay uninterpreted, and so does the rounding of `Float32Array` to 32-bit floats. So the numeric facts that depend on them are not stated: the poles at `(0, ±1, 0)`, the duplicated seam column `i = 0` / `i = d`, and the NaN angle that `j·π/0` produces at `d = 0`.
- `SphereMesh.Sphere.CreateVertices`, `SphereMesh.Sphere.CreateIndices`: the resolution is a natural number. JavaScript would also accept a negative or fractional resolution. That does not happen here, because the only caller passes 16.
- `SphereMesh.ToUint16`: only integer inputs are modelled. Every value the generator produces is a non-negative integer.
- JavaScript's growable arrays and `push` are modelled as sequences extended by one element at a time. The typed-array constructors are modelled as fresh Dafny arrays.
- The camera (`Camera.js`) is not part of this model. It depends on a matrix and vector library that is not shown. The scene driver, the WebGL calls, the shader text and the key handling (`asg4.js`) are not part of it either.
- `createIndices`/`createVertices` also accept a resolution of 0; they then return no indices and a single point, and the model follows this (`ZeroResolution`).
