# graph_rs in Dafny

A model of the `Graph` type of graph_rs: a graph over `n` vertices. Each
vertex carries a `u64` value. Edge costs are kept in a flat, row-major
adjacency matrix of `n * n` unsigned costs. The cost of edge `(x, y)` sits at
flat position `x * n + y`, and a cost of 0 means there is no edge.

- `FlatMatrix` (flat_matrix.dfy) holds the index arithmetic of that matrix
  and the specification predicates the graph operations are proved against:
  - `Cell(m, n, r, c)` reads row `r`, column `c`;
  - `IsSymmetric` says every edge is recorded both ways;
  - `Grows` is the matrix with a zero row and column appended;
  - `Shrinks` is the matrix with row and column `x` dropped;
  - `WriteCell` and `SymmetricWrite` are writes of one cell and of a cell
    together with its transpose.

  The row offset `x * n` is written `RowStart(x, n)`, a sum of `x` copies of
  `n`. `RowStartIsProduct` links it to the product, and the executable bodies
  compute `x * n + y` exactly as the Rust code does.
- `Graphs` (graph.dfy) holds the `Graph` class:
  - the fields `adjacencyMatrix`, `vertices` and `vertexCount`;
  - the invariant `Valid()`: the matrix has `vertexCount * vertexCount`
    cells and `vertexCount == |vertices|`;
  - the constructor `New`, returning a `Result` with the
    `MatrixDimensionMismatch` error;
  - the queries and the mutators.

  `AddVertex` and `RemoveVertex` rebuild the matrix in a fresh array, row by
  row, with `copy_from_slice`-style copies (`CopyFromSlice`). The Rust code
  does the same.

Rust panics become preconditions that match the panic conditions:
- an index into the matrix needs `x * n + y < |adjacencyMatrix|`;
- `remove_vertex` needs `x < n`;
- `set_vertex_value` needs `x < |vertices|`.

`get_vertex_value` returns an `Option` instead of panicking.

## Model

| member | source | states |
|---|---|---|
| Graphs.Graph.New | src/lib.rs:47-64 | Succeeds exactly when the matrix length is the square of the vertex count. On success the fresh graph holds the inputs unchanged and is `Valid`. Otherwise the error is `MatrixDimensionMismatch(matrix length, vertex count, vertex count squared)`. |
| Graphs.Graph.constructor | src/lib.rs:52-56 | The graph holds exactly the given matrix, vertex values and count. |
| Graphs.MismatchExample | src/lib.rs:58-62 | Three vertex values with an 8-cell matrix give `Err(MatrixDimensionMismatch(8, 3, 9))`. |
| Graphs.Graph.GetEdgeValue | src/lib.rs:133-135 | Returns the cost at flat position `x * n + y`. For `x, y < n` that is the cost in row `x`, column `y`. |
| Graphs.Graph.Adjacent | src/lib.rs:66-68 | True exactly when `GetEdgeValue(x, y)` is positive. |
| Graphs.Graph.Neighbors | src/lib.rs:69-73 | Strictly ascending sequence of flat positions within `[x * n, x * n + n)`. Position `x * n + y` is present exactly when the cost in row `x`, column `y` is positive. |
| Graphs.PositiveIndicesSpec | src/lib.rs:70-72 | `PositiveIndices(m, lo, hi)` is strictly ascending and holds exactly the positions `i` in `[lo, hi)` with a positive cost. |
| Graphs.Graph.NeighborColumns | src/lib.rs:69-73 | Corrected `neighbors`: the strictly ascending column numbers `y < n` whose cost in row `x` is positive, and no others. |
| Graphs.Graph.NeighborsAreShiftedColumns | src/lib.rs:69-73 | `Neighbors(x)` has the same length as `NeighborColumns(x)`, and element k of it is `x * n` plus element k of `NeighborColumns(x)`. |
| Graphs.PositiveIndicesShift | src/lib.rs:70-72 | Filtering the positions `[off + lo, off + hi)` of the matrix gives the filtered positions of a row copied from offset `off`, each plus `off`. |
| Graphs.Graph.NeighborsOfTwoEdges | src/lib.rs:69-73 | As written: a vertex whose only edges go to `a < b` gets neighbours `[x * n + a, x * n + b]`. |
| Graphs.Graph.NeighborColumnsOfTwoEdges | src/lib.rs:69-73 | A vertex whose only edges go to `a < b` has neighbour columns exactly `[a, b]`. |
| Graphs.Graph.NeighborsReturnFlatPositions | src/lib.rs:69-73 | Two vertices and the single edge 0-1: `Neighbors(1) == [2]`, while the neighbour is vertex 0 (`NeighborColumns(1) == [0]`). |
| Graphs.Graph.GetVertexValue | src/lib.rs:126-128 | `Some(vertices[x])` exactly when `x < |vertices|`, `None` otherwise. |
| Graphs.Graph.AddVertex | src/lib.rs:75-94 | Appends `v` to the vertex values. The count grows by one. The new matrix is the old one with a zero row and column appended (`Grows`). The invariant and symmetry are kept. The return value is the new vertex count, so `GetVertexValue(count - 1) == Some(v)` and `GetVertexValue(count) == None`. |
| Graphs.CopyFromSlice | src/lib.rs:86 | Overwrites `dst[dstLo..dstHi]` with `src[srcLo..srcHi]` and leaves every other element unchanged. |
| Graphs.CopyRowInto | src/lib.rs:81-87 | Copies old row `i` into the first `n` positions of new row `i`. The loop invariant then holds for `i + 1` rows: rows copied so far hold the old cells, and the new column and the rows still to come are 0. |
| Graphs.GrowRowStep | src/lib.rs:82-86 | If new row `i` is overwritten in its first `n` positions by old row `i`, then one more row of the grown matrix is in place and the other cells are unchanged. |
| Graphs.Graph.RemoveVertex | src/lib.rs:95-115 | Removes element `x` of the vertex values. The count drops by one. The new matrix has row and column `x` removed: new cell `(r, c)` is old cell `(Skip(r, x), Skip(c, x))` (`Shrinks`). The invariant and symmetry are kept. |
| Graphs.CopyRowWithout | src/lib.rs:103-109 | For a kept row `i`, the two slice copies put old row `i` without column `x` into new row `newI`. The loop invariant then holds for `newI + 1` rows. |
| Graphs.ShrinkRowStep | src/lib.rs:105-107 | If the two copies overwrite new row `newI` with the columns of old row `i` before `x` and after `x`, then one more row of the shrunk matrix is in place and earlier rows are unchanged. |
| Graphs.Graph.AddEdge | src/lib.rs:116-119 | The matrix becomes `SymmetricWrite(old, n, x, y, z)`. Both directions then read `z`, every other cell is unchanged, and symmetry is kept. |
| Graphs.Graph.RemoveEdge | src/lib.rs:120-123 | The matrix becomes `SymmetricWrite(old, n, x, y, 0)`. Neither direction is adjacent afterwards, every other cell is unchanged, and symmetry is kept. |
| Graphs.Graph.SymmetricWriteEffect | src/lib.rs:116-123 | If both flat positions are in range, then `x, y < n`. After the symmetric write both directions read the written cost, every other cell is unchanged, and symmetry is kept. |
| Graphs.EdgeRoundTrip | src/lib.rs:116-123 | `add_edge(x, y, 5)` reads back `(5, 5)` in both directions. A following `remove_edge` reads back `(0, 0)`, and a second `remove_edge` leaves the matrix as it was. |
| Graphs.GrowShrinkExample | src/lib.rs:75-115 | Grows a 2-vertex graph with edge 0-1 (count 3, still adjacent), adds edge 0-2 of cost 4, then removes vertex 1. The result has values `[10, 30]` and the edge 0-1 of cost 4 both ways. |
| Graphs.Graph.SetVertexValue | src/lib.rs:130-132 | Only `vertices[x]` changes, to `v`. `GetVertexValue(x)` then returns `Some(v)`. |
| Graphs.Graph.SetEdgeValue | src/lib.rs:136-138 | The matrix becomes `WriteCell(old, n, x, y, v)`. `GetEdgeValue(x, y)` then returns `v`, and every other cell is unchanged. |
| FlatMatrix.RowStartIsProduct | src/lib.rs:67 | The row offset `RowStart(r, n)` equals `r * n`. |
| FlatMatrix.SizeIsSquare | src/lib.rs:49 | The matrix size `Size(n)` is `n * n`. |
| FlatMatrix.RowStartMono | src/lib.rs:82-85 | A later row starts after an earlier row ends. |
| FlatMatrix.TransposedInRange | src/lib.rs:117-118 | If the positions of `(x, y)` and `(y, x)` both lie in an `n * n` matrix, then `x < n` and `y < n`. |
| FlatMatrix.RowOfPosition | src/lib.rs:70 | Position `r * n + c` (with `c < n`) lies in row range `[i * n, i * n + n)` exactly when `r == i`. |
| FlatMatrix.RowInRange | src/lib.rs:70 | Every row `r < n` lies inside the matrix. |
| FlatMatrix.PositionInjective | src/lib.rs:67 | Distinct (row, column) pairs with columns below `n` occupy distinct flat positions. |
| FlatMatrix.PositionSplit | src/lib.rs:67 | Every position below `n * n` is `row * n + column` for `row = k / n < n` and `column = k % n < n`. |
| FlatMatrix.CellsDetermineMatrix | src/lib.rs:38 | Two `n * n` matrices that agree in every cell are equal. |
| FlatMatrix.GrowsUnique | src/lib.rs:80-87 | The grown matrix is uniquely determined. |
| FlatMatrix.GrowsPreservesSymmetry | src/lib.rs:80-87 | Growing a symmetric matrix gives a symmetric matrix. |
| FlatMatrix.Skip | src/lib.rs:102-103 | Index `k` of the smaller matrix maps to an old index other than `x`, on the same side of `x`. |
| FlatMatrix.Down | src/lib.rs:101-109 | The inverse of `Skip` on indices other than `x`. |
| FlatMatrix.ShrinksUnique | src/lib.rs:100-110 | The shrunk matrix is uniquely determined. |
| FlatMatrix.ShrinksRenumbers | src/lib.rs:100-110 | Old cell `(r, c)` with `r, c != x` reappears at `(Down(r, x), Down(c, x))`. |
| FlatMatrix.ShrinksPreservesSymmetry | src/lib.rs:100-110 | Shrinking a symmetric matrix gives a symmetric matrix. |
| FlatMatrix.ShrinkUndoesGrow | src/lib.rs:75-115 | Adding a vertex and then removing the last vertex gives back the original matrix. |
| FlatMatrix.WriteCell | src/lib.rs:137 | The written position holds `v` and the length is unchanged. |
| FlatMatrix.WriteCellAt | src/lib.rs:137 | After a write to `(x, y)`, cell `(x, y)` holds `v` and every other cell is unchanged. |
| FlatMatrix.WriteCellBreaksSymmetry | src/lib.rs:136-138 | Writing only one direction can leave a symmetric matrix asymmetric: `[0,0,0,0]` becomes asymmetric after writing 5 at `(0, 1)`. |
| FlatMatrix.SymmetricWriteAt | src/lib.rs:116-119 | After writing both directions, cells `(x, y)` and `(y, x)` hold `v` and every other cell is unchanged. |
| FlatMatrix.SymmetricWritePreservesSymmetry | src/lib.rs:116-123 | Writing both directions keeps a symmetric matrix symmetric. |
| FlatMatrix.SymmetricWriteIdempotent | src/lib.rs:120-123 | Repeating the same two-way write changes nothing, so `remove_edge` is idempotent. |

## Left out

- The `debug` method (printing to standard output) and the `Display` and `Error` implementations of `GraphError` (message formatting) are not modelled.
- The commented-out generic versions of `Graph` are not modelled. Vertex values are `u64` and edge costs are unbounded naturals.
- `usize` arithmetic is unbounded here. The overflow of `x * n + y`, of `n * n` and of `old_len + 1` on very large inputs is not modelled.
- `Vec` internals are not modelled: capacity, reallocation and moves. Vectors are sequences, and the rebuilt matrix is an array that is copied into the field.
- Panics are not modelled as outcomes. Each operation instead requires the condition under which the Rust code does not panic. For `remove_vertex` that condition, `x < n`, also rules out the subtraction underflow on an empty graph.
- Graphs.Graph.GetEdgeValue, Graphs.Graph.Adjacent, Graphs.Graph.SetEdgeValue: these require only what Rust's indexing requires, that the flat position is in range. The cell-level meaning is stated only for `x, y < n`. For other in-range arguments the model states just the flat position read or written.

## Findings

| source | as written | input that shows it | evidently intended | confidence | as-written member | corrected member |
|---|---|---|---|---|---|---|
| src/lib.rs:69-73 | `neighbors(x)` returns the flat matrix positions `x * n + y` of the positive cells in row `x` | 2 vertices, matrix `[0, 1, 1, 0]`: `neighbors(1)` gives `[2]` | the neighbouring vertex indices, here `[0]` | not executed | Graphs.Graph.NeighborsReturnFlatPositions | Graphs.Graph.NeighborColumnsOfTwoEdges |
