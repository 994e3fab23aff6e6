/** An undirected weighted graph over a dense adjacency matrix: a sequence of
    vertex values, indexed by vertex, and a flat row-major n-by-n matrix of
    edge costs in which 0 means "no edge". Flat position x * n + y holds the
    cost of edge (x, y); the contracts write it RowStart(x, n) + y (see
    FlatMatrix). */
module Graphs {
  import opened FlatMatrix

  /** Vertex values are unsigned 64-bit integers. */
  newtype u64 = x: int | 0 <= x < 0x1_0000_0000_0000_0000

  type VertexIndex = nat
  type EdgeCost = nat

  datatype Option<T> = None | Some(value: T)

  datatype Result<T, E> = Ok(value: T) | Err(error: E)

  /** The one error the graph reports: the matrix handed to New does not
      have vertexCount * vertexCount cells. */
  datatype GraphError = MatrixDimensionMismatch(matrixLen: nat, vertexCount: nat, expectedLen: nat)

  /** dst[dstLo..dstHi] takes the values of src[srcLo..srcHi], position by
      position; both ranges must lie inside their sequences and have the
      same length. */
  method CopyFromSlice(dst: array<EdgeCost>, dstLo: nat, dstHi: nat, src: seq<EdgeCost>, srcLo: nat, srcHi: nat)
    requires dstLo <= dstHi <= dst.Length && srcLo <= srcHi <= |src|
    requires dstHi - dstLo == srcHi - srcLo
    modifies dst
    ensures forall k | 0 <= k < dst.Length ::
      dst[k] == if dstLo <= k < dstHi then src[srcLo + (k - dstLo)] else old(dst[k])
  {
    for j := 0 to dstHi - dstLo
      invariant forall k | 0 <= k < dst.Length ::
        dst[k] == if dstLo <= k < dstLo + j then src[srcLo + (k - dstLo)] else old(dst[k])
    {
      dst[dstLo + j] := src[srcLo + j];
    }
  }

  /** One pass of the AddVertex loop: if `after` is `before` with the first
      n positions of new row i overwritten by old row i, then one more row of
      the grown matrix is in place. n' is the new size n + 1. */
  lemma {:induction false} GrowRowStep(before: seq<EdgeCost>, after: seq<EdgeCost>, src: seq<EdgeCost>,
                                      n: nat, n': nat, i: nat)
    requires n' == n + 1 && i < n
    requires |src| == Size(n) && |before| == Size(n') && |after| == |before|
    requires RowStart(i, n) + n <= |src|
    requires forall k {:trigger after[k]} | 0 <= k < |after| ::
      after[k] == if RowStart(i, n') <= k < RowStart(i, n') + n
                  then src[RowStart(i, n) + (k - RowStart(i, n'))]
                  else before[k]
    requires forall r: nat, c: nat {:trigger Cell(before, n', r, c)} | r < n' && c < n' ::
      Cell(before, n', r, c) == if r < i && c < n then Cell(src, n, r, c) else 0
    ensures forall r: nat, c: nat {:trigger Cell(after, n', r, c)} | r < n' && c < n' ::
      Cell(after, n', r, c) == if r < i + 1 && c < n then Cell(src, n, r, c) else 0
  {
    forall r: nat, c: nat {:trigger Cell(after, n', r, c)} | r < n' && c < n'
      ensures Cell(after, n', r, c) == if r < i + 1 && c < n then Cell(src, n, r, c) else 0
    {
      RowOfPosition(n', r, c, i);
      RowInRange(n', r);
      var k := RowStart(r, n') + c;
      assert Cell(after, n', r, c) == after[k];
      assert Cell(before, n', r, c) == before[k];
      if r == i && c < n {
        assert after[k] == src[RowStart(i, n) + c];
      } else {
        assert after[k] == before[k];
      }
    }
  }

  /** One pass of the RemoveVertex loop: `mid` is `before` with the first x
      positions of new row newI overwritten by the columns of old row i
      before x, and `after` is `mid` with the rest of new row newI
      overwritten by the columns of old row i after x. Then one more row of
      the shrunken matrix is in place. n' is the new size n - 1. */
  lemma {:induction false} ShrinkRowStep(before: seq<EdgeCost>, mid: seq<EdgeCost>, after: seq<EdgeCost>,
                                        src: seq<EdgeCost>, n: nat, n': nat, x: nat, i: nat, newI: nat)
    requires n == n' + 1 && x < n && i < n && i != x && newI == (if i < x then i else i - 1)
    requires |src| == Size(n) && |before| == Size(n') && |mid| == |before| && |after| == |before|
    requires RowStart(i, n) + n <= |src|
    requires forall k {:trigger mid[k]} | 0 <= k < |mid| ::
      mid[k] == if RowStart(newI, n') <= k < RowStart(newI, n') + x
                then src[RowStart(i, n) + (k - RowStart(newI, n'))]
                else before[k]
    requires forall k {:trigger after[k]} | 0 <= k < |after| ::
      after[k] == if RowStart(newI, n') + x <= k < RowStart(newI, n') + n'
                  then src[RowStart(i, n) + x + 1 + (k - (RowStart(newI, n') + x))]
                  else mid[k]
    requires forall r: nat, c: nat {:trigger Cell(before, n', r, c)} | r < n' && c < n' ::
      Cell(before, n', r, c) == if r < newI then Cell(src, n, Skip(r, x), Skip(c, x)) else 0
    ensures forall r: nat, c: nat {:trigger Cell(after, n', r, c)} | r < n' && c < n' ::
      Cell(after, n', r, c) == if r < newI + 1 then Cell(src, n, Skip(r, x), Skip(c, x)) else 0
  {
    forall r: nat, c: nat {:trigger Cell(after, n', r, c)} | r < n' && c < n'
      ensures Cell(after, n', r, c) == if r < newI + 1 then Cell(src, n, Skip(r, x), Skip(c, x)) else 0
    {
      RowOfPosition(n', r, c, newI);
      RowInRange(n', r);
      var k := RowStart(r, n') + c;
      assert Cell(after, n', r, c) == after[k];
      assert Cell(before, n', r, c) == before[k];
      if r == newI {
        assert Skip(r, x) == i;
        assert Cell(src, n, i, Skip(c, x)) == src[RowStart(i, n) + Skip(c, x)];
        if c < x {
          assert after[k] == mid[k];
        }
      } else {
        assert after[k] == mid[k] == before[k];
      }
    }
  }

  /** The body of the AddVertex loop: copies old row i into the first n
      positions of new row i, leaving its last position 0. */
  method CopyRowInto(dst: array<EdgeCost>, src: seq<EdgeCost>, n: nat, n': nat, i: nat)
    requires n' == n + 1 && i < n
    requires |src| == Size(n) && dst.Length == Size(n')
    requires forall r: nat, c: nat {:trigger Cell(dst[..], n', r, c)} | r < n' && c < n' ::
      Cell(dst[..], n', r, c) == if r < i && c < n then Cell(src, n, r, c) else 0
    modifies dst
    ensures forall r: nat, c: nat {:trigger Cell(dst[..], n', r, c)} | r < n' && c < n' ::
      Cell(dst[..], n', r, c) == if r < i + 1 && c < n then Cell(src, n, r, c) else 0
  {
    RowStartIsProduct(i, n);
    RowStartIsProduct(i, n');
    RowInRange(n, i);
    RowInRange(n', i);
    var oldLower := i * n;
    var newLower := i * n';
    var oldUpper := oldLower + n;
    var newUpper := newLower + n';
    ghost var before := dst[..];
    CopyFromSlice(dst, newLower, newUpper - 1, src, oldLower, oldUpper);
    GrowRowStep(before, dst[..], src, n, n', i);
  }

  /** The body of the RemoveVertex loop for a kept row i: copies the columns
      of old row i before x, then those after x, into new row newI. */
  method CopyRowWithout(dst: array<EdgeCost>, src: seq<EdgeCost>, n: nat, n': nat, x: nat, i: nat, newI: nat)
    requires n == n' + 1 && x < n && i < n && i != x && newI == (if i < x then i else i - 1)
    requires |src| == Size(n) && dst.Length == Size(n')
    requires forall r: nat, c: nat {:trigger Cell(dst[..], n', r, c)} | r < n' && c < n' ::
      Cell(dst[..], n', r, c) == if r < newI then Cell(src, n, Skip(r, x), Skip(c, x)) else 0
    modifies dst
    ensures forall r: nat, c: nat {:trigger Cell(dst[..], n', r, c)} | r < n' && c < n' ::
      Cell(dst[..], n', r, c) == if r < newI + 1 then Cell(src, n, Skip(r, x), Skip(c, x)) else 0
  {
    RowStartIsProduct(i, n);
    RowStartIsProduct(newI, n');
    RowInRange(n, i);
    RowInRange(n', newI);
    var oldLower := i * n;
    var newLower := newI * n';
    ghost var before := dst[..];
    CopyFromSlice(dst, newLower, newLower + x, src, oldLower, oldLower + x);
    ghost var mid := dst[..];
    CopyFromSlice(dst, newLower + x, newLower + n', src, oldLower + x + 1, oldLower + n);
    ShrinkRowStep(before, mid, dst[..], src, n, n', x, i, newI);
  }

  class Graph {
    var adjacencyMatrix: seq<EdgeCost>
    var vertices: seq<u64>
    var vertexCount: nat

    /** The matrix is vertexCount by vertexCount and there is one value per
        vertex. */
    ghost predicate Valid()
      reads this
    {
      |adjacencyMatrix| == Size(vertexCount) && vertexCount == |vertices|
    }

    /** Every edge is recorded in both directions. */
    ghost predicate Symmetric()
      reads this
      requires Valid()
    {
      IsSymmetric(adjacencyMatrix, vertexCount)
    }

    /** The graph made of exactly the given parts, unchecked. */
    constructor (adjacencyMatrix: seq<EdgeCost>, vertices: seq<u64>, vertexCount: nat)
      ensures this.adjacencyMatrix == adjacencyMatrix
      ensures this.vertices == vertices
      ensures this.vertexCount == vertexCount
    {
      this.adjacencyMatrix := adjacencyMatrix;
      this.vertices := vertices;
      this.vertexCount := vertexCount;
    }

    /** A graph over the given matrix and vertex values, provided the matrix
        has one cell per ordered pair of vertices. */
    static method New(adjacencyMatrix: seq<EdgeCost>, vertices: seq<u64>) returns (r: Result<Graph, GraphError>)
      ensures r.Ok? <==> |adjacencyMatrix| == |vertices| * |vertices|
      ensures r.Ok? ==> fresh(r.value) && r.value.Valid()
      ensures r.Ok? ==> r.value.adjacencyMatrix == adjacencyMatrix && r.value.vertices == vertices
      ensures r.Ok? ==> r.value.vertexCount == |vertices|
      ensures r.Err? ==> r.error == MatrixDimensionMismatch(|adjacencyMatrix|, |vertices|, |vertices| * |vertices|)
    {
      var vertexCount := |vertices|;
      var expectedLen := vertexCount * vertexCount;
      SizeIsSquare(vertexCount);
      if |adjacencyMatrix| == expectedLen {
        var g := new Graph(adjacencyMatrix, vertices, vertexCount);
        r := Ok(g);
      } else {
        r := Err(MatrixDimensionMismatch(|adjacencyMatrix|, |vertices|, expectedLen));
      }
    }

    // -------------------------------------------------------------------
    // Queries

    /** The cost at flat position x * n + y; for x, y < n that is the cost of
        edge (x, y), 0 when there is none. */
    function GetEdgeValue(x: VertexIndex, y: VertexIndex): (r: EdgeCost)
      reads this
      requires Valid() && RowStart(x, vertexCount) + y < |adjacencyMatrix|
      ensures r == adjacencyMatrix[RowStart(x, vertexCount) + y]
      ensures x < vertexCount && y < vertexCount ==> r == Cell(adjacencyMatrix, vertexCount, x, y)
    {
      RowStartIsProduct(x, vertexCount);
      adjacencyMatrix[x * vertexCount + y]
    }

    /** Whether there is an edge between x and y: exactly when the same cell
        read by GetEdgeValue holds a positive cost. */
    function Adjacent(x: VertexIndex, y: VertexIndex): (r: bool)
      reads this
      requires Valid() && RowStart(x, vertexCount) + y < |adjacencyMatrix|
      ensures r <==> GetEdgeValue(x, y) > 0
    {
      RowStartIsProduct(x, vertexCount);
      adjacencyMatrix[x * vertexCount + y] > 0
    }

    /** The flat matrix positions i in [x * n, x * n + n) whose cost is
        positive, in ascending order. These are positions, not column
        numbers: entry x * n + y stands for neighbour y. */
    function Neighbors(x: VertexIndex): (r: seq<nat>)
      reads this
      requires Valid() && (x < vertexCount || vertexCount == 0)
      ensures forall k, l | 0 <= k < l < |r| :: r[k] < r[l]
      ensures forall k | 0 <= k < |r| ::
        RowStart(x, vertexCount) <= r[k] < RowStart(x, vertexCount) + vertexCount
      ensures forall y: nat | y < vertexCount ::
        RowStart(x, vertexCount) + y in r <==> Cell(adjacencyMatrix, vertexCount, x, y) > 0
    {
      if vertexCount == 0 then
        []
      else
        RowInRange(vertexCount, x);
        RowStartIsProduct(x, vertexCount);
        PositiveIndicesSpec(adjacencyMatrix, x * vertexCount, x * vertexCount + vertexCount);
        PositiveIndices(adjacencyMatrix, x * vertexCount, x * vertexCount + vertexCount)
    }

    /** The column numbers y whose cost in row x is positive, in ascending
        order: what Neighbors evidently means to return. */
    function NeighborColumns(x: VertexIndex): (r: seq<VertexIndex>)
      reads this
      requires Valid() && (x < vertexCount || vertexCount == 0)
      ensures forall k, l | 0 <= k < l < |r| :: r[k] < r[l]
      ensures forall k | 0 <= k < |r| :: r[k] < vertexCount
      ensures forall y: nat :: y in r <==> y < vertexCount && Cell(adjacencyMatrix, vertexCount, x, y) > 0
    {
      if vertexCount == 0 then
        []
      else
        RowInRange(vertexCount, x);
        var rowStart := RowStart(x, vertexCount);
        PositiveIndicesSpec(adjacencyMatrix[rowStart..rowStart + vertexCount], 0, vertexCount);
        PositiveIndices(adjacencyMatrix[rowStart..rowStart + vertexCount], 0, vertexCount)
    }

    /** Neighbors(x) is NeighborColumns(x) with x * n added to every element. */
    lemma NeighborsAreShiftedColumns(x: VertexIndex)
      requires Valid() && (x < vertexCount || vertexCount == 0)
      ensures |Neighbors(x)| == |NeighborColumns(x)|
      ensures forall k | 0 <= k < |NeighborColumns(x)| ::
        Neighbors(x)[k] == RowStart(x, vertexCount) + NeighborColumns(x)[k]
    {
      if vertexCount > 0 {
        RowInRange(vertexCount, x);
        RowStartIsProduct(x, vertexCount);
        var rowStart := RowStart(x, vertexCount);
        var row := adjacencyMatrix[rowStart..rowStart + vertexCount];
        PositiveIndicesShift(adjacencyMatrix, row, rowStart, 0, vertexCount);
      }
    }

    /** As written, Neighbors of a vertex x with exactly the edges x-a and
        x-b (a < b) gives the flat positions x * n + a and x * n + b. */
    lemma NeighborsOfTwoEdges(x: VertexIndex, a: VertexIndex, b: VertexIndex)
      requires Valid() && x < vertexCount && a < b < vertexCount
      requires forall y: nat | y < vertexCount ::
        Cell(adjacencyMatrix, vertexCount, x, y) > 0 <==> y == a || y == b
      ensures Neighbors(x) == [RowStart(x, vertexCount) + a, RowStart(x, vertexCount) + b]
    {
      NeighborColumnsOfTwoEdges(x, a, b);
      NeighborsAreShiftedColumns(x);
    }

    /** A vertex x with exactly the edges x-a and x-b (a < b) has the
        neighbour columns [a, b]. */
    lemma NeighborColumnsOfTwoEdges(x: VertexIndex, a: VertexIndex, b: VertexIndex)
      requires Valid() && x < vertexCount && a < b < vertexCount
      requires forall y: nat | y < vertexCount ::
        Cell(adjacencyMatrix, vertexCount, x, y) > 0 <==> y == a || y == b
      ensures NeighborColumns(x) == [a, b]
    {
      var r := NeighborColumns(x);
      forall k | 0 <= k < |r| ensures r[k] == a || r[k] == b {
        assert r[k] in r;
      }
      AscendingPair(r, a, b);
    }

    /** On the 2-vertex graph with one edge 0-1, Neighbors(1) is [2], a flat
        position, where the neighbour's index is 0. */
    lemma NeighborsReturnFlatPositions()
      requires Valid() && vertexCount == 2 && adjacencyMatrix == [0, 1, 1, 0]
      ensures Neighbors(1) == [2] && NeighborColumns(1) == [0]
    {
      assert Cell(adjacencyMatrix, 2, 1, 0) == 1;
      assert Cell(adjacencyMatrix, 2, 1, 1) == 0;
      var r := NeighborColumns(1);
      forall k | 0 <= k < |r| ensures r[k] == 0 {
        assert r[k] in r;
      }
      AscendingSingleton(r, 0);
      NeighborsAreShiftedColumns(1);
    }

    /** The value of vertex x, or None when there is no vertex x. */
    function GetVertexValue(x: VertexIndex): (r: Option<u64>)
      reads this
      ensures r.Some? <==> x < |vertices|
      ensures r.Some? ==> r.value == vertices[x]
    {
      if x < |vertices| then Some(vertices[x]) else None
    }

    // -------------------------------------------------------------------
    // Structural mutation

    /** Appends a vertex with value v and no edges, growing the matrix by one
        row and one column of zeros. Returns the new vertex count, which is
        one more than the new vertex's own index. */
    method AddVertex(v: u64) returns (count: VertexIndex)
      requires Valid()
      modifies this
      ensures Valid()
      ensures vertices == old(vertices) + [v]
      ensures vertexCount == old(vertexCount) + 1
      ensures Grows(old(adjacencyMatrix), old(vertexCount), adjacencyMatrix)
      ensures count == vertexCount
      ensures GetVertexValue(count - 1) == Some(v) && GetVertexValue(count) == None
      ensures old(Symmetric()) ==> Symmetric()
    {
      var oldLen := vertexCount;
      var newLen := oldLen + 1;
      var newAdjSize := newLen * newLen;
      SizeIsSquare(newLen);
      var newAdjacencyMatrix := new EdgeCost[newAdjSize](_ => 0);
      forall r: nat, c: nat | r < newLen && c < newLen
        ensures Cell(newAdjacencyMatrix[..], newLen, r, c) == 0
      {
        RowInRange(newLen, r);
        assert Cell(newAdjacencyMatrix[..], newLen, r, c) == newAdjacencyMatrix[RowStart(r, newLen) + c];
      }
      for i := 0 to vertexCount
        modifies newAdjacencyMatrix
        invariant forall r: nat, c: nat {:trigger Cell(newAdjacencyMatrix[..], newLen, r, c)} | r < newLen && c < newLen ::
          Cell(newAdjacencyMatrix[..], newLen, r, c) ==
            if r < i && c < oldLen then Cell(adjacencyMatrix, oldLen, r, c) else 0
      {
        CopyRowInto(newAdjacencyMatrix, adjacencyMatrix, oldLen, newLen, i);
      }
      ghost var oldMatrix := adjacencyMatrix;
      adjacencyMatrix := newAdjacencyMatrix[..];
      vertices := vertices + [v];
      vertexCount := |vertices|;
      count := vertexCount;
      if IsSymmetric(oldMatrix, oldLen) {
        GrowsPreservesSymmetry(oldMatrix, oldLen, adjacencyMatrix);
      }
    }

    /** Removes vertex x: its value, its row and its column. Vertices, rows
        and columns after x move down by one. */
    method RemoveVertex(x: VertexIndex)
      requires Valid() && x < vertexCount
      modifies this
      ensures Valid()
      ensures vertexCount == old(vertexCount) - 1
      ensures vertices == old(vertices[..x]) + old(vertices[x + 1..])
      ensures Shrinks(old(adjacencyMatrix), old(vertexCount), x, adjacencyMatrix)
      ensures old(Symmetric()) ==> Symmetric()
    {
      var oldLen := vertexCount;
      var newLen := oldLen - 1;
      var newAdjSize := newLen * newLen;
      SizeIsSquare(newLen);
      var newAdjacencyMatrix := new EdgeCost[newAdjSize](_ => 0);
      forall r: nat, c: nat | r < newLen && c < newLen
        ensures Cell(newAdjacencyMatrix[..], newLen, r, c) == 0
      {
        RowInRange(newLen, r);
        assert Cell(newAdjacencyMatrix[..], newLen, r, c) == newAdjacencyMatrix[RowStart(r, newLen) + c];
      }
      var newI := 0;
      for i := 0 to oldLen
        modifies newAdjacencyMatrix
        invariant newI == if i <= x then i else i - 1
        invariant forall r: nat, c: nat {:trigger Cell(newAdjacencyMatrix[..], newLen, r, c)} | r < newLen && c < newLen ::
          Cell(newAdjacencyMatrix[..], newLen, r, c) ==
            if r < newI then Cell(adjacencyMatrix, oldLen, Skip(r, x), Skip(c, x)) else 0
      {
        if i == x {
          continue;
        }
        CopyRowWithout(newAdjacencyMatrix, adjacencyMatrix, oldLen, newLen, x, i, newI);
        newI := newI + 1;
      }
      ghost var oldMatrix := adjacencyMatrix;
      adjacencyMatrix := newAdjacencyMatrix[..];
      vertices := vertices[..x] + vertices[x + 1..];
      vertexCount := |vertices|;
      if IsSymmetric(oldMatrix, oldLen) {
        ShrinksPreservesSymmetry(oldMatrix, oldLen, x, adjacencyMatrix);
      }
    }

    /** Records the undirected edge {x, y} with cost z: position x * n + y,
        then position y * n + x. */
    method AddEdge(x: VertexIndex, y: VertexIndex, z: EdgeCost)
      requires Valid()
      requires RowStart(x, vertexCount) + y < |adjacencyMatrix| && RowStart(y, vertexCount) + x < |adjacencyMatrix|
      modifies this
      ensures Valid() && vertices == old(vertices) && vertexCount == old(vertexCount)
      ensures adjacencyMatrix == SymmetricWrite(old(adjacencyMatrix), vertexCount, x, y, z)
      ensures GetEdgeValue(x, y) == z && GetEdgeValue(y, x) == z
      ensures forall r: nat, c: nat | r < vertexCount && c < vertexCount && !(r == x && c == y) && !(r == y && c == x) ::
        Cell(adjacencyMatrix, vertexCount, r, c) == Cell(old(adjacencyMatrix), vertexCount, r, c)
      ensures old(Symmetric()) ==> Symmetric()
    {
      RowStartIsProduct(x, vertexCount);
      RowStartIsProduct(y, vertexCount);
      ghost var oldMatrix := adjacencyMatrix;
      adjacencyMatrix := adjacencyMatrix[x * vertexCount + y := z];
      adjacencyMatrix := adjacencyMatrix[y * vertexCount + x := z];
      SymmetricWriteEffect(oldMatrix, x, y, z);
    }

    /** Clears the undirected edge {x, y}: positions x * n + y and y * n + x
        become 0. */
    method RemoveEdge(x: VertexIndex, y: VertexIndex)
      requires Valid()
      requires RowStart(x, vertexCount) + y < |adjacencyMatrix| && RowStart(y, vertexCount) + x < |adjacencyMatrix|
      modifies this
      ensures Valid() && vertices == old(vertices) && vertexCount == old(vertexCount)
      ensures adjacencyMatrix == SymmetricWrite(old(adjacencyMatrix), vertexCount, x, y, 0)
      ensures !Adjacent(x, y) && !Adjacent(y, x)
      ensures forall r: nat, c: nat | r < vertexCount && c < vertexCount && !(r == x && c == y) && !(r == y && c == x) ::
        Cell(adjacencyMatrix, vertexCount, r, c) == Cell(old(adjacencyMatrix), vertexCount, r, c)
      ensures old(Symmetric()) ==> Symmetric()
    {
      RowStartIsProduct(x, vertexCount);
      RowStartIsProduct(y, vertexCount);
      ghost var oldMatrix := adjacencyMatrix;
      adjacencyMatrix := adjacencyMatrix[x * vertexCount + y := 0];
      adjacencyMatrix := adjacencyMatrix[y * vertexCount + x := 0];
      SymmetricWriteEffect(oldMatrix, x, y, 0);
    }

    /** What AddEdge and RemoveEdge establish about the matrix they leave
        behind, from the facts about SymmetricWrite. */
    lemma SymmetricWriteEffect(oldMatrix: seq<EdgeCost>, x: VertexIndex, y: VertexIndex, z: EdgeCost)
      requires Valid() && |oldMatrix| == |adjacencyMatrix|
      requires RowStart(x, vertexCount) + y < |oldMatrix| && RowStart(y, vertexCount) + x < |oldMatrix|
      requires adjacencyMatrix == SymmetricWrite(oldMatrix, vertexCount, x, y, z)
      ensures x < vertexCount && y < vertexCount
      ensures GetEdgeValue(x, y) == z && GetEdgeValue(y, x) == z
      ensures forall r: nat, c: nat | r < vertexCount && c < vertexCount && !(r == x && c == y) && !(r == y && c == x) ::
        Cell(adjacencyMatrix, vertexCount, r, c) == Cell(oldMatrix, vertexCount, r, c)
      ensures IsSymmetric(oldMatrix, vertexCount) ==> Symmetric()
    {
      var n := vertexCount;
      TransposedInRange(n, x, y);
      SymmetricWriteAt(oldMatrix, n, x, y, z, x, y);
      SymmetricWriteAt(oldMatrix, n, x, y, z, y, x);
      forall r: nat, c: nat | r < n && c < n && !(r == x && c == y) && !(r == y && c == x)
        ensures Cell(adjacencyMatrix, n, r, c) == Cell(oldMatrix, n, r, c)
      {
        SymmetricWriteAt(oldMatrix, n, x, y, z, r, c);
      }
      if IsSymmetric(oldMatrix, n) {
        SymmetricWritePreservesSymmetry(oldMatrix, n, x, y, z);
      }
    }

    // -------------------------------------------------------------------
    // Value access

    /** Overwrites the value of vertex x; nothing else changes. */
    method SetVertexValue(x: VertexIndex, v: u64)
      requires Valid() && x < |vertices|
      modifies this
      ensures Valid()
      ensures vertices == old(vertices)[x := v]
      ensures adjacencyMatrix == old(adjacencyMatrix) && vertexCount == old(vertexCount)
      ensures GetVertexValue(x) == Some(v)
    {
      vertices := vertices[x := v];
    }

    /** Overwrites the cost at flat position x * n + y only; the mirror cell
        y * n + x keeps its cost, so this write can break symmetry (see
        FlatMatrix.WriteCellBreaksSymmetry). */
    method SetEdgeValue(x: VertexIndex, y: VertexIndex, v: EdgeCost)
      requires Valid() && RowStart(x, vertexCount) + y < |adjacencyMatrix|
      modifies this
      ensures Valid() && vertices == old(vertices) && vertexCount == old(vertexCount)
      ensures adjacencyMatrix == WriteCell(old(adjacencyMatrix), vertexCount, x, y, v)
      ensures GetEdgeValue(x, y) == v
      ensures x < vertexCount && y < vertexCount ==>
        forall r: nat, c: nat | r < vertexCount && c < vertexCount && !(r == x && c == y) ::
          Cell(adjacencyMatrix, vertexCount, r, c) == Cell(old(adjacencyMatrix), vertexCount, r, c)
    {
      RowStartIsProduct(x, vertexCount);
      ghost var oldMatrix := adjacencyMatrix;
      adjacencyMatrix := adjacencyMatrix[x * vertexCount + y := v];
      if x < vertexCount && y < vertexCount {
        forall r: nat, c: nat | r < vertexCount && c < vertexCount && !(r == x && c == y)
          ensures Cell(adjacencyMatrix, vertexCount, r, c) == Cell(oldMatrix, vertexCount, r, c)
        {
          WriteCellAt(oldMatrix, vertexCount, x, y, v, r, c);
        }
      }
    }
  }

  /** The positions i in [lo, hi) with m[i] > 0, in ascending order (see
      PositiveIndicesSpec). */
  function PositiveIndices(m: seq<EdgeCost>, lo: nat, hi: nat): (r: seq<nat>)
    requires lo <= hi <= |m|
    ensures forall k | 0 <= k < |r| :: lo <= r[k] < hi
    decreases hi - lo
  {
    if lo == hi then
      []
    else
      (if m[lo] > 0 then [lo] else []) + PositiveIndices(m, lo + 1, hi)
  }

  /** PositiveIndices(m, lo, hi) is strictly ascending and holds exactly the
      positions in [lo, hi) with a positive cost. */
  lemma {:induction false} PositiveIndicesSpec(m: seq<EdgeCost>, lo: nat, hi: nat)
    requires lo <= hi <= |m|
    ensures forall k, l | 0 <= k < l < |PositiveIndices(m, lo, hi)| ::
      PositiveIndices(m, lo, hi)[k] < PositiveIndices(m, lo, hi)[l]
    ensures forall i :: i in PositiveIndices(m, lo, hi) <==> lo <= i < hi && m[i] > 0
    decreases hi - lo
  {
    if lo < hi {
      PositiveIndicesSpec(m, lo + 1, hi);
    }
  }

  /** Filtering the positions [off + lo, off + hi) of m gives the positions
      of filtering [lo, hi) of a row that holds m[off + i] at each i, moved
      up by off. */
  lemma {:induction false} PositiveIndicesShift(m: seq<EdgeCost>, row: seq<EdgeCost>, off: nat, lo: nat, hi: nat)
    requires lo <= hi <= |row| && off + hi <= |m|
    requires forall i | lo <= i < hi :: row[i] == m[off + i]
    ensures |PositiveIndices(m, off + lo, off + hi)| == |PositiveIndices(row, lo, hi)|
    ensures forall k | 0 <= k < |PositiveIndices(row, lo, hi)| ::
      PositiveIndices(m, off + lo, off + hi)[k] == off + PositiveIndices(row, lo, hi)[k]
    decreases hi - lo
  {
    if lo < hi {
      PositiveIndicesShift(m, row, off, lo + 1, hi);
      var a := PositiveIndices(m, off + lo + 1, off + hi);
      var b := PositiveIndices(row, lo + 1, hi);
      assert PositiveIndices(m, off + lo, off + hi) == (if m[off + lo] > 0 then [off + lo] else []) + a;
      assert PositiveIndices(row, lo, hi) == (if row[lo] > 0 then [lo] else []) + b;
    }
  }

  /** A strictly ascending sequence holding a and b (a < b) and nothing
      else is [a, b]. */
  lemma AscendingPair(r: seq<nat>, a: nat, b: nat)
    requires a < b && a in r && b in r
    requires forall k, l | 0 <= k < l < |r| :: r[k] < r[l]
    requires forall k | 0 <= k < |r| :: r[k] == a || r[k] == b
    ensures r == [a, b]
  {
    var j :| 0 <= j < |r| && r[j] == b;
    assert j == |r| - 1;
    assert r[0] == a && r[|r| - 2] == a;
  }

  /** A strictly ascending sequence holding a and nothing else is [a]. */
  lemma AscendingSingleton(r: seq<nat>, a: nat)
    requires a in r
    requires forall k, l | 0 <= k < l < |r| :: r[k] < r[l]
    requires forall k | 0 <= k < |r| :: r[k] == a
    ensures r == [a]
  {
    assert r[0] == a && r[|r| - 1] == a;
  }

  // ---------------------------------------------------------------------
  // Worked examples

  /** Construction rejects 8 cells for 3 vertices and reports the lengths
      (8, 3, 9). */
  method MismatchExample() returns (r: Result<Graph, GraphError>)
    ensures r == Err(MatrixDimensionMismatch(8, 3, 9))
  {
    r := Graph.New([0, 0, 0, 0, 0, 0, 0, 0], [1, 2, 3]);
  }

  /** A 2-vertex graph with the edge 0-1 keeps that edge when a vertex is
      added (count 3); after an edge 0-2 of cost 4, removing vertex 1 leaves
      that edge between vertices 0 and 1. */
  method GrowShrinkExample() returns (g: Graph, count: VertexIndex, adjacentAfterGrow: bool)
    ensures count == 3 && adjacentAfterGrow
    ensures g.Valid() && g.vertexCount == 2 && g.vertices == [10, 30]
    ensures g.GetEdgeValue(0, 1) == 4 && g.GetEdgeValue(1, 0) == 4
  {
    var r := Graph.New([0, 7, 7, 0], [10, 20]);
    g := r.value;
    count := g.AddVertex(30);
    adjacentAfterGrow := g.Adjacent(0, 1);
    g.AddEdge(0, 2, 4);
    g.RemoveVertex(1);
  }

  /** add_edge(x, y, 5) reads back 5 in both directions; remove_edge(x, y)
      then reads back 0 in both directions, and a second remove_edge(x, y)
      changes nothing. */
  method EdgeRoundTrip(g: Graph, x: VertexIndex, y: VertexIndex)
      returns (added: (EdgeCost, EdgeCost), removed: (EdgeCost, EdgeCost), repeatUnchanged: bool)
    requires g.Valid() && x < g.vertexCount && y < g.vertexCount
    modifies g
    ensures g.Valid()
    ensures added == (5, 5) && removed == (0, 0) && repeatUnchanged
  {
    RowInRange(g.vertexCount, x);
    RowInRange(g.vertexCount, y);
    g.AddEdge(x, y, 5);
    added := (g.GetEdgeValue(x, y), g.GetEdgeValue(y, x));
    g.RemoveEdge(x, y);
    removed := (g.GetEdgeValue(x, y), g.GetEdgeValue(y, x));
    var once := g.adjacencyMatrix;
    g.RemoveEdge(x, y);
    SymmetricWriteIdempotent(once, g.vertexCount, x, y, 0);
    repeatUnchanged := g.adjacencyMatrix == once;
  }
}
