/** Square matrices stored row-major in one flat sequence: cell (r, c) of an
    n-by-n matrix lives at position r * n + c, written RowStart(r, n) + c. This is the layout the graph
    keeps its adjacency matrix in; the predicates here are the specifications
    of the graph's structural operations. */
module FlatMatrix {

  /** The flat position where row r of a matrix with n columns begins, that
      is r * n. It is computed by repeated addition so that the verifier
      reasons about row offsets through the lemmas below rather than through
      nonlinear arithmetic. */
  function RowStart(r: nat, n: nat): nat
  {
    if r == 0 then 0 else RowStart(r - 1, n) + n
  }

  lemma {:induction false} RowStartIsProduct(r: nat, n: nat)
    ensures RowStart(r, n) == r * n
  {
    if r > 0 {
      RowStartIsProduct(r - 1, n);
      assert r * n == (r - 1) * n + n;
    }
  }

  /** The number of cells of an n-by-n matrix: where a row n would begin. */
  function Size(n: nat): nat
  {
    RowStart(n, n)
  }

  lemma SizeIsSquare(n: nat)
    ensures Size(n) == n * n
  {
    RowStartIsProduct(n, n);
  }

  /** A later row begins after an earlier row ends. */
  lemma {:induction false} RowStartMono(i: nat, r: nat, n: nat)
    requires i < r
    ensures RowStart(i, n) + n <= RowStart(r, n)
  {
    if i + 1 < r {
      RowStartMono(i, r - 1, n);
    }
  }

  /** Both the position of (x, y) and that of its transpose (y, x) lie in an
      n by n matrix only when x and y are both below n. */
  lemma {:induction false} TransposedInRange(n: nat, x: nat, y: nat)
    requires RowStart(x, n) + y < Size(n) && RowStart(y, n) + x < Size(n)
    ensures x < n && y < n
  {
    if n < x {
      RowStartMono(n, x, n);
    }
    if n < y {
      RowStartMono(n, y, n);
    }
  }

  /** The flat positions of row i are exactly [RowStart(i, n), RowStart(i, n) + n):
      position RowStart(r, n) + c (with c < n) falls in that range iff r == i. */
  lemma RowOfPosition(n: nat, r: nat, c: nat, i: nat)
    requires c < n
    ensures RowStart(i, n) <= RowStart(r, n) + c < RowStart(i, n) + n <==> r == i
  {
    if r < i {
      RowStartMono(r, i, n);
    } else if r > i {
      RowStartMono(i, r, n);
    }
  }

  /** Row r of an n-by-n matrix ends inside the matrix. */
  lemma RowInRange(n: nat, r: nat)
    requires r < n
    ensures RowStart(r, n) + n <= Size(n)
  {
    RowStartMono(r, n, n);
  }

  /** Distinct coordinates have distinct flat positions. */
  lemma PositionInjective(n: nat, r1: nat, c1: nat, r2: nat, c2: nat)
    requires c1 < n && c2 < n
    requires RowStart(r1, n) + c1 == RowStart(r2, n) + c2
    ensures r1 == r2 && c1 == c2
  {
    RowOfPosition(n, r1, c1, r2);
  }

  /** Every flat position of an n-by-n matrix is the position of some cell. */
  lemma PositionSplit(n: nat, k: nat)
    requires k < Size(n)
    ensures n > 0 && k / n < n && k % n < n && k == RowStart(k / n, n) + k % n
  {
    var q := k / n;
    RowStartIsProduct(q, n);
    if n < q {
      RowStartMono(n, q, n);
    }
  }

  /** The cost stored at row r, column c. */
  function Cell(m: seq<nat>, n: nat, r: nat, c: nat): nat
    requires |m| == Size(n) && r < n && c < n
  {
    RowInRange(n, r);
    m[RowStart(r, n) + c]
  }

  /** Two n-by-n matrices that agree on every cell are the same sequence. */
  lemma CellsDetermineMatrix(a: seq<nat>, b: seq<nat>, n: nat)
    requires |a| == Size(n) && |b| == Size(n)
    requires forall r: nat, c: nat | r < n && c < n :: Cell(a, n, r, c) == Cell(b, n, r, c)
    ensures a == b
  {
    forall k | 0 <= k < Size(n)
      ensures a[k] == b[k]
    {
      PositionSplit(n, k);
      assert Cell(a, n, k / n, k % n) == Cell(b, n, k / n, k % n);
    }
  }

  /** Cell (r, c) and cell (c, r) always hold the same cost. */
  ghost predicate IsSymmetric(m: seq<nat>, n: nat)
  {
    |m| == Size(n) &&
    forall r: nat, c: nat | r < n && c < n :: Cell(m, n, r, c) == Cell(m, n, c, r)
  }

  // ---------------------------------------------------------------------
  // Growing: one more vertex

  /** m' is the (n+1)-by-(n+1) matrix that keeps every cell of the n-by-n
      matrix m at its coordinates and holds 0 in the new last row and the
      new last column. */
  ghost predicate Grows(m: seq<nat>, n: nat, m': seq<nat>)
  {
    var n' := n + 1;
    |m| == Size(n) && |m'| == Size(n') &&
    forall r: nat, c: nat | r < n' && c < n' ::
      Cell(m', n', r, c) == if r < n && c < n then Cell(m, n, r, c) else 0
  }

  /** Grows determines the new matrix completely. */
  lemma GrowsUnique(m: seq<nat>, n: nat, a: seq<nat>, b: seq<nat>)
    requires Grows(m, n, a) && Grows(m, n, b)
    ensures a == b
  {
    var n' := n + 1;
    forall r: nat, c: nat | r < n' && c < n'
      ensures Cell(a, n', r, c) == Cell(b, n', r, c)
    {
    }
    CellsDetermineMatrix(a, b, n');
  }

  /** Adding an isolated vertex keeps an undirected matrix undirected. */
  lemma GrowsPreservesSymmetry(m: seq<nat>, n: nat, m': seq<nat>)
    requires Grows(m, n, m') && IsSymmetric(m, n)
    ensures IsSymmetric(m', n + 1)
  {
    var n' := n + 1;
    forall r: nat, c: nat | r < n' && c < n'
      ensures Cell(m', n', r, c) == Cell(m', n', c, r)
    {
      if r < n && c < n {
        assert Cell(m, n, r, c) == Cell(m, n, c, r);
      }
    }
  }

  // ---------------------------------------------------------------------
  // Shrinking: one vertex fewer

  /** The old index that new index k stands for once index x is removed:
      indices below x stay, the others moved down by one. */
  function Skip(k: nat, x: nat): (k': nat)
    ensures k' != x && (k' < x <==> k < x)
  {
    if k < x then k else k + 1
  }

  /** The new index of old index k (k != x) once index x is removed. */
  function Down(k: nat, x: nat): (k': nat)
    requires k != x
    ensures Skip(k', x) == k
  {
    if k < x then k else k - 1
  }

  /** m' is the (n-1)-by-(n-1) matrix left when row x and column x are cut
      out of the n-by-n matrix m, the later rows and columns moving up and
      left by one. */
  ghost predicate Shrinks(m: seq<nat>, n: nat, x: nat, m': seq<nat>)
  {
    var n' := n - 1;
    |m| == Size(n) && x < n && |m'| == Size(n') &&
    forall r: nat, c: nat {:trigger Cell(m', n', r, c)} | r < n' && c < n' ::
      Cell(m', n', r, c) == Cell(m, n, Skip(r, x), Skip(c, x))
  }

  /** Shrinks determines the new matrix completely. */
  lemma ShrinksUnique(m: seq<nat>, n: nat, x: nat, a: seq<nat>, b: seq<nat>)
    requires Shrinks(m, n, x, a) && Shrinks(m, n, x, b)
    ensures a == b
  {
    CellsDetermineMatrix(a, b, n - 1);
  }

  /** Every surviving cell (r, c), r != x and c != x, is found after the
      shrink at (Down(r, x), Down(c, x)). */
  lemma ShrinksRenumbers(m: seq<nat>, n: nat, x: nat, m': seq<nat>, r: nat, c: nat)
    requires Shrinks(m, n, x, m')
    requires r < n && c < n && r != x && c != x
    ensures Down(r, x) < n - 1 && Down(c, x) < n - 1
    ensures Cell(m', n - 1, Down(r, x), Down(c, x)) == Cell(m, n, r, c)
  {
    assert Skip(Down(r, x), x) == r && Skip(Down(c, x), x) == c;
  }

  /** Removing a vertex keeps an undirected matrix undirected. */
  lemma ShrinksPreservesSymmetry(m: seq<nat>, n: nat, x: nat, m': seq<nat>)
    requires Shrinks(m, n, x, m') && IsSymmetric(m, n)
    ensures IsSymmetric(m', n - 1)
  {
    var n' := n - 1;
    forall r: nat, c: nat | r < n' && c < n'
      ensures Cell(m', n', r, c) == Cell(m', n', c, r)
    {
      assert Cell(m, n, Skip(r, x), Skip(c, x)) == Cell(m, n, Skip(c, x), Skip(r, x));
    }
  }

  /** Removing the vertex that was just added gives back the matrix as it
      was before the add. */
  lemma ShrinkUndoesGrow(m: seq<nat>, n: nat, grown: seq<nat>, shrunk: seq<nat>)
    requires Grows(m, n, grown) && Shrinks(grown, n + 1, n, shrunk)
    ensures shrunk == m
  {
    forall r: nat, c: nat | r < n && c < n
      ensures Cell(shrunk, n, r, c) == Cell(m, n, r, c)
    {
      assert Cell(shrunk, n, r, c) == Cell(grown, n + 1, Skip(r, n), Skip(c, n));
    }
    CellsDetermineMatrix(shrunk, m, n);
  }

  // ---------------------------------------------------------------------
  // Writing cells

  /** The matrix with the cost at flat position RowStart(x, n) + y replaced by v. */
  function WriteCell(m: seq<nat>, n: nat, x: nat, y: nat, v: nat): (m': seq<nat>)
    requires RowStart(x, n) + y < |m|
    ensures |m'| == |m| && m'[RowStart(x, n) + y] == v
  {
    m[RowStart(x, n) + y := v]
  }

  /** A write at (x, y) changes cell (x, y) and no other cell. */
  lemma WriteCellAt(m: seq<nat>, n: nat, x: nat, y: nat, v: nat, r: nat, c: nat)
    requires |m| == Size(n) && x < n && y < n && r < n && c < n
    requires RowStart(x, n) + y < |m|
    ensures Cell(WriteCell(m, n, x, y, v), n, r, c) == if r == x && c == y then v else Cell(m, n, r, c)
  {
    var m' := WriteCell(m, n, x, y, v);
    RowInRange(n, r);
    assert Cell(m', n, r, c) == m'[RowStart(r, n) + c];
    if RowStart(r, n) + c == RowStart(x, n) + y {
      PositionInjective(n, r, c, x, y);
    }
  }

  /** A single directed write can break symmetry: on the empty 2-vertex
      matrix, writing (0, 1) leaves (1, 0) at 0. */
  lemma WriteCellBreaksSymmetry()
    ensures IsSymmetric([0, 0, 0, 0], 2)
    ensures !IsSymmetric(WriteCell([0, 0, 0, 0], 2, 0, 1, 5), 2)
  {
    var m' := WriteCell([0, 0, 0, 0], 2, 0, 1, 5);
    assert Cell(m', 2, 0, 1) == 5 && Cell(m', 2, 1, 0) == 0;
  }

  /** The matrix with the cost of the undirected edge {x, y} set to v:
      position RowStart(x, n) + y first, then position RowStart(y, n) + x. */
  function SymmetricWrite(m: seq<nat>, n: nat, x: nat, y: nat, v: nat): (m': seq<nat>)
    requires RowStart(x, n) + y < |m| && RowStart(y, n) + x < |m|
    ensures |m'| == |m|
  {
    WriteCell(WriteCell(m, n, x, y, v), n, y, x, v)
  }

  /** An undirected write changes cells (x, y) and (y, x) and no other cell. */
  lemma SymmetricWriteAt(m: seq<nat>, n: nat, x: nat, y: nat, v: nat, r: nat, c: nat)
    requires |m| == Size(n) && x < n && y < n && r < n && c < n
    requires RowStart(x, n) + y < |m| && RowStart(y, n) + x < |m|
    ensures Cell(SymmetricWrite(m, n, x, y, v), n, r, c) ==
      if (r == x && c == y) || (r == y && c == x) then v else Cell(m, n, r, c)
  {
    WriteCellAt(m, n, x, y, v, r, c);
    WriteCellAt(WriteCell(m, n, x, y, v), n, y, x, v, r, c);
  }

  /** An undirected write keeps an undirected matrix undirected. */
  lemma SymmetricWritePreservesSymmetry(m: seq<nat>, n: nat, x: nat, y: nat, v: nat)
    requires IsSymmetric(m, n) && x < n && y < n
    requires RowStart(x, n) + y < |m| && RowStart(y, n) + x < |m|
    ensures IsSymmetric(SymmetricWrite(m, n, x, y, v), n)
  {
    var m' := SymmetricWrite(m, n, x, y, v);
    forall r: nat, c: nat | r < n && c < n
      ensures Cell(m', n, r, c) == Cell(m', n, c, r)
    {
      SymmetricWriteAt(m, n, x, y, v, r, c);
      SymmetricWriteAt(m, n, x, y, v, c, r);
    }
  }

  /** Repeating an undirected write changes nothing; with v == 0 this is
      removing the same edge twice. */
  lemma SymmetricWriteIdempotent(m: seq<nat>, n: nat, x: nat, y: nat, v: nat)
    requires RowStart(x, n) + y < |m| && RowStart(y, n) + x < |m|
    ensures SymmetricWrite(SymmetricWrite(m, n, x, y, v), n, x, y, v) == SymmetricWrite(m, n, x, y, v)
  {
    var once := SymmetricWrite(m, n, x, y, v);
    var twice := SymmetricWrite(once, n, x, y, v);
    forall k | 0 <= k < |m|
      ensures twice[k] == once[k]
    {
    }
  }
}
