/**
  The 9x9 Sudoku grid as a value: cell positions, the row-major board,
  the legality rule of `legal_next`, the peer relation it encodes, and the
  row-major enumeration of empty cells.
*/
module Grid {

  /** A cell position; Python's `Point.__eq__` is datatype equality here. */
  datatype Point = Point(row: int, column: int) {

    /** `Point.shift`: the position moved by `x` rows and `y` columns. */
    function Shift(x: int, y: int): (q: Point)
      ensures q.row - row == x && q.column - column == y
    {
      Point(row + x, column + y)
    }
  }

  /** The 81 cell values in row-major order; 0 is an empty cell. */
  type Board = seq<int>

  predicate IsBoard(b: Board) { |b| == 81 }

  predicate InGrid(p: Point) { 0 <= p.row < 9 && 0 <= p.column < 9 }

  predicate AllInGrid(ps: seq<Point>) { forall j :: 0 <= j < |ps| ==> InGrid(ps[j]) }

  /** The row-major index of a position. */
  function Index(p: Point): (k: nat)
    requires InGrid(p)
    ensures k < 81
  {
    9 * p.row + p.column
  }

  /** The position of a row-major index. */
  function FromIndex(k: int): (p: Point)
    requires 0 <= k < 81
    ensures InGrid(p) && Index(p) == k
  {
    Point(k / 9, k % 9)
  }

  lemma IndexRoundTrip()
    ensures forall p :: InGrid(p) ==> FromIndex(Index(p)) == p
  {
  }

  lemma FromIndexOf(p: Point)
    requires InGrid(p)
    ensures FromIndex(Index(p)) == p
  {
  }

  function At(b: Board, p: Point): int
    requires IsBoard(b) && InGrid(p)
  {
    b[Index(p)]
  }

  /** The board with cell `p` set to `v`. */
  function Set(b: Board, p: Point, v: int): (b': Board)
    requires IsBoard(b) && InGrid(p)
    ensures IsBoard(b') && At(b', p) == v
    ensures forall q :: InGrid(q) && q != p ==> At(b', q) == At(b, q)
  {
    b[Index(p) := v]
  }

  /** Two boards that agree on every cell are equal. */
  lemma BoardExt(b1: Board, b2: Board)
    requires IsBoard(b1) && IsBoard(b2)
    requires forall q :: InGrid(q) ==> At(b1, q) == At(b2, q)
    ensures b1 == b2
  {
    forall k | 0 <= k < 81
      ensures b1[k] == b2[k]
    {
      assert At(b1, FromIndex(k)) == At(b2, FromIndex(k));
    }
  }

  /** Writing a value into an empty cell and deleting it again restores the board. */
  lemma PlaceThenDelete(b: Board, p: Point, v: int)
    requires IsBoard(b) && InGrid(p) && At(b, p) == 0
    ensures Set(Set(b, p, v), p, 0) == b
  {
    BoardExt(Set(Set(b, p, v), p, 0), b);
  }

  // ---------------------------------------------------------------------
  // Legality, as `legal_next` scans it

  /** `3 * floor(x / 3)`, the first row (or column) of the block holding `x`. */
  function BlockOrigin(x: int): int { 3 * (x / 3) }

  /** Cell (i, j) of the 3x3 block that holds `loc`. */
  function BlockCell(loc: Point, i: int, j: int): Point
  {
    Point(BlockOrigin(loc.row) + i, BlockOrigin(loc.column) + j)
  }

  /**
    `legal_next(v, loc)`: the cell is empty, `v` is not in its column nor in
    its row, and no other cell of its 3x3 block holds `v`.
  */
  predicate Legal(b: Board, v: int, loc: Point): (ok: bool)
    requires IsBoard(b) && InGrid(loc)
    ensures ok ==> v != 0
  {
    && At(b, loc) == 0
    && (forall i :: 0 <= i < 9 ==> At(b, Point(i, loc.column)) != v)
    && (forall j :: 0 <= j < 9 ==> At(b, Point(loc.row, j)) != v)
    && (forall i, j :: 0 <= i < 3 && 0 <= j < 3 && BlockCell(loc, i, j) != loc ==>
          At(b, BlockCell(loc, i, j)) != v)
  }

  // ---------------------------------------------------------------------
  // The Sudoku rule stated independently: peers and consistency

  /** Block number in column-major block order: 3 * floor(column / 3) + floor(row / 3). */
  function BlockIndex(p: Point): int { 3 * (p.column / 3) + p.row / 3 }

  /** Two distinct cells that share a row, a column or a block. */
  predicate Peer(p: Point, q: Point)
  {
    p != q && (p.row == q.row || p.column == q.column || BlockIndex(p) == BlockIndex(q))
  }

  /** No non-empty cell shares its value with one of its peers. */
  ghost predicate Consistent(b: Board)
    requires IsBoard(b)
  {
    forall p, q :: InGrid(p) && InGrid(q) && Peer(p, q) && At(b, p) != 0 ==> At(b, p) != At(b, q)
  }

  lemma SameBlock(p: Point, q: Point)
    requires InGrid(p) && InGrid(q)
    ensures BlockIndex(p) == BlockIndex(q) <==> p.row / 3 == q.row / 3 && p.column / 3 == q.column / 3
  {
  }

  /** Every peer of `loc` lies in its column, in its row, or in its block. */
  lemma PeerIsScanned(loc: Point, q: Point)
    requires InGrid(loc) && InGrid(q) && Peer(loc, q)
    ensures || q == Point(q.row, loc.column)
            || q == Point(loc.row, q.column)
            || (var i, j := q.row - BlockOrigin(loc.row), q.column - BlockOrigin(loc.column);
                0 <= i < 3 && 0 <= j < 3 && q == BlockCell(loc, i, j))
  {
    SameBlock(loc, q);
  }

  /** Every other cell of the block of `loc` is a peer of `loc`. */
  lemma BlockCellIsPeer(loc: Point, i: int, j: int)
    requires InGrid(loc) && 0 <= i < 3 && 0 <= j < 3 && BlockCell(loc, i, j) != loc
    ensures InGrid(BlockCell(loc, i, j)) && Peer(loc, BlockCell(loc, i, j))
  {
    SameBlock(loc, BlockCell(loc, i, j));
  }

  /** A value the scan allows is held by no peer. */
  lemma LegalExcludesPeers(b: Board, v: int, loc: Point)
    requires IsBoard(b) && InGrid(loc) && Legal(b, v, loc)
    ensures v != 0 && forall q :: InGrid(q) && Peer(loc, q) ==> At(b, q) != v
  {
    assert At(b, Point(loc.row, loc.column)) != v;
    forall q | InGrid(q) && Peer(loc, q)
      ensures At(b, q) != v
    {
      PeerIsScanned(loc, q);
    }
  }

  /** A non-zero value held by no peer of an empty cell passes the scan. */
  lemma NoPeerIsLegal(b: Board, v: int, loc: Point)
    requires IsBoard(b) && InGrid(loc) && At(b, loc) == 0 && v != 0
    requires forall q :: InGrid(q) && Peer(loc, q) ==> At(b, q) != v
    ensures Legal(b, v, loc)
  {
    forall i, j | 0 <= i < 3 && 0 <= j < 3 && BlockCell(loc, i, j) != loc
      ensures At(b, BlockCell(loc, i, j)) != v
    {
      BlockCellIsPeer(loc, i, j);
    }
    forall i | 0 <= i < 9
      ensures At(b, Point(i, loc.column)) != v
    {
      if i != loc.row {
        assert Peer(loc, Point(i, loc.column));
      }
    }
    forall j | 0 <= j < 9
      ensures At(b, Point(loc.row, j)) != v
    {
      if j != loc.column {
        assert Peer(loc, Point(loc.row, j));
      }
    }
  }

  /**
    The scan of `legal_next` decides exactly the Sudoku rule: `v` may go into
    `loc` iff the cell is empty, `v` is not 0, and no peer of `loc` holds `v`.
  */
  lemma LegalIffNoPeer(b: Board, v: int, loc: Point)
    requires IsBoard(b) && InGrid(loc)
    ensures Legal(b, v, loc) <==>
      At(b, loc) == 0 && v != 0 && forall q :: InGrid(q) && Peer(loc, q) ==> At(b, q) != v
  {
    if Legal(b, v, loc) {
      LegalExcludesPeers(b, v, loc);
    }
    if At(b, loc) == 0 && v != 0 && forall q :: InGrid(q) && Peer(loc, q) ==> At(b, q) != v {
      NoPeerIsLegal(b, v, loc);
    }
  }

  /** Placing a value that `legal_next` allows keeps a consistent board consistent. */
  lemma LegalPlacementKeepsConsistent(b: Board, v: int, loc: Point)
    requires IsBoard(b) && InGrid(loc) && Consistent(b) && Legal(b, v, loc)
    ensures Consistent(Set(b, loc, v))
  {
    LegalIffNoPeer(b, v, loc);
    var b' := Set(b, loc, v);
    forall p, q | InGrid(p) && InGrid(q) && Peer(p, q) && At(b', p) != 0
      ensures At(b', p) != At(b', q)
    {
      if p == loc {
        assert At(b, q) != v;
      } else if q == loc {
        assert Peer(loc, p);
      }
    }
  }

  // ---------------------------------------------------------------------
  // The empty cells in row-major order

  /**
    The empty cells among the first `k` row-major positions, in row-major
    order: exactly those, each once.
  */
  function FreePrefix(b: Board, k: nat): (fs: seq<Point>)
    requires IsBoard(b) && k <= 81
    ensures forall j :: 0 <= j < |fs| ==> InGrid(fs[j]) && Index(fs[j]) < k && At(b, fs[j]) == 0
    ensures forall i, j :: 0 <= i < j < |fs| ==> Index(fs[i]) < Index(fs[j])
  {
    if k == 0 then []
    else
      IndexRoundTrip();
      FreePrefix(b, k - 1) + (if b[k - 1] == 0 then [FromIndex(k - 1)] else [])
  }

  /** The enumeration up to and including `p` extends the one before `p` by `p` when it is empty. */
  lemma FreePrefixNext(b: Board, p: Point)
    requires IsBoard(b) && InGrid(p)
    ensures FreePrefix(b, Index(p) + 1) == FreePrefix(b, Index(p)) + (if At(b, p) == 0 then [p] else [])
  {
    IndexRoundTrip();
  }

  /** Every empty cell before `k` is listed. */
  lemma {:induction false} FreePrefixComplete(b: Board, k: nat, p: Point)
    requires IsBoard(b) && k <= 81 && InGrid(p) && Index(p) < k && At(b, p) == 0
    ensures p in FreePrefix(b, k)
  {
    if Index(p) < k - 1 {
      FreePrefixComplete(b, k - 1, p);
      assert FreePrefix(b, k - 1) <= FreePrefix(b, k);
    } else {
      FreePrefixNext(b, p);
    }
  }

  /** The empty cells of the whole board in row-major order. */
  function FreeCells(b: Board): (fs: seq<Point>)
    requires IsBoard(b)
    ensures forall j :: 0 <= j < |fs| ==> InGrid(fs[j]) && At(b, fs[j]) == 0
    ensures forall i, j :: 0 <= i < j < |fs| ==> Index(fs[i]) < Index(fs[j])
  {
    FreePrefix(b, |b|)
  }

  /** A cell is listed exactly when it is empty. */
  lemma FreeCellsExact(b: Board, p: Point)
    requires IsBoard(b) && InGrid(p)
    ensures p in FreeCells(b) <==> At(b, p) == 0
  {
    if At(b, p) == 0 {
      FreePrefixComplete(b, 81, p);
    }
  }

  function Empty(x: int): nat { if x == 0 then 1 else 0 }

  /** The number of empty cells among the first `k` row-major positions. */
  function EmptyBefore(b: Board, k: nat): nat
    requires IsBoard(b) && k <= 81
  {
    if k == 0 then 0 else EmptyBefore(b, k - 1) + Empty(b[k - 1])
  }

  /** The number of empty cells, which `cnt_free_cells` is meant to track. */
  function ZeroCount(b: Board): nat
    requires IsBoard(b)
  {
    EmptyBefore(b, |b|)
  }

  /** The enumeration lists as many cells as there are empty ones. */
  lemma {:induction false} FreePrefixLength(b: Board, k: nat)
    requires IsBoard(b) && k <= 81
    ensures |FreePrefix(b, k)| == EmptyBefore(b, k)
  {
    if k > 0 {
      FreePrefixLength(b, k - 1);
    }
  }

  lemma FreeCellsCount(b: Board)
    requires IsBoard(b)
    ensures |FreeCells(b)| == ZeroCount(b)
  {
    FreePrefixLength(b, 81);
  }

  /** Setting one cell changes the number of empty cells before `k` by that cell's change. */
  lemma {:induction false} EmptyBeforeSet(b: Board, p: Point, v: int, k: nat)
    requires IsBoard(b) && InGrid(p) && k <= 81
    ensures EmptyBefore(Set(b, p, v), k) ==
      EmptyBefore(b, k) + (if Index(p) < k then Empty(v) - Empty(At(b, p)) else 0)
  {
    if k > 0 {
      EmptyBeforeSet(b, p, v, k - 1);
    }
  }

  /** Writing `v` at `p` changes the empty-cell count by exactly the cell's change. */
  lemma ZeroCountSet(b: Board, p: Point, v: int)
    requires IsBoard(b) && InGrid(p)
    ensures ZeroCount(Set(b, p, v)) == ZeroCount(b) + Empty(v) - Empty(At(b, p))
  {
    EmptyBeforeSet(b, p, v, 81);
  }

  /** On a board whose cells before `k` are all empty, all `k` of them count. */
  lemma {:induction false} EmptyBeforeAllEmpty(b: Board, k: nat)
    requires IsBoard(b) && k <= 81
    requires forall m :: 0 <= m < 81 ==> b[m] == 0
    ensures EmptyBefore(b, k) == k
  {
    if k > 0 {
      EmptyBeforeAllEmpty(b, k - 1);
    }
  }
}
