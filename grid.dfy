/**
  Board geometry of the Minesweeper game: cell positions, the clipped 3x3
  neighbour window, and the flat cell index that mine placement draws from.
  Cells are identified by (row, column) pairs instead of "r_c" string ids.
 */
module Grid {

  datatype Pos = Pos(row: int, col: int)

  predicate InBounds(p: Pos, nrows: int, ncols: int) {
    0 <= p.row < nrows && 0 <= p.col < ncols
  }

  /** q is on the board and within one row and one column of p (p itself included). */
  predicate InWindow(p: Pos, q: Pos, nrows: int, ncols: int) {
    InBounds(q, nrows, ncols) && -1 <= q.row - p.row <= 1 && -1 <= q.col - p.col <= 1
  }

  predicate Distinct<T(==)>(s: seq<T>) {
    forall i, j :: 0 <= i < j < |s| ==> s[i] != s[j]
  }

  lemma HeadIsMember<T>(s: seq<T>)
    requires s != []
    ensures s[0] in s
  {
  }

  function Max(a: int, b: int): int { if a < b then b else a }

  function Min(a: int, b: int): int { if a < b then a else b }

  /** Every cell of an nrows x ncols board. */
  ghost function Cells(nrows: int, ncols: int): (s: set<Pos>)
    ensures forall q :: q in s <==> InBounds(q, nrows, ncols)
  {
    set r, c | 0 <= r < nrows && 0 <= c < ncols :: Pos(r, c)
  }

  /** The cells (row, lo), (row, lo + 1), ..., (row, hi), left to right. */
  function RowSpan(row: int, lo: int, hi: int): (s: seq<Pos>)
    ensures |s| == if lo <= hi then hi - lo + 1 else 0
    decreases hi - lo
  {
    if lo > hi then [] else RowSpan(row, lo, hi - 1) + [Pos(row, hi)]
  }

  /** The rectangle [rlo, rhi] x [clo, chi] in row-major order. */
  function Block(rlo: int, rhi: int, clo: int, chi: int): seq<Pos>
    decreases rhi - rlo
  {
    if rlo > rhi then [] else Block(rlo, rhi - 1, clo, chi) + RowSpan(rhi, clo, chi)
  }

  lemma {:induction false} RowSpanCells(row: int, lo: int, hi: int)
    ensures forall q :: q in RowSpan(row, lo, hi) <==> q.row == row && lo <= q.col <= hi
    ensures Distinct(RowSpan(row, lo, hi))
    decreases hi - lo
  {
    if lo <= hi {
      RowSpanCells(row, lo, hi - 1);
      var done := RowSpan(row, lo, hi - 1);
      assert RowSpan(row, lo, hi) == done + [Pos(row, hi)];
      assert forall i :: 0 <= i < |done| ==> done[i] in done;
    }
  }

  lemma {:induction false} BlockCells(rlo: int, rhi: int, clo: int, chi: int)
    ensures forall q :: q in Block(rlo, rhi, clo, chi) <==> rlo <= q.row <= rhi && clo <= q.col <= chi
    ensures Distinct(Block(rlo, rhi, clo, chi))
    ensures rlo <= rhi + 1 && chi - clo <= 2 ==> |Block(rlo, rhi, clo, chi)| <= 3 * (rhi - rlo + 1)
    decreases rhi - rlo
  {
    if rlo <= rhi {
      BlockCells(rlo, rhi - 1, clo, chi);
      RowSpanCells(rhi, clo, chi);
      var done, last := Block(rlo, rhi - 1, clo, chi), RowSpan(rhi, clo, chi);
      assert Block(rlo, rhi, clo, chi) == done + last;
      assert forall i :: 0 <= i < |done| ==> done[i] in done;
      assert forall j :: 0 <= j < |last| ==> last[j] in last;
      assert forall i, j :: 0 <= i < |done| <= j < |done| + |last| ==>
        (done + last)[i].row < rhi == (done + last)[j].row;
    }
  }

  /**
    The neighbour list of getNeighbors: the 3x3 window around p clipped to
    the board, row by row. The window contains p itself, so an interior cell
    has nine entries, not eight.
   */
  function Neighbors(p: Pos, nrows: int, ncols: int): (ns: seq<Pos>)
    ensures |ns| <= 9
  {
    BlockCells(Max(p.row - 1, 0), Min(p.row + 1, nrows - 1), Max(p.col - 1, 0), Min(p.col + 1, ncols - 1));
    Block(Max(p.row - 1, 0), Min(p.row + 1, nrows - 1), Max(p.col - 1, 0), Min(p.col + 1, ncols - 1))
  }

  /** The neighbour list holds exactly the window's cells, each once, p among them. */
  lemma NeighborsAreWindow(p: Pos, nrows: int, ncols: int)
    ensures forall q :: q in Neighbors(p, nrows, ncols) <==> InWindow(p, q, nrows, ncols)
    ensures InBounds(p, nrows, ncols) ==> p in Neighbors(p, nrows, ncols)
    ensures Distinct(Neighbors(p, nrows, ncols))
  {
    BlockCells(Max(p.row - 1, 0), Min(p.row + 1, nrows - 1), Max(p.col - 1, 0), Min(p.col + 1, ncols - 1));
  }

  /** getNeighbors: the outer loop over the window's rows. */
  method GetNeighbors(p: Pos, nrows: int, ncols: int) returns (ns: seq<Pos>)
    ensures ns == Neighbors(p, nrows, ncols)
  {
    var rlo, rhi := Max(p.row - 1, 0), Min(p.row + 1, nrows - 1);
    var clo, chi := Max(p.col - 1, 0), Min(p.col + 1, ncols - 1);
    ns := [];
    var row := rlo;
    while row <= rhi
      invariant rlo <= row && (row <= rhi + 1 || row == rlo)
      invariant ns == Block(rlo, row - 1, clo, chi)
    {
      ns := PushRow(ns, row, clo, chi);
      assert ns == Block(rlo, row, clo, chi);
      row := row + 1;
    }
  }

  /** getNeighbors: the inner loop, pushing the cells of one row of the window. */
  method PushRow(ns0: seq<Pos>, row: int, clo: int, chi: int) returns (ns: seq<Pos>)
    ensures ns == ns0 + RowSpan(row, clo, chi)
  {
    ns := ns0;
    var col := clo;
    while col <= chi
      invariant clo <= col && (col <= chi + 1 || col == clo)
      invariant ns == ns0 + RowSpan(row, clo, col - 1)
    {
      ns := ns + [Pos(row, col)];
      col := col + 1;
    }
  }

  function Abs(x: int): nat { if x < 0 then -x else x }

  /** Manhattan distance between two cells. */
  function Dist(p: Pos, q: Pos): nat {
    Abs(p.row - q.row) + Abs(p.col - q.col)
  }

  function Sign(x: int): int { if x < 0 then -1 else if x > 0 then 1 else 0 }

  /** One king's move from `from` toward `to`, along both axes at once. */
  function StepToward(from: Pos, to: Pos): Pos {
    Pos(from.row + Sign(to.row - from.row), from.col + Sign(to.col - from.col))
  }

  /**
    A step from q toward p stays on the board, keeps q in its window, and
    comes strictly closer to p.
   */
  lemma StepTowardStaysOnBoard(q: Pos, p: Pos, nrows: int, ncols: int)
    requires InBounds(p, nrows, ncols) && InBounds(q, nrows, ncols) && q != p
    ensures InBounds(StepToward(q, p), nrows, ncols)
    ensures InWindow(StepToward(q, p), q, nrows, ncols)
    ensures Dist(p, StepToward(q, p)) < Dist(p, q)
  {
  }

  /** Flat index of a cell, row-major: the encoding mine placement draws from. */
  function Index(p: Pos, ncols: int): int {
    p.row * ncols + p.col
  }

  /** The cell a flat index stands for. */
  function Decode(i: int, ncols: int): Pos
    requires ncols > 0
  {
    Pos(i / ncols, i % ncols)
  }

  lemma MulMonotone(a: int, b: int, k: int)
    requires a <= b && 0 <= k
    ensures a * k <= b * k
  {
  }

  /** Euclidean division is unique: q * n + m with 0 <= m < n has quotient q and remainder m. */
  lemma DivModUnique(i: int, n: int, q: int, m: int)
    requires n > 0 && 0 <= m < n && i == q * n + m
    ensures i / n == q && i % n == m
  {
    var q', m' := i / n, i % n;
    assert i == q' * n + m';
    assert (q' - q) * n == m - m';
    if q' > q {
      MulMonotone(1, q' - q, n);
      assert false;
    } else if q' < q {
      MulMonotone(1, q - q', n);
      assert false;
    }
  }

  lemma {:induction false} DecodeIndex(p: Pos, nrows: int, ncols: int)
    requires InBounds(p, nrows, ncols)
    ensures 0 <= Index(p, ncols) < nrows * ncols
    ensures Decode(Index(p, ncols), ncols) == p
  {
    MulMonotone(0, p.row, ncols);
    MulMonotone(p.row + 1, nrows, ncols);
    DivModUnique(Index(p, ncols), ncols, p.row, p.col);
  }

  lemma {:induction false} IndexDecode(i: int, nrows: int, ncols: int)
    requires 0 < ncols && 0 <= i < nrows * ncols
    ensures InBounds(Decode(i, ncols), nrows, ncols)
    ensures Index(Decode(i, ncols), ncols) == i
  {
  }

  /** The index encoding is a bijection between the cells and 0 .. nrows * ncols - 1. */
  lemma IndexRoundTrips(nrows: int, ncols: int)
    requires 0 < ncols
    ensures forall q :: InBounds(q, nrows, ncols) ==>
      0 <= Index(q, ncols) < nrows * ncols && Decode(Index(q, ncols), ncols) == q
    ensures forall i :: 0 <= i < nrows * ncols ==>
      InBounds(Decode(i, ncols), nrows, ncols) && Index(Decode(i, ncols), ncols) == i
  {
    forall q | InBounds(q, nrows, ncols)
      ensures 0 <= Index(q, ncols) < nrows * ncols && Decode(Index(q, ncols), ncols) == q
    {
      DecodeIndex(q, nrows, ncols);
    }
    forall i | 0 <= i < nrows * ncols
      ensures InBounds(Decode(i, ncols), nrows, ncols) && Index(Decode(i, ncols), ncols) == i
    {
      IndexDecode(i, nrows, ncols);
    }
  }

  /** The indices 0 .. n - 1. */
  ghost function Range(n: nat): (s: set<int>)
    ensures forall x :: x in s <==> 0 <= x < n
    ensures |s| == n
  {
    if n == 0 then {} else Range(n - 1) + {n - 1}
  }

  lemma SubsetSize(a: set<int>, b: set<int>)
    requires a <= b
    ensures |a| <= |b|
  {
    assert b == a + (b - a);
  }

  /** Pigeonhole: fewer than n indices taken leaves one of 0 .. n - 1 free. */
  lemma FreeIndexExists(n: nat, taken: set<int>)
    requires |taken| < n
    ensures exists m :: 0 <= m < n && m !in taken
  {
    var range := Range(n);
    if range <= taken {
      SubsetSize(range, taken);
      assert false;
    }
    assert exists m :: m in range && m !in taken;
  }

  // The placement code of the source encodes the protected cell as
  // (r + 1) * nrows + (c + 1) and decodes a drawn index as
  // (index / nrows, index % ncols). The three members below state what
  // those two formulas do; the model itself uses Index and Decode.

  function SourceProtectedIndex(first: Pos, nrows: int): int {
    (first.row + 1) * nrows + (first.col + 1)
  }

  function SourceDecode(i: int, nrows: int, ncols: int): Pos
    requires nrows > 0 && ncols > 0
  {
    Pos(i / nrows, i % ncols)
  }

  /**
    On every square board the protected index is not the clicked cell's
    index, while the clicked cell's index still decodes to the clicked cell:
    the first click is never protected and may be drawn as a mine.
   */
  lemma {:induction false} SourceProtectedIndexMissesClick(n: int, first: Pos)
    requires n > 0 && InBounds(first, n, n)
    ensures SourceProtectedIndex(first, n) != Index(first, n)
    ensures 0 <= Index(first, n) < n * n
    ensures SourceDecode(Index(first, n), n, n) == first
  {
    assert SourceProtectedIndex(first, n) == Index(first, n) + n + 1;
    DecodeIndex(first, n, n);
  }

  /**
    On a board with 2 rows and 3 columns the last drawable index (5) decodes
    to row 2, which does not exist; on a board with 3 rows and 2 columns the
    indices 3 and 5 decode to the same cell, so fewer mines than requested are
    laid.
   */
  lemma SourceDecodeOffBoard()
    ensures 0 <= 5 < 2 * 3 && !InBounds(SourceDecode(5, 2, 3), 2, 3)
    ensures SourceDecode(3, 3, 2) == SourceDecode(5, 3, 2) == Pos(1, 1)
  {
  }
}
