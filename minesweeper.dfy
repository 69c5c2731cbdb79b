/**
  The game-state engine of the Minesweeper game: validation of new-game
  parameters, deferred mine placement, adjacent-mine counts, the reveal
  cascade, win and loss detection, and flag toggling. What the source keeps
  in the class lists of the cell elements ("mine", "opened", "flagged") is
  kept here in three boolean grids, and the two globals isGameOver and
  moveCount become the phase and the move counter of a Game object.
 */
module Minesweeper {
  import opened Grid

  datatype Option<T> = None | Some(value: T)

  /** The two messages checkInputs can show. */
  datatype InputError = NonPositiveDimension | TooManyMines

  /** checkInputs: None when a game may start, otherwise the first check that failed. */
  function CheckInputs(nrows: int, ncols: int, nmines: int): (err: Option<InputError>)
    ensures err == None <==> 1 <= nrows && 1 <= ncols && nmines < nrows * ncols
    ensures err == Some(NonPositiveDimension) <==> nrows < 1 || ncols < 1
    ensures err == Some(TooManyMines) <==> 1 <= nrows && 1 <= ncols && nmines >= nrows * ncols
  {
    if nrows < 1 || ncols < 1 then Some(NonPositiveDimension)
    else if nmines >= nrows * ncols then Some(TooManyMines)
    else None
  }

  /**
    Ready: no move yet and no mines laid. Playing: mines laid, game open.
    Won and Lost are terminal.
   */
  datatype Phase = Ready | Playing | Won | Lost

  /** Flip the membership of p. */
  function Toggle(s: set<Pos>, p: Pos): (t: set<Pos>)
    ensures p in t <==> p !in s
    ensures forall q :: q != p ==> (q in t <==> q in s)
  {
    if p in s then s - {p} else s + {p}
  }

  lemma ToggleTwice(s: set<Pos>, p: Pos)
    ensures Toggle(Toggle(s, p), p) == s
  {
  }

  class Game {
    const nrows: nat
    const ncols: nat
    const nmines: nat
    const isMine: array2<bool>
    const isOpened: array2<bool>
    const isFlagged: array2<bool>
    var phase: Phase
    var moveCount: nat

    ghost predicate Shape() {
      && isMine.Length0 == nrows && isMine.Length1 == ncols
      && isOpened.Length0 == nrows && isOpened.Length1 == ncols
      && isFlagged.Length0 == nrows && isFlagged.Length1 == ncols
      && isMine != isOpened && isMine != isFlagged && isOpened != isFlagged
    }

    /** isGameOver of the source, extended to the won phase. */
    predicate IsOver()
      reads this
    {
      phase == Won || phase == Lost
    }

    ghost function MineCells(): set<Pos>
      reads isMine
      requires Shape()
    {
      set q | q in Cells(nrows, ncols) && isMine[q.row, q.col]
    }

    ghost function UnopenedCells(): set<Pos>
      reads isOpened
      requires Shape()
    {
      set q | q in Cells(nrows, ncols) && !isOpened[q.row, q.col]
    }

    ghost function OpenedCells(): set<Pos>
      reads isOpened
      requires Shape()
    {
      set q | q in Cells(nrows, ncols) && isOpened[q.row, q.col]
    }

    ghost function FlaggedCells(): set<Pos>
      reads isFlagged
      requires Shape()
    {
      set q | q in Cells(nrows, ncols) && isFlagged[q.row, q.col]
    }

    ghost predicate NoOpenedMine()
      reads isMine, isOpened
      requires Shape()
    {
      forall q :: InBounds(q, nrows, ncols) && isOpened[q.row, q.col] ==> !isMine[q.row, q.col]
    }

    /** No cell of p's window is a mine: p's adjacent-mine count is zero. */
    ghost predicate Blank(p: Pos)
      reads isMine
      requires Shape()
    {
      forall q :: InWindow(p, q, nrows, ncols) ==> !isMine[q.row, q.col]
    }

    /** The cascade has run to completion: every opened blank cell has its whole window opened. */
    ghost predicate Closed()
      reads isMine, isOpened
      requires Shape()
    {
      forall a, b :: InBounds(a, nrows, ncols) && isOpened[a.row, a.col] && Blank(a) && InWindow(a, b, nrows, ncols)
        ==> isOpened[b.row, b.col]
    }

    /** The documented win condition: every cell that is not a mine is opened. */
    ghost predicate AllSafeOpened()
      reads isMine, isOpened
      requires Shape()
    {
      forall q :: InBounds(q, nrows, ncols) && !isMine[q.row, q.col] ==> isOpened[q.row, q.col]
    }

    /** The win test as the gameWon loop is written: every cell opened, mines included. */
    ghost predicate AllCellsOpened()
      reads isOpened
      requires Shape()
    {
      forall q :: InBounds(q, nrows, ncols) ==> isOpened[q.row, q.col]
    }

    ghost predicate Valid()
      reads this, isMine, isOpened
    {
      && Shape()
      && nmines < nrows * ncols
      && (phase == Ready ==>
            moveCount == 0 && forall q :: InBounds(q, nrows, ncols) ==> !isMine[q.row, q.col] && !isOpened[q.row, q.col])
      && (phase != Ready ==> 1 <= moveCount && |MineCells()| == nmines)
      && (phase != Lost ==> NoOpenedMine() && Closed())
      && (phase == Won ==> AllSafeOpened())
      && (phase == Playing ==> !AllSafeOpened())
    }

    /** A fresh board (startGame once checkInputs has passed): nothing mined, opened or flagged. */
    constructor (nrows: nat, ncols: nat, nmines: nat)
      requires nmines < nrows * ncols
      ensures Valid() && phase == Ready
      ensures this.nrows == nrows && this.ncols == ncols && this.nmines == nmines
      ensures FlaggedCells() == {}
      ensures fresh(isMine) && fresh(isOpened) && fresh(isFlagged)
    {
      this.nrows, this.ncols, this.nmines := nrows, ncols, nmines;
      isMine := new bool[nrows, ncols]((r, c) => false);
      isOpened := new bool[nrows, ncols]((r, c) => false);
      isFlagged := new bool[nrows, ncols]((r, c) => false);
      phase, moveCount := Ready, 0;
    }

    /**
      randomlyAssignMines: draw distinct flat indices other than the first
      click's until nmines are chosen, then mark the cells they stand for.
      The random draw is a nondeterministic choice among the indices the
      source's rejection test would accept; rejected draws change nothing.
      The protected index is the clicked cell's own index and indices decode
      by the column count (see Grid.SourceProtectedIndex and Grid.SourceDecode
      for the formulas the source uses).
     */
    method RandomlyAssignMines(first: Pos)
      requires Shape() && InBounds(first, nrows, ncols) && nmines < nrows * ncols
      requires forall q :: InBounds(q, nrows, ncols) ==> !isMine[q.row, q.col]
      modifies isMine
      ensures |MineCells()| == nmines
      ensures !isMine[first.row, first.col]
    {
      var numCells := nrows * ncols;
      IndexRoundTrips(nrows, ncols);
      var firstIndex := Index(first, ncols);
      var mines: seq<int> := [];
      ghost var drawn: set<int> := {};
      ghost var cells: set<Pos> := {};
      while |mines| < nmines
        invariant |mines| <= nmines
        invariant forall i :: 0 <= i < |mines| ==> 0 <= mines[i] < numCells && mines[i] != firstIndex
        invariant forall x :: x in drawn <==> x in mines
        invariant |drawn| == |mines|
        invariant forall q :: q in cells <==> InBounds(q, nrows, ncols) && Index(q, ncols) in mines
        invariant |cells| == |mines|
        invariant forall q :: InBounds(q, nrows, ncols) ==> !isMine[q.row, q.col]
        decreases nmines - |mines|
      {
        FreeIndexExists(numCells, drawn + {firstIndex});
        var m :| 0 <= m < numCells && m !in mines && m != firstIndex;
        assert m !in drawn;
        assert Decode(m, ncols) !in cells;
        mines := mines + [m];
        drawn := drawn + {m};
        cells := cells + {Decode(m, ncols)};
      }
      MarkMines(mines);
      assert firstIndex !in mines;
      assert MineCells() == cells;
    }

    /** The marking loop of randomlyAssignMines: the cell each drawn index stands for becomes a mine. */
    method MarkMines(mines: seq<int>)
      requires Shape() && forall i :: 0 <= i < |mines| ==> 0 <= mines[i] < nrows * ncols
      requires forall q :: InBounds(q, nrows, ncols) ==> !isMine[q.row, q.col]
      modifies isMine
      ensures forall q :: InBounds(q, nrows, ncols) ==> (isMine[q.row, q.col] <==> Index(q, ncols) in mines)
    {
      if mines != [] {
        assert 0 <= mines[0] < nrows * ncols;
        IndexRoundTrips(nrows, ncols);
      }
      for i := 0 to |mines|
        invariant forall q :: InBounds(q, nrows, ncols) ==>
          (isMine[q.row, q.col] <==> Index(q, ncols) in mines[..i])
      {
        var cell := Decode(mines[i], ncols);
        assert mines[..i + 1] == mines[..i] + [mines[i]];
        isMine[cell.row, cell.col] := true;
      }
      assert mines[..|mines|] == mines;
    }

    /** Neighbours of some cells that are mines and not opened, in the given order. */
    function UnopenedMinesAmong(ns: seq<Pos>): (ms: seq<Pos>)
      reads isMine, isOpened
      requires Shape() && forall q :: q in ns ==> InBounds(q, nrows, ncols)
      ensures |ms| <= |ns|
    {
      if ns == [] then []
      else
        var rest, q := UnopenedMinesAmong(ns[..|ns| - 1]), ns[|ns| - 1];
        assert q in ns && InBounds(q, nrows, ncols);
        if isMine[q.row, q.col] && !isOpened[q.row, q.col] then rest + [q] else rest
    }

    /** The given cells that are mines (mines in the window, opened or not: the count a player would expect). */
    function MinesAmong(ns: seq<Pos>): (ms: seq<Pos>)
      reads isMine
      requires Shape() && forall q :: q in ns ==> InBounds(q, nrows, ncols)
      ensures |ms| <= |ns|
    {
      if ns == [] then []
      else
        var rest, q := MinesAmong(ns[..|ns| - 1]), ns[|ns| - 1];
        assert q in ns && InBounds(q, nrows, ncols);
        if isMine[q.row, q.col] then rest + [q] else rest
    }

    lemma {:induction false} UnopenedMinesMembers(ns: seq<Pos>)
      requires Shape() && forall q :: q in ns ==> InBounds(q, nrows, ncols)
      ensures forall q :: q in UnopenedMinesAmong(ns) <==>
        q in ns && isMine[q.row, q.col] && !isOpened[q.row, q.col]
    {
      if ns != [] {
        var init := ns[..|ns| - 1];
        assert forall q :: q in init ==> q in ns;
        UnopenedMinesMembers(init);
        assert ns == init + [ns[|ns| - 1]];
      }
    }

    /**
      The source leaves opened mines out of the count. While no mine is
      opened (every phase but Lost) that makes no difference: the count is
      the number of neighbouring mines.
     */
    lemma {:induction false} CountIgnoresOpenedWhileNoMineOpen(ns: seq<Pos>)
      requires Shape() && forall q :: q in ns ==> InBounds(q, nrows, ncols)
      requires NoOpenedMine()
      ensures UnopenedMinesAmong(ns) == MinesAmong(ns)
    {
      if ns != [] {
        var init := ns[..|ns| - 1];
        assert forall q :: q in init ==> q in ns;
        CountIgnoresOpenedWhileNoMineOpen(init);
      }
    }

    /**
      calculateNeighborMineCounts: the neighbours of p (p itself included)
      that are mines and not opened.
     */
    method CalculateNeighborMineCounts(p: Pos) returns (nbrMines: seq<Pos>)
      requires Shape()
      ensures NeighborsInBounds(p) && nbrMines == UnopenedMinesAmong(Neighbors(p, nrows, ncols))
      ensures forall q :: q in nbrMines <==>
        InWindow(p, q, nrows, ncols) && isMine[q.row, q.col] && !isOpened[q.row, q.col]
      ensures |nbrMines| <= |Neighbors(p, nrows, ncols)| <= 9
    {
      var nbrs := GetNeighbors(p, nrows, ncols);
      WindowMines(p);
      nbrMines := [];
      for i := 0 to |nbrs|
        invariant forall q :: q in nbrs[..i] ==> q in nbrs
        invariant nbrMines == UnopenedMinesAmong(nbrs[..i])
      {
        var cell := nbrs[i];
        assert cell in nbrs;
        assert nbrs[..i + 1][..i] == nbrs[..i];
        if isMine[cell.row, cell.col] && !isOpened[cell.row, cell.col] {
          nbrMines := nbrMines + [cell];
        }
      }
      assert nbrs[..|nbrs|] == nbrs;
    }

    /** The unopened mines of p's neighbour list are exactly the unopened mines of p's window. */
    lemma WindowMines(p: Pos)
      requires Shape()
      ensures NeighborsInBounds(p)
      ensures forall q :: q in UnopenedMinesAmong(Neighbors(p, nrows, ncols)) <==>
        InWindow(p, q, nrows, ncols) && isMine[q.row, q.col] && !isOpened[q.row, q.col]
    {
      NeighborsAreWindow(p, nrows, ncols);
      UnopenedMinesMembers(Neighbors(p, nrows, ncols));
    }

    ghost predicate NeighborsInBounds(p: Pos) {
      forall q :: q in Neighbors(p, nrows, ncols) ==> InBounds(q, nrows, ncols)
    }

    /**
      displayNeighbors with the documented "if not already opened" guard:
      open p; if an unopened neighbour is a mine, stop; otherwise reveal every
      neighbour by the same rule. The timer-driven recursion of the source
      becomes a synchronous work list.
     */
    method DisplayNeighbors(p: Pos)
      requires Shape() && InBounds(p, nrows, ncols)
      requires !isMine[p.row, p.col] && !isOpened[p.row, p.col]
      requires NoOpenedMine() && Closed()
      modifies isOpened
      ensures NoOpenedMine() && Closed()
      ensures isOpened[p.row, p.col] && old(OpenedCells()) <= OpenedCells()
      ensures !Blank(p) ==> OpenedCells() == old(OpenedCells()) + {p}
      ensures forall q :: q in OpenedCells() - old(OpenedCells()) ==>
        Reached(p, q, OpenedCells() - old(OpenedCells()))
    {
      ghost var initial := OpenedCells();
      assert forall q :: q in initial ==> InBounds(q, nrows, ncols) && !isMine[q.row, q.col];
      assert forall a, b :: a in initial && Blank(a) && InWindow(a, b, nrows, ncols) ==> b in initial;
      isOpened[p.row, p.col] := true;
      assert Shows(initial + {p});
      var nbrMines := CalculateNeighborMineCounts(p);
      if |nbrMines| != 0 {
        assert nbrMines[0] in nbrMines;
        ShownCells(initial + {p});
        assert Reaches(p, p, OpenedCells() - initial, 0);
        return;
      }
      assert Blank(p);
      ghost var shown, why, rank := Cascade(p, initial);
      CascadeDone(p, initial, shown, why, rank);
    }

    /**
      The cascade from the blank cell p, just opened: a work list seeded with
      p's neighbour list, run until it is empty. `initial` is the set of cells
      opened before the reveal began.
     */
    method Cascade(p: Pos, ghost initial: set<Pos>)
      returns (ghost shown: set<Pos>, ghost why: map<Pos, Pos>, ghost rank: map<Pos, nat>)
      requires Shape() && InBounds(p, nrows, ncols) && Blank(p) && p !in initial && Shows(initial + {p})
      requires forall q :: q in initial ==> InBounds(q, nrows, ncols) && !isMine[q.row, q.col]
      requires forall a, b :: a in initial && Blank(a) && InWindow(a, b, nrows, ncols) ==> b in initial
      modifies isOpened
      ensures Shows(shown) && CascadeInv(p, initial, shown, [], [], why, rank)
    {
      var work := GetNeighbors(p, nrows, ncols);
      ghost var parent: seq<Pos> := Copies(p, |work|);
      shown, why, rank := initial + {p}, map[], map[p := 0];
      CascadeStart(p, initial);
      while work != []
        invariant Shows(shown) && CascadeInv(p, initial, shown, work, parent, why, rank)
        decreases |Cells(nrows, ncols) - shown|, |work|
      {
        work, shown, parent, why, rank := RevealNext(p, initial, work, shown, parent, why, rank);
      }
    }

    /** The bookkeeping holds when the cascade starts from p's neighbour list. */
    lemma CascadeStart(p: Pos, initial: set<Pos>)
      requires Shape() && InBounds(p, nrows, ncols) && Blank(p) && p !in initial
      requires forall q :: q in initial ==> InBounds(q, nrows, ncols) && !isMine[q.row, q.col]
      requires forall a, b :: a in initial && Blank(a) && InWindow(a, b, nrows, ncols) ==> b in initial
      ensures CascadeInv(p, initial, initial + {p}, Neighbors(p, nrows, ncols), Copies(p, |Neighbors(p, nrows, ncols)|), map[],
        map[p := 0])
    {
      NeighborsAreWindow(p, nrows, ncols);
    }

    /** A set that matches the grid and lies on the board is the set of opened cells. */
    lemma ShownCells(shown: set<Pos>)
      requires Shape() && Shows(shown) && forall q :: q in shown ==> InBounds(q, nrows, ncols)
      ensures OpenedCells() == shown
    {
    }

    /**
      When the work list is empty the cascade is complete: the opened cells
      are `shown`, no mine is among them, every opened blank cell has its
      window opened, and every cell opened since `initial` is reached from p
      through blank cells opened since then.
     */
    lemma CascadeDone(p: Pos, initial: set<Pos>, shown: set<Pos>, why: map<Pos, Pos>, rank: map<Pos, nat>)
      requires Shape() && Shows(shown) && CascadeInv(p, initial, shown, [], [], why, rank)
      ensures OpenedCells() == shown && NoOpenedMine() && Closed()
      ensures forall q :: q in shown - initial ==> Reached(p, q, shown - initial)
    {
      ShownCells(shown);
      forall q | q in shown - initial
        ensures Reached(p, q, shown - initial)
      {
        RankReaches(p, initial, shown, why, rank, q);
      }
    }

    /**
      q is reached from p within k steps of the cascade inside `region`: q is
      p, or q lies in the window of a blank cell of `region` reached from p
      within k - 1 steps.
     */
    ghost predicate Reaches(p: Pos, q: Pos, region: set<Pos>, k: nat)
      reads isMine
      requires Shape()
      decreases k
    {
      q == p || (k > 0 && exists s :: s in region && Blank(s) && InWindow(s, q, nrows, ncols) && Reaches(p, s, region, k - 1))
    }

    /** q is reached from p in some number of cascade steps inside `region`. */
    ghost predicate Reached(p: Pos, q: Pos, region: set<Pos>)
      reads isMine
      requires Shape()
    {
      exists k: nat :: Reaches(p, q, region, k)
    }

    /**
      On a 1x5 board whose only mine is in column 2, no cell beyond the mine
      is reached from column 0, whatever cells of the board the region
      holds: the only blank cell next to column 3 is column 4, and it is
      reached only from itself or from column 3.
     */
    lemma {:induction false} NoReachPastMine(region: set<Pos>, k: nat)
      requires Shape() && nrows == 1 && ncols == 5
      requires forall q :: InBounds(q, nrows, ncols) ==> (isMine[q.row, q.col] <==> q == Pos(0, 2))
      requires Pos(0, 2) !in region && forall q :: q in region ==> InBounds(q, nrows, ncols)
      ensures !Reaches(Pos(0, 0), Pos(0, 3), region, k) && !Reaches(Pos(0, 0), Pos(0, 4), region, k)
    {
      assert InWindow(Pos(0, 3), Pos(0, 2), nrows, ncols) && isMine[0, 2];
      if k > 0 {
        NoReachPastMine(region, k - 1);
        forall s | s in region && (InWindow(s, Pos(0, 3), nrows, ncols) || InWindow(s, Pos(0, 4), nrows, ncols))
          ensures s == Pos(0, 3) || s == Pos(0, 4)
        {
        }
      }
    }

    /** Following `why` down the ranks leads from any cell the cascade opened back to p. */
    lemma {:induction false} RankReaches(p: Pos, initial: set<Pos>, shown: set<Pos>, why: map<Pos, Pos>, rank: map<Pos, nat>,
                                         q: Pos)
      requires Shape() && Explained(p, initial, shown, why, rank) && q in shown - initial
      ensures Reached(p, q, shown - initial)
      decreases rank[q]
    {
      if q == p {
        assert Reaches(p, q, shown - initial, 0);
      } else {
        var s := why[q];
        RankReaches(p, initial, shown, why, rank, s);
        var k: nat :| Reaches(p, s, shown - initial, k);
        assert Reaches(p, q, shown - initial, k + 1);
      }
    }

    /** The opened cells are exactly `shown`. */
    ghost predicate Shows(shown: set<Pos>)
      reads isOpened
      requires Shape()
    {
      forall q :: InBounds(q, nrows, ncols) ==> (isOpened[q.row, q.col] <==> q in shown)
    }

    /** Open one closed cell of the board. */
    method OpenCell(cell: Pos, ghost shown: set<Pos>)
      requires Shape() && InBounds(cell, nrows, ncols) && Shows(shown) && cell !in shown
      modifies isOpened
      ensures Shows(shown + {cell})
      ensures |Cells(nrows, ncols) - (shown + {cell})| < |Cells(nrows, ncols) - shown|
    {
      ghost var after, before := Cells(nrows, ncols) - (shown + {cell}), Cells(nrows, ncols) - shown;
      assert before == after + {cell} && cell !in after;
      isOpened[cell.row, cell.col] := true;
      forall q | InBounds(q, nrows, ncols)
        ensures isOpened[q.row, q.col] <==> q in shown + {cell}
      {
        assert q != cell ==> isOpened[q.row, q.col] == old(isOpened[q.row, q.col]);
      }
    }

    /**
      One turn of the cascade loop: take the next scheduled cell; if it is
      still closed, open it and, when it is blank, schedule its neighbours.
     */
    method RevealNext(ghost p: Pos, ghost initial: set<Pos>, work: seq<Pos>, ghost shown: set<Pos>, ghost parent: seq<Pos>,
                      ghost why: map<Pos, Pos>, ghost rank: map<Pos, nat>)
      returns (work': seq<Pos>, ghost shown': set<Pos>, ghost parent': seq<Pos>, ghost why': map<Pos, Pos>,
               ghost rank': map<Pos, nat>)
      requires Shape() && work != [] && Shows(shown) && CascadeInv(p, initial, shown, work, parent, why, rank)
      modifies isOpened
      ensures Shows(shown') && CascadeInv(p, initial, shown', work', parent', why', rank')
      ensures |Cells(nrows, ncols) - shown'| < |Cells(nrows, ncols) - shown| || (shown' == shown && |work'| < |work|)
    {
      var cell := work[0];
      CascadeHead(p, initial, shown, work, parent, why, rank);
      if !isOpened[cell.row, cell.col] {
        OpenCell(cell, shown);
        var blank := CountIsZero(cell);
        var more := [];
        if blank {
          more := GetNeighbors(cell, nrows, ncols);
        }
        CascadeOpen(p, initial, shown, work, parent, why, rank, more);
        shown', why', rank' := shown + {cell}, why[cell := parent[0]], rank[cell := rank[parent[0]] + 1];
        work', parent' := work[1..] + more, parent[1..] + Copies(cell, |more|);
      } else {
        CascadeSkip(p, initial, shown, work, parent, why, rank);
        work', shown', parent', why', rank' := work[1..], shown, parent[1..], why, rank;
      }
    }

    /**
      The count test of displayNeighbors: true when the cell has no unopened
      neighbouring mine. While no mine of the window is opened that is
      exactly when the cell is blank.
     */
    method CountIsZero(cell: Pos) returns (blank: bool)
      requires Shape()
      requires forall q :: InWindow(cell, q, nrows, ncols) && isOpened[q.row, q.col] ==> !isMine[q.row, q.col]
      ensures blank <==> Blank(cell)
    {
      var cellMines := CalculateNeighborMineCounts(cell);
      blank := |cellMines| == 0;
      if !blank {
        assert cellMines[0] in cellMines;
      }
    }

    /** n copies of x. */
    ghost function Copies(x: Pos, n: nat): (s: seq<Pos>)
      ensures |s| == n && forall i :: 0 <= i < n ==> s[i] == x
    {
      seq(n, _ => x)
    }

    /**
      The cascade's bookkeeping, on values only: `shown` is the set of opened
      cells, `initial` those opened before the cascade, `parent[i]` the blank
      cell that scheduled `work[i]`, `why[q]` the cell that scheduled q, and
      `rank[q]` the number of scheduling steps from p to q.
     */
    ghost predicate CascadeInv(p: Pos, initial: set<Pos>, shown: set<Pos>, work: seq<Pos>, parent: seq<Pos>, why: map<Pos, Pos>,
                               rank: map<Pos, nat>)
      reads isMine
      requires Shape()
    {
      && SafeShown(shown)
      && initial <= shown && p in shown && p !in initial && Blank(p)
      && Scheduled(initial, shown, work, parent)
      && ClosedUpTo(shown, work)
      && Explained(p, initial, shown, why, rank)
    }

    /** Every opened cell is on the board and is not a mine. */
    ghost predicate SafeShown(shown: set<Pos>)
      reads isMine
      requires Shape()
    {
      forall q :: q in shown ==> InBounds(q, nrows, ncols) && !isMine[q.row, q.col]
    }

    /** Each scheduled cell lies in the window of a blank cell opened during the cascade. */
    ghost predicate Scheduled(initial: set<Pos>, shown: set<Pos>, work: seq<Pos>, parent: seq<Pos>)
      reads isMine
      requires Shape()
    {
      && |parent| == |work|
      && forall i :: 0 <= i < |work| ==>
           parent[i] in shown && parent[i] !in initial && Blank(parent[i]) && InWindow(parent[i], work[i], nrows, ncols)
    }

    /** Every opened blank cell has its window opened or still scheduled. */
    ghost predicate ClosedUpTo(shown: set<Pos>, work: seq<Pos>)
      reads isMine
      requires Shape()
    {
      forall a, b :: a in shown && Blank(a) && InWindow(a, b, nrows, ncols) ==> b in shown || b in work
    }

    /**
      Every cell the cascade opened, p aside, lies in the window of a blank
      cell it opened and of lower rank, so following `why` ends at p.
     */
    ghost predicate Explained(p: Pos, initial: set<Pos>, shown: set<Pos>, why: map<Pos, Pos>, rank: map<Pos, nat>)
      reads isMine
      requires Shape()
    {
      && (forall q :: q in shown && q !in initial ==> q in rank)
      && forall q :: q in shown && q !in initial && q != p ==>
           && q in why && why[q] in shown && why[q] !in initial && Blank(why[q]) && InWindow(why[q], q, nrows, ncols)
           && why[q] in rank && rank[why[q]] < rank[q]
    }

    /** The next scheduled cell is on the board and not a mine: it lies in a blank cell's window. */
    lemma CascadeHead(p: Pos, initial: set<Pos>, shown: set<Pos>, work: seq<Pos>, parent: seq<Pos>, why: map<Pos, Pos>,
                      rank: map<Pos, nat>)
      requires Shape() && CascadeInv(p, initial, shown, work, parent, why, rank) && work != []
      ensures InBounds(work[0], nrows, ncols) && !isMine[work[0].row, work[0].col]
    {
    }

    /** Skipping an opened cell keeps the bookkeeping. */
    lemma CascadeSkip(p: Pos, initial: set<Pos>, shown: set<Pos>, work: seq<Pos>, parent: seq<Pos>, why: map<Pos, Pos>,
                      rank: map<Pos, nat>)
      requires Shape() && CascadeInv(p, initial, shown, work, parent, why, rank) && work != [] && work[0] in shown
      ensures CascadeInv(p, initial, shown, work[1..], parent[1..], why, rank)
    {
    }

    /**
      Opening the next scheduled cell keeps the bookkeeping; a blank cell
      schedules its whole neighbour list, any other cell nothing.
     */
    lemma CascadeOpen(p: Pos, initial: set<Pos>, shown: set<Pos>, work: seq<Pos>, parent: seq<Pos>, why: map<Pos, Pos>,
                      rank: map<Pos, nat>, more: seq<Pos>)
      requires Shape() && CascadeInv(p, initial, shown, work, parent, why, rank) && work != [] && work[0] !in shown
      requires more == if Blank(work[0]) then Neighbors(work[0], nrows, ncols) else []
      ensures parent[0] in rank
      ensures CascadeInv(p, initial, shown + {work[0]}, work[1..] + more, parent[1..] + Copies(work[0], |more|),
        why[work[0] := parent[0]], rank[work[0] := rank[parent[0]] + 1])
    {
      var cell, from := work[0], parent[0];
      assert from in shown && from !in initial && Blank(from) && InWindow(from, cell, nrows, ncols);
      if Blank(cell) {
        NeighborsAreWindow(cell, nrows, ncols);
      }
      assert SafeShown(shown + {cell});
      ScheduledOpen(initial, shown, work, parent, more);
      ClosedUpToOpen(shown, work, more);
      ExplainedOpen(p, initial, shown, why, rank, cell, from);
    }

    /** Opening the next scheduled cell keeps every scheduled cell explained by a blank parent. */
    lemma ScheduledOpen(initial: set<Pos>, shown: set<Pos>, work: seq<Pos>, parent: seq<Pos>, more: seq<Pos>)
      requires Shape() && Scheduled(initial, shown, work, parent) && work != [] && work[0] !in initial
      requires more != [] ==> Blank(work[0]) && forall b :: b in more ==> InWindow(work[0], b, nrows, ncols)
      ensures Scheduled(initial, shown + {work[0]}, work[1..] + more, parent[1..] + Copies(work[0], |more|))
    {
      var cell := work[0];
      var work', parent' := work[1..] + more, parent[1..] + Copies(cell, |more|);
      var k := |work| - 1;
      forall i | k <= i < |work'|
        ensures parent'[i] == cell && InWindow(cell, work'[i], nrows, ncols)
      {
        assert work'[i] == more[i - k] && more[i - k] in more;
      }
      forall i | 0 <= i < k
        ensures parent'[i] == parent[i + 1] && work'[i] == work[i + 1]
      {
      }
    }

    /** Opening the next scheduled cell, and scheduling its window when it is blank, keeps the closure. */
    lemma ClosedUpToOpen(shown: set<Pos>, work: seq<Pos>, more: seq<Pos>)
      requires Shape() && ClosedUpTo(shown, work) && work != []
      requires Blank(work[0]) ==> forall b :: InWindow(work[0], b, nrows, ncols) ==> b in more
      ensures ClosedUpTo(shown + {work[0]}, work[1..] + more)
    {
      assert work == [work[0]] + work[1..];
    }

    /** Opening a cell scheduled by a blank cell of the cascade keeps every opened cell explained. */
    lemma ExplainedOpen(p: Pos, initial: set<Pos>, shown: set<Pos>, why: map<Pos, Pos>, rank: map<Pos, nat>, cell: Pos,
                        from: Pos)
      requires Shape() && Explained(p, initial, shown, why, rank) && p in shown && cell !in shown
      requires from in shown && from !in initial && Blank(from) && InWindow(from, cell, nrows, ncols)
      ensures from in rank
      ensures Explained(p, initial, shown + {cell}, why[cell := from], rank[cell := rank[from] + 1])
    {
    }

    /** gameWon with the documented condition: every cell that is not a mine is opened. */
    method GameWon() returns (won: bool)
      requires Shape()
      ensures won <==> AllSafeOpened()
    {
      var r := 0;
      while r < nrows
        invariant 0 <= r <= nrows
        invariant forall q :: InBounds(q, nrows, ncols) && q.row < r && !isMine[q.row, q.col] ==> isOpened[q.row, q.col]
      {
        var c := 0;
        while c < ncols
          invariant 0 <= c <= ncols
          invariant forall q ::
            (InBounds(q, nrows, ncols) && (q.row < r || (q.row == r && q.col < c)) && !isMine[q.row, q.col])
            ==> isOpened[q.row, q.col]
        {
          if !isOpened[r, c] && !isMine[r, c] {
            assert InBounds(Pos(r, c), nrows, ncols);
            return false;
          }
          c := c + 1;
        }
        r := r + 1;
      }
      return true;
    }

    /**
      checkGameOver, called once the move's cell has been revealed: a mine
      loses the game and is shown opened; otherwise the game is won when
      every non-mine cell is open. Unlike the source, the test runs after the
      reveal and a win ends the game.
     */
    method CheckGameOver(p: Pos)
      requires Shape() && InBounds(p, nrows, ncols) && phase == Playing
      requires !isMine[p.row, p.col] ==> isOpened[p.row, p.col]
      modifies this, isOpened
      ensures moveCount == old(moveCount)
      ensures isMine[p.row, p.col] ==>
        phase == Lost && isOpened[p.row, p.col] && OpenedCells() == old(OpenedCells()) + {p}
      ensures !isMine[p.row, p.col] ==> unchanged(isOpened) && phase == (if AllSafeOpened() then Won else Playing)
    {
      if isMine[p.row, p.col] {
        phase := Lost;
        isOpened[p.row, p.col] := true;
        assert OpenedCells() == old(OpenedCells()) + {p};
      } else {
        var won := GameWon();
        if won {
          phase := Won;
        }
      }
    }

    /**
      makeMove on cell p. A move on an opened cell or after the game is over
      is ignored. Otherwise the move is counted; the first move lays the
      mines with p protected; a safe cell is revealed (with its cascade) and
      the game-over test follows.
     */
    method MakeMove(p: Pos)
      requires Valid() && InBounds(p, nrows, ncols)
      modifies this, isMine, isOpened
      ensures Valid()
      ensures old(isOpened[p.row, p.col]) || old(IsOver()) ==>
        phase == old(phase) && moveCount == old(moveCount) && unchanged(isMine) && unchanged(isOpened)
      ensures !old(isOpened[p.row, p.col]) && !old(IsOver()) ==>
        && moveCount == old(moveCount) + 1
        && isOpened[p.row, p.col]
        && old(OpenedCells()) <= OpenedCells()
        && (phase == Lost <==> isMine[p.row, p.col])
        && (phase == Won <==> !isMine[p.row, p.col] && AllSafeOpened())
      ensures !old(isOpened[p.row, p.col]) && !old(IsOver()) && !isMine[p.row, p.col] ==>
        && (!Blank(p) ==> OpenedCells() == old(OpenedCells()) + {p})
        && forall q :: q in OpenedCells() - old(OpenedCells()) ==>
             Reached(p, q, OpenedCells() - old(OpenedCells()))
      ensures old(phase) == Ready ==> !isMine[p.row, p.col] && |MineCells()| == nmines
      ensures old(phase) != Ready ==> unchanged(isMine)
      ensures old(phase) == Ready && nmines == 0 ==> phase == Won
      ensures phase == Lost && old(phase) != Lost ==> OpenedCells() == old(OpenedCells()) + {p}
    {
      if !isOpened[p.row, p.col] && !IsOver() {
        moveCount := moveCount + 1;
        if phase == Ready {
          RandomlyAssignMines(p);
          phase := Playing;
        }
        if !isMine[p.row, p.col] {
          DisplayNeighbors(p);
        }
        if nmines == 0 {
          NoMineCellsMeansNoMines();
          MineFreeBoardCleared(p);
        }
        CheckGameOver(p);
      }
    }

    /** A board whose mine count is zero has no mine anywhere. */
    lemma NoMineCellsMeansNoMines()
      requires Shape() && |MineCells()| == 0
      ensures forall q :: InBounds(q, nrows, ncols) ==> !isMine[q.row, q.col]
    {
      forall q | InBounds(q, nrows, ncols)
        ensures !isMine[q.row, q.col]
      {
        assert q !in MineCells();
      }
    }

    /**
      On a board without mines, once the cascade has closed, every cell is
      reachable from an opened one through blank windows: it is opened too.
     */
    lemma {:induction false} MineFreeReach(p: Pos, q: Pos)
      requires Shape() && InBounds(p, nrows, ncols) && InBounds(q, nrows, ncols)
      requires isOpened[p.row, p.col] && Closed()
      requires forall r :: InBounds(r, nrows, ncols) ==> !isMine[r.row, r.col]
      ensures isOpened[q.row, q.col]
      decreases Dist(p, q)
    {
      if q != p {
        var s := StepToward(q, p);
        StepTowardStaysOnBoard(q, p, nrows, ncols);
        MineFreeReach(p, s);
        assert Blank(s);
      }
    }

    /** A single reveal clears a board without mines: the first move wins. */
    lemma MineFreeBoardCleared(p: Pos)
      requires Shape() && InBounds(p, nrows, ncols)
      requires isOpened[p.row, p.col] && Closed()
      requires forall r :: InBounds(r, nrows, ncols) ==> !isMine[r.row, r.col]
      ensures AllSafeOpened() && AllCellsOpened()
    {
      forall q | InBounds(q, nrows, ncols)
        ensures isOpened[q.row, q.col]
      {
        MineFreeReach(p, q);
      }
    }

    /**
      The source tests for a win before the clicked cell is opened, so the
      test sees that cell closed and fails on every accepted move.
     */
    lemma SourceWinTestBeforeReveal(p: Pos)
      requires Shape() && InBounds(p, nrows, ncols) && !isOpened[p.row, p.col]
      ensures !AllCellsOpened()
    {
    }

    /**
      Even after the reveal, the every-cell test fails in any game that has
      mines and is not lost, because no mine is opened; the documented
      every-safe-cell test is what a won game satisfies.
     */
    lemma SourceWinTestNeedsOpenedMine()
      requires Valid() && phase != Ready && phase != Lost && nmines > 0
      ensures !AllCellsOpened()
      ensures phase == Won ==> AllSafeOpened()
    {
    }

    /**
      Without the "already opened" guard, a blank cell never stops the
      cascade: its own neighbour list contains it, and its count stays zero
      after it is opened, so each visit schedules it again.
     */
    lemma SourceCascadeReschedulesItself(p: Pos)
      requires Shape() && InBounds(p, nrows, ncols) && Blank(p)
      ensures NeighborsInBounds(p)
      ensures p in Neighbors(p, nrows, ncols)
      ensures UnopenedMinesAmong(Neighbors(p, nrows, ncols)) == []
    {
      NeighborsAreWindow(p, nrows, ncols);
      var ns := Neighbors(p, nrows, ncols);
      UnopenedMinesMembers(ns);
      var ms := UnopenedMinesAmong(ns);
      if ms != [] {
        HeadIsMember(ms);
        assert false;
      }
    }

    /**
      flagCell: toggle p's flag unless the game is over or p is opened.
      Flags do not affect reveals.
     */
    method FlagCell(p: Pos)
      requires Shape() && InBounds(p, nrows, ncols)
      modifies isFlagged
      ensures FlaggedCells() ==
        if !IsOver() && !isOpened[p.row, p.col] then Toggle(old(FlaggedCells()), p) else old(FlaggedCells())
    {
      if !IsOver() && !isOpened[p.row, p.col] {
        ghost var before := FlaggedCells();
        isFlagged[p.row, p.col] := !isFlagged[p.row, p.col];
        assert FlaggedCells() == Toggle(before, p);
      }
    }
  }

  datatype StartOutcome = Started(game: Game) | Rejected(error: InputError)

  /**
    startGame: a fresh board when checkInputs passes, otherwise the failed
    check. A negative mine count lays no mines (the placement loop of the
    source never runs), so it is stored as zero.
   */
  method StartGame(nrows: int, ncols: int, nmines: int) returns (outcome: StartOutcome)
    ensures outcome.Rejected? <==> CheckInputs(nrows, ncols, nmines) != None
    ensures outcome.Rejected? ==> CheckInputs(nrows, ncols, nmines) == Some(outcome.error)
    ensures outcome.Started? ==>
      && fresh(outcome.game) && fresh(outcome.game.isMine) && fresh(outcome.game.isOpened) && fresh(outcome.game.isFlagged)
      && outcome.game.Valid() && outcome.game.phase == Ready
      && outcome.game.nrows == nrows && outcome.game.ncols == ncols
      && outcome.game.nmines == Max(nmines, 0)
      && outcome.game.FlaggedCells() == {}
  {
    var err := CheckInputs(nrows, ncols, nmines);
    if err.Some? {
      return Rejected(err.value);
    }
    var game := new Game(nrows, ncols, Max(nmines, 0));
    return Started(game);
  }
}
