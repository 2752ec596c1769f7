/** Move generation: the candidate cells the engine considers
    (`getChildren` and `get_all_neigh_possible_moves`). */
module MoveGen {
  import opened Boards

  /** q is one of the eight cells around p. */
  predicate KingStep(p: Coord, q: Coord) {
    q != p && -1 <= q.row - p.row <= 1 && -1 <= q.col - p.col <= 1
  }

  /** q is the cell one step along or one step against the a-th positive direction. */
  predicate OnAxisNext(p: Coord, q: Coord, a: int)
    requires 0 <= a < 4
  {
    q == Forward(p, Dir(a)) || q == Backward(p, Dir(a))
  }

  /** q is one step along or against one of the axes a .. 3 from p. */
  predicate AxisStepFrom(p: Coord, q: Coord, a: nat)
    decreases 4 - a
  {
    a < 4 && (OnAxisNext(p, q, a) || AxisStepFrom(p, q, a + 1))
  }

  /** The empty cells among the one step along d from p and the one step
      against it, in that order. */
  function AxisNeighbours(b: Board, p: Coord, d: Coord): seq<Coord>
    requires IsBoard(b)
  {
    (if Free(b, Forward(p, d)) then [Forward(p, d)] else [])
      + (if Free(b, Backward(p, d)) then [Backward(p, d)] else [])
  }

  /** The empty neighbours of p, for the axes a .. 3, axis by axis. */
  function NeighboursFrom(b: Board, p: Coord, a: nat): (r: seq<Coord>)
    requires IsBoard(b) && a <= 4
    ensures |r| <= 2 * (4 - a)
    decreases 4 - a, 1, |b|
  {
    if a == 4 then [] else NeighboursAt(b, p, a)
  }

  /** The empty neighbours of p on axis a, followed by those on the axes
      a + 1 .. 3. */
  function NeighboursAt(b: Board, p: Coord, a: nat): (r: seq<Coord>)
    requires IsBoard(b) && a < 4
    ensures |r| <= 2 * (4 - a)
    decreases 4 - a, 0, |b|
  {
    AxisNeighbours(b, p, Dir(a)) + NeighboursFrom(b, p, a + 1)
  }

  lemma {:induction false} NeighboursFromExact(b: Board, p: Coord, a: nat)
    requires IsBoard(b) && a <= 4
    ensures forall q :: q in NeighboursFrom(b, p, a) <==> Free(b, q) && AxisStepFrom(p, q, a)
    decreases 4 - a
  {
    if a < 4 {
      NeighboursFromExact(b, p, a + 1);
      assert NeighboursFrom(b, p, a) == NeighboursAt(b, p, a);
    }
  }

  /** The eight king steps are the two steps along each of the four axes. */
  lemma KingStepIsAxisStep(p: Coord, q: Coord)
    ensures KingStep(p, q) <==> AxisStepFrom(p, q, 0)
  {
    assert AxisStepFrom(p, q, 0) <==> OnAxisNext(p, q, 0) || OnAxisNext(p, q, 1) || OnAxisNext(p, q, 2) || OnAxisNext(p, q, 3) by {
      assert !AxisStepFrom(p, q, 4);
    }
  }

  /** The source's `get_all_neigh_possible_moves(p)`: the empty cells around p,
      axis by axis. */
  function NeighbourMoves(b: Board, p: Coord): (r: seq<Coord>)
    requires IsBoard(b)
    ensures |r| <= 8
  {
    NeighboursFrom(b, p, 0)
  }

  /** `get_all_neigh_possible_moves(p)` lists exactly the empty cells on the
      board one king step away from p. */
  lemma NeighbourMovesExact(b: Board, p: Coord)
    requires IsBoard(b)
    ensures forall q :: q in NeighbourMoves(b, p) <==> Free(b, q) && KingStep(p, q)
  {
    NeighboursFromExact(b, p, 0);
    forall q ensures KingStep(p, q) <==> AxisStepFrom(p, q, 0) {
      KingStepIsAxisStep(p, q);
    }
  }

  /** NeighbourMovesExact for the one cell q. */
  lemma NeighbourMovesHas(b: Board, p: Coord, q: Coord)
    requires IsBoard(b)
    ensures q in NeighbourMoves(b, p) <==> Free(b, q) && KingStep(p, q)
  {
    NeighbourMovesExact(b, p);
  }

  /** The cells with index 0 .. n - 1 that the source's `board < 0` selects,
      in row-major order (numpy's `where`). */
  function EmptyUpTo(b: Board, n: nat): (r: seq<Coord>)
    requires IsBoard(b) && n <= CellCount
    ensures |r| <= n
    decreases n, |b|
  {
    if n == 0 then []
    else EmptyUpTo(b, n - 1) + (if b[n - 1] < 0 then [CoordOf(n - 1)] else [])
  }

  /** EmptyUpTo(b, n) lists exactly the negative cells below index n, in
      increasing index order. */
  lemma EmptyUpToExact(b: Board, n: nat)
    requires IsBoard(b) && n <= CellCount
    ensures forall q :: q in EmptyUpTo(b, n) <==> InBounds(q) && Idx(q) < n && b[Idx(q)] < 0
    ensures forall k :: 0 <= k < |EmptyUpTo(b, n)| ==> InBounds(EmptyUpTo(b, n)[k]) && Idx(EmptyUpTo(b, n)[k]) < n
    ensures forall k, l :: 0 <= k < l < |EmptyUpTo(b, n)| ==> Idx(EmptyUpTo(b, n)[k]) < Idx(EmptyUpTo(b, n)[l])
  {
    EmptyUpToMembers(b, n);
    EmptyUpToIncreasing(b, n);
  }

  /** The cells EmptyUpTo(b, n) lists are the negative ones below index n. */
  lemma {:induction false} EmptyUpToMembers(b: Board, n: nat)
    requires IsBoard(b) && n <= CellCount
    ensures forall q :: q in EmptyUpTo(b, n) <==> InBounds(q) && Idx(q) < n && b[Idx(q)] < 0
  {
    if n > 0 {
      EmptyUpToMembers(b, n - 1);
      forall q | InBounds(q) && Idx(q) == n - 1 ensures q == CoordOf(n - 1) {
        IdxInjective(q, CoordOf(n - 1));
      }
      if b[n - 1] < 0 {
        assert EmptyUpTo(b, n) == EmptyUpTo(b, n - 1) + [CoordOf(n - 1)];
      } else {
        assert EmptyUpTo(b, n) == EmptyUpTo(b, n - 1);
      }
    }
  }

  /** EmptyUpTo(b, n) lists cells below index n in increasing index order. */
  lemma {:induction false} EmptyUpToIncreasing(b: Board, n: nat)
    requires IsBoard(b) && n <= CellCount
    ensures forall k :: 0 <= k < |EmptyUpTo(b, n)| ==> InBounds(EmptyUpTo(b, n)[k]) && Idx(EmptyUpTo(b, n)[k]) < n
    ensures forall k, l :: 0 <= k < l < |EmptyUpTo(b, n)| ==> Idx(EmptyUpTo(b, n)[k]) < Idx(EmptyUpTo(b, n)[l])
  {
    if n > 0 {
      EmptyUpToIncreasing(b, n - 1);
      var init := EmptyUpTo(b, n - 1);
      if b[n - 1] < 0 {
        var s := init + [CoordOf(n - 1)];
        assert EmptyUpTo(b, n) == s;
        forall k, l | 0 <= k < l < |s| ensures Idx(s[k]) < Idx(s[l]) {
          assert s[k] == init[k];
          if l < |init| {
            assert s[l] == init[l];
          }
        }
      } else {
        assert EmptyUpTo(b, n) == init;
      }
    }
  }

  /** The source's `getChildren(False)`: every cell holding a negative value
      (an empty cell), in row-major order. */
  function EmptyCells(b: Board): (r: seq<Coord>)
    requires IsBoard(b)
    ensures |r| <= CellCount
  {
    EmptyUpTo(b, |b|)
  }

  /** The candidate list `getChildren(True)` builds from the occupied cells with
      index 0 .. n - 1: the empty neighbours of each in turn (with repetitions). */
  function AdjacentUpTo(b: Board, n: nat): (r: seq<Coord>)
    requires IsBoard(b) && n <= CellCount
    ensures |r| <= 8 * n
    decreases n, |b|
  {
    if n == 0 then []
    else AdjacentUpTo(b, n - 1) + (if b[n - 1] >= 0 then NeighbourMoves(b, CoordOf(n - 1)) else [])
  }

  /** The cell with index j holds a stone one king step from q. */
  predicate StoneNextTo(b: Board, j: int, q: Coord)
    requires IsBoard(b)
  {
    0 <= j < CellCount && b[j] >= 0 && KingStep(CoordOf(j), q)
  }

  /** q is in the list built from the cells 0 .. n - 1 exactly when it is
      empty and one king step from a stone among them. */
  lemma {:induction false} AdjacentMember(b: Board, n: nat, q: Coord)
    requires IsBoard(b) && n <= CellCount
    ensures q in AdjacentUpTo(b, n) <==> Free(b, q) && exists j :: 0 <= j < n && StoneNextTo(b, j, q)
  {
    if n > 0 {
      AdjacentMember(b, n - 1, q);
      AdjacentStep(b, n, q);
      if Free(b, q) && exists j :: 0 <= j < n && StoneNextTo(b, j, q) {
        var j :| 0 <= j < n && StoneNextTo(b, j, q);
        assert j < n - 1 || j == n - 1;
      }
    }
  }

  /** The cell with index n - 1 adds q to the list exactly when it holds a
      stone next to the empty cell q. */
  lemma AdjacentStep(b: Board, n: nat, q: Coord)
    requires IsBoard(b) && 0 < n <= CellCount
    ensures q in AdjacentUpTo(b, n) <==>
      q in AdjacentUpTo(b, n - 1) || (StoneNextTo(b, n - 1, q) && Free(b, q))
  {
    if b[n - 1] >= 0 {
      NeighbourMovesHas(b, CoordOf(n - 1), q);
    }
  }

  /** The source's `getChildren(True)`: at most 8 cells per stone, with
      repetitions. */
  function AdjacentCells(b: Board): (r: seq<Coord>)
    requires IsBoard(b)
    ensures |r| <= 8 * CellCount
  {
    AdjacentUpTo(b, |b|)
  }

  /** The source's `getChildren(only_closest_moves)`. */
  function Children(b: Board, onlyClosest: bool): (r: seq<Coord>)
    requires IsBoard(b)
    ensures !onlyClosest ==> |r| <= CellCount
    ensures |r| <= 8 * CellCount
  {
    if onlyClosest then AdjacentCells(b) else EmptyCells(b)
  }

  /** The Python `set(...)` of a list of cells. */
  function ToSet(s: seq<Coord>): (r: set<Coord>)
    ensures |r| <= |s|
    decreases |s|
  {
    if s == [] then {} else ToSet(s[..|s| - 1]) + {s[|s| - 1]}
  }

  /** `set(s)` holds exactly the cells that s lists. */
  lemma {:induction false} ToSetMembers(s: seq<Coord>)
    ensures forall q :: q in ToSet(s) <==> q in s
    decreases |s|
  {
    if s != [] {
      var init := s[..|s| - 1];
      ToSetMembers(init);
      assert s == init + [s[|s| - 1]];
    }
  }

  /** Every candidate is a cell of the board, and an empty one when only the
      cells next to a stone are listed. */
  lemma ChildSetOnBoard(b: Board, onlyClosest: bool)
    requires IsBoard(b)
    ensures forall q :: q in ToSet(Children(b, onlyClosest)) ==> InBounds(q)
    ensures onlyClosest ==> forall q :: q in ToSet(Children(b, onlyClosest)) ==> Free(b, q)
  {
    ToSetMembers(Children(b, onlyClosest));
    if onlyClosest {
      forall q | q in Children(b, onlyClosest) ensures Free(b, q) {
        AdjacentMember(b, |b|, q);
      }
    } else {
      EmptyUpToExact(b, |b|);
    }
  }

  /** Every neighbour `get_all_neigh_possible_moves` lists is an empty cell. */
  lemma NeighbourSetFree(b: Board, p: Coord)
    requires IsBoard(b)
    ensures forall q :: q in ToSet(NeighbourMoves(b, p)) ==> Free(b, q)
  {
    ToSetMembers(NeighbourMoves(b, p));
    NeighbourMovesExact(b, p);
  }

  /** `getChildren(False)` lists exactly the empty cells of a well-formed board,
      each once, in increasing row-major order. */
  lemma EmptyCellsExact(b: Board)
    requires WellFormed(b)
    ensures forall q :: q in EmptyCells(b) <==> Free(b, q)
    ensures forall k :: 0 <= k < |EmptyCells(b)| ==> InBounds(EmptyCells(b)[k])
    ensures forall k, l :: 0 <= k < l < |EmptyCells(b)| ==> Idx(EmptyCells(b)[k]) < Idx(EmptyCells(b)[l])
  {
    EmptyUpToExact(b, |b|);
  }

  /** After `reset_board` `getChildren(False)` lists every cell of the board,
      225 cells in all. */
  lemma EmptyBoardAllCells()
    ensures forall q :: q in EmptyCells(EmptyBoard()) <==> InBounds(q)
    ensures |EmptyCells(EmptyBoard())| == CellCount
  {
    EmptyCellsExact(EmptyBoard());
    EmptyUpToOfEmptyBoard(CellCount);
  }

  /** On an empty board every cell below index n is listed. */
  lemma {:induction false} EmptyUpToOfEmptyBoard(n: nat)
    requires n <= CellCount
    ensures |EmptyUpTo(EmptyBoard(), n)| == n
  {
    if n > 0 {
      EmptyUpToOfEmptyBoard(n - 1);
    }
  }

  /** `getChildren(True)` lists exactly the empty cells next to some stone. */
  lemma AdjacentCellsExact(b: Board)
    requires IsBoard(b)
    ensures forall q :: q in AdjacentCells(b) <==>
      Free(b, q) && exists p :: InBounds(p) && b[Idx(p)] >= 0 && KingStep(p, q)
  {
    forall q ensures q in AdjacentUpTo(b, |b|) <==>
      Free(b, q) && exists j :: 0 <= j < CellCount && StoneNextTo(b, j, q)
    {
      AdjacentMember(b, |b|, q);
    }
    forall q | Free(b, q)
      ensures (exists j :: 0 <= j < CellCount && StoneNextTo(b, j, q)) <==>
        (exists p :: InBounds(p) && b[Idx(p)] >= 0 && KingStep(p, q))
    {
      if p :| InBounds(p) && b[Idx(p)] >= 0 && KingStep(p, q) {
        CoordOfIdx(p);
        assert StoneNextTo(b, Idx(p), q);
      }
    }
  }

  /** On a board with no stone `getChildren(True)` is empty. */
  lemma AdjacentCellsOfEmptyBoard()
    ensures AdjacentCells(EmptyBoard()) == []
  {
    AdjacentUpToOfEmptyBoard(CellCount);
  }

  /** On an empty board no cell below index n holds a stone, so none adds a
      neighbour. */
  lemma {:induction false} AdjacentUpToOfEmptyBoard(n: nat)
    requires n <= CellCount
    ensures AdjacentUpTo(EmptyBoard(), n) == []
  {
    if n > 0 {
      AdjacentUpToOfEmptyBoard(n - 1);
      assert EmptyBoard()[n - 1] < 0;
    }
  }
}
