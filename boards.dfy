/** The 15x15 gomoku board as a value.

    The engine keeps a 15x15 integer grid: -1 is an empty cell, 0 a stone of the
    user and 1 a stone of the engine. The model stores it row-major as 225
    integers, cell (row, col) at index 15 * row + col. */
module Boards {

  const Size: int := 15
  const CellCount: int := 225
  const Empty: int := -1

  type Board = seq<int>

  predicate IsBoard(b: Board) {
    |b| == CellCount
  }

  /** Every cell holds -1, 0 or 1. */
  predicate WellFormed(b: Board) {
    IsBoard(b) && forall i :: 0 <= i < |b| ==> -1 <= b[i] <= 1
  }

  /** The board of a new game: every cell empty. */
  function EmptyBoard(): (b: Board)
    ensures WellFormed(b)
    ensures forall i :: 0 <= i < |b| ==> b[i] == Empty
  {
    seq(CellCount, _ => Empty)
  }

  datatype Coord = Coord(row: int, col: int)

  /** The source's bounds test `0 <= x <= 14 and 0 <= y <= 14`. */
  predicate InBounds(p: Coord) {
    0 <= p.row <= 14 && 0 <= p.col <= 14
  }

  function Idx(p: Coord): (i: nat)
    requires InBounds(p)
    ensures i < CellCount
  {
    p.row * Size + p.col
  }

  function CoordOf(i: int): (p: Coord)
    requires 0 <= i < CellCount
    ensures InBounds(p) && Idx(p) == i
  {
    Coord(i / Size, i % Size)
  }

  lemma IdxInjective(p: Coord, q: Coord)
    requires InBounds(p) && InBounds(q)
    ensures Idx(p) == Idx(q) <==> p == q
  {
  }

  lemma CoordOfIdx(p: Coord)
    requires InBounds(p)
    ensures CoordOf(Idx(p)) == p
  {
    IdxInjective(CoordOf(Idx(p)), p);
  }

  /** A cell that is on the board and holds -1 (the source's `== -1` tests). */
  predicate Free(b: Board, p: Coord)
    requires IsBoard(b)
  {
    InBounds(p) && b[Idx(p)] == Empty
  }

  /** The four positive direction vectors; each axis is walked along d and -d. */
  const PositiveDirections: seq<Coord> := [Coord(0, 1), Coord(1, 1), Coord(1, 0), Coord(1, -1)]

  /** The four negative direction vectors (the source keeps them but never reads them). */
  const NegativeDirections: seq<Coord> := [Coord(0, -1), Coord(-1, -1), Coord(-1, 0), Coord(-1, 1)]

  /** (dr, dc) is one of the eight unit steps of the board: a direction vector.
      It is stated on the two components, not on a Coord. */
  predicate Unit(dr: int, dc: int) {
    -1 <= dr <= 1 && -1 <= dc <= 1 && (dr != 0 || dc != 0)
  }

  /** The a-th positive direction: the axis the source's loop visits a-th,
      (0, 1), (1, 1), (1, 0), (1, -1) for a = 0 .. 3 (DirIsPositiveDirection).
      It is written without a case split so that the verifier does not unfold
      it into four literal cells wherever a is unknown. */
  function Dir(a: int): (d: Coord)
    requires 0 <= a < 4
    ensures Unit(d.row, d.col)
  {
    Coord((a + 3) / 4, 1 - a + (a + 3) / 4)
  }

  lemma DirIsPositiveDirection(a: int)
    requires 0 <= a < 4
    ensures Dir(a) == PositiveDirections[a]
  {
  }

  /** One step from p along d. */
  function Forward(p: Coord, d: Coord): Coord {
    Coord(p.row + d.row, p.col + d.col)
  }

  /** One step from p against d. */
  function Backward(p: Coord, d: Coord): Coord {
    Coord(p.row - d.row, p.col - d.col)
  }

  /** One step of a walk: `cur_position += direction` when forward holds,
      `cur_position -= direction` otherwise. */
  function Step(p: Coord, d: Coord, forward: bool): Coord {
    if forward then Forward(p, d) else Backward(p, d)
  }

  /** k steps from p along d. */
  function Shift(p: Coord, d: Coord, k: nat): Coord
    decreases k
  {
    if k == 0 then p else Shift(Forward(p, d), d, k - 1)
  }

  lemma {:induction false} ShiftLast(p: Coord, d: Coord, k: nat)
    ensures Shift(p, d, k + 1) == Forward(Shift(p, d, k), d)
    decreases k
  {
    if k > 0 {
      ShiftLast(Forward(p, d), d, k - 1);
    }
  }

  /** A bound on the number of steps of a walk that stay on the board: it drops
      with every step and is positive on the board. */
  function Reach(p: Coord, d: Coord, forward: bool): int {
    var dr := if forward then d.row else -d.row;
    var dc := if forward then d.col else -d.col;
    if dr > 0 then Size - p.row
    else if dr < 0 then p.row + 1
    else if dc > 0 then Size - p.col
    else p.col + 1
  }

  lemma ReachStep(p: Coord, d: Coord, forward: bool)
    requires Unit(d.row, d.col) && InBounds(p)
    ensures 0 < Reach(p, d, forward)
    ensures Reach(Step(p, d, forward), d, forward) == Reach(p, d, forward) - 1
  {
  }

  /** The number of consecutive cells p, Step(p), Step(Step(p)), ... that are
      on the board and hold t: what one of the source's walks adds to
      `line_count`. */
  function Run(b: Board, p: Coord, d: Coord, forward: bool, t: int): (r: nat)
    requires IsBoard(b) && Unit(d.row, d.col)
    ensures r > 0 <==> InBounds(p) && b[Idx(p)] == t
    decreases Reach(p, d, forward), |b|
  {
    if InBounds(p) && b[Idx(p)] == t then
      ReachStep(p, d, forward);
      1 + Run(b, Step(p, d, forward), d, forward, t)
    else
      0
  }

  /** The cell at which that walk stops: off the board or not holding t. */
  function RunEnd(b: Board, p: Coord, d: Coord, forward: bool, t: int): (e: Coord)
    requires IsBoard(b) && Unit(d.row, d.col)
    ensures !(InBounds(e) && b[Idx(e)] == t)
    decreases Reach(p, d, forward), |b|
  {
    if InBounds(p) && b[Idx(p)] == t then
      ReachStep(p, d, forward);
      RunEnd(b, Step(p, d, forward), d, forward, t)
    else
      p
  }

  /** The m cells p, Step(p), ... of a walk all lie on the board and hold t. */
  predicate Line(b: Board, p: Coord, d: Coord, forward: bool, m: nat, t: int)
    requires IsBoard(b)
    decreases m
  {
    m == 0 || (InBounds(p) && b[Idx(p)] == t && Line(b, Step(p, d, forward), d, forward, m - 1, t))
  }

  /** Run counts exactly the leading cells that hold t: it is at least m if and
      only if the first m cells do. */
  lemma {:induction false} RunCountsLine(b: Board, p: Coord, d: Coord, forward: bool, m: nat, t: int)
    requires IsBoard(b) && Unit(d.row, d.col)
    ensures Run(b, p, d, forward, t) >= m <==> Line(b, p, d, forward, m, t)
    decreases m
  {
    if m > 0 && InBounds(p) && b[Idx(p)] == t {
      ReachStep(p, d, forward);
      RunCountsLine(b, Step(p, d, forward), d, forward, m - 1, t);
    }
  }

  lemma {:induction false} LinePrefix(b: Board, p: Coord, d: Coord, m: nat, k: nat, t: int)
    requires IsBoard(b) && Line(b, p, d, true, m, t) && k <= m
    ensures Line(b, p, d, true, k, t)
    decreases k
  {
    if k > 0 {
      LinePrefix(b, Forward(p, d), d, m - 1, k - 1, t);
    }
  }

  lemma {:induction false} LineSuffix(b: Board, p: Coord, d: Coord, m: nat, k: nat, t: int)
    requires IsBoard(b) && Line(b, p, d, true, m, t) && k <= m
    ensures Line(b, Shift(p, d, k), d, true, m - k, t)
    decreases k
  {
    if k > 0 {
      LineSuffix(b, Forward(p, d), d, m - 1, k - 1, t);
    }
  }

  /** The same m + 1 cells walked backward, from the last one. */
  lemma {:induction false} LineReversed(b: Board, p: Coord, d: Coord, m: nat, t: int)
    requires IsBoard(b) && Line(b, p, d, true, m + 1, t)
    ensures Line(b, Shift(p, d, m), d, false, m + 1, t)
    decreases m
  {
    if m == 0 {
    } else {
      LinePrefix(b, p, d, m + 1, m, t);
      LineReversed(b, p, d, m - 1, t);
      LineSuffix(b, p, d, m + 1, m, t);
      ShiftLast(p, d, m - 1);
      assert Backward(Shift(p, d, m), d) == Shift(p, d, m - 1);
    }
  }

  /** The colour of the k-th replayed stone when the first is `init`: the source
      sets `move_switch = (move_switch + 1) % 2` after every stone. */
  function Alt(init: int, k: nat): (r: int)
    ensures 0 <= init <= 1 ==> (r == init <==> k % 2 == 0)
    ensures k > 0 ==> r == 0 || r == 1
  {
    if k == 0 then init else (init + k) % 2
  }

  lemma AltNext(init: int, k: nat)
    ensures Alt(init, k + 1) == (Alt(init, k) + 1) % 2
  {
  }
}
