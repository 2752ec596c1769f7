/** The static evaluator (`evaluate(last_moves)`) as a function of the board.

    The evaluator clears the cells of the move list, puts the stones back one at a
    time with alternating colours starting from the colour found at the first
    move, and scores every stone on the board as it stands when that stone is put
    back: along each of the four axes it counts the run of same-coloured stones
    through the stone and notes whether each end of the run is an empty cell.
    A run of five or more ends the evaluation with an infinite score; otherwise
    the axis contributions are summed. Finite scores are kept doubled (see Scores). */
module Evaluator {
  import opened Scores
  import opened Boards
  import opened MoveGen

  predicate MovesInBounds(moves: seq<Coord>) {
    forall k :: 0 <= k < |moves| ==> InBounds(moves[k])
  }

  /** The board after the cells of moves[..k] are set to -1 in turn. */
  function ClearFirst(b: Board, moves: seq<Coord>, k: nat): (r: Board)
    requires IsBoard(b) && MovesInBounds(moves) && k <= |moves|
    ensures IsBoard(r)
  {
    if k == 0 then b else ClearFirst(b, moves, k - 1)[Idx(moves[k - 1]) := Empty]
  }

  /** Every cell of moves[..k] is -1 once they have been cleared. */
  lemma {:induction false} ClearFirstCleared(b: Board, moves: seq<Coord>, k: nat, j: nat)
    requires IsBoard(b) && MovesInBounds(moves) && j < k <= |moves|
    ensures ClearFirst(b, moves, k)[Idx(moves[j])] == Empty
  {
    if j < k - 1 {
      ClearFirstCleared(b, moves, k - 1, j);
    }
  }

  /** The board once every cell of the move list has been cleared. */
  function Cleared(b: Board, moves: seq<Coord>): (r: Board)
    requires IsBoard(b) && MovesInBounds(moves)
    ensures IsBoard(r)
  {
    ClearFirst(b, moves, |moves|)
  }

  /** The board after moves[0], ..., moves[k - 1] are written with the
      alternating colours Alt(init, 0), ..., Alt(init, k - 1). */
  function Placed(b: Board, moves: seq<Coord>, init: int, k: nat): (r: Board)
    requires IsBoard(b) && MovesInBounds(moves) && k <= |moves|
    ensures IsBoard(r)
  {
    if k == 0 then b else Placed(b, moves, init, k - 1)[Idx(moves[k - 1]) := Alt(init, k - 1)]
  }

  /** The colour the evaluator starts from: the value at the first move. */
  function FirstColour(b: Board, moves: seq<Coord>): int
    requires IsBoard(b) && MovesInBounds(moves) && |moves| > 0
  {
    b[Idx(moves[0])]
  }

  /** The board `evaluate` leaves behind, on every return path: each cell of the
      move list rewritten, in order, with the alternating colours. */
  function Replayed(b: Board, moves: seq<Coord>): (r: Board)
    requires IsBoard(b) && MovesInBounds(moves) && |moves| > 0
    ensures IsBoard(r)
  {
    Placed(b, moves, FirstColour(b, moves), |moves|)
  }

  /** The board on which the j-th stone of the move list is scored: the move
      cells cleared, then stones 0 .. j put back. */
  function ScoringBoard(b: Board, moves: seq<Coord>, j: nat): (r: Board)
    requires IsBoard(b) && MovesInBounds(moves) && j < |moves|
    ensures IsBoard(r)
  {
    Placed(Cleared(b, moves), moves, FirstColour(b, moves), j + 1)
  }

  /** The move list describes a path of alternating placements already on the
      board: the first cell holds 0 or 1 and the colours alternate from it. */
  predicate Alternating(b: Board, moves: seq<Coord>)
    requires IsBoard(b)
  {
    |moves| > 0 && MovesInBounds(moves) && 0 <= b[Idx(moves[0])] <= 1 &&
    forall k :: 0 <= k < |moves| ==> b[Idx(moves[k])] == (b[Idx(moves[0])] + k) % 2
  }

  // ---------------------------------------------------------------------------
  // Scoring one stone

  /** Twice the source's multiplier: 1 for a stone of player 0 (or anything not
      positive), -0.5 for a stone of player 1. */
  function Weight2(t: int): (r: int)
    ensures r != 0
    ensures r < 0 <==> t > 0
  {
    if t > 0 then -1 else 2
  }

  /** The source's `if evaluation == 0: evaluation = multiplier * 1` after each
      stone (doubled): a zero total becomes the stone's multiplier. */
  function Floor(s: int, t: int): (r: int)
    ensures r != 0
    ensures s != 0 ==> r == s
  {
    if s == 0 then Weight2(t) else s
  }

  /** `multiplier * float('inf')`: infinite, above every score for the user's
      stones and below every score for the engine's. */
  function Infinity(t: int): (r: Score)
    ensures !r.Finite?
    ensures t > 0 ==> r.Le(Finite(0)) && r.Le(NegInf)
    ensures t <= 0 ==> Finite(0).Le(r) && PosInf.Le(r)
  {
    if t > 0 then NegInf else PosInf
  }

  /** Twice what one axis adds to the evaluation when its run has n stones and
      its ends are open (empty) or not, tabulated; `LineValueIsProduct` shows it
      is the source's product `multiplier * line_count * mul_blocked`. */
  function LineValue(n: int, open1: bool, open2: bool, t: int): (r: int)
    ensures r != 0 <==> 2 <= n <= 4
    ensures t > 0 ==> r <= 0
    ensures t <= 0 ==> r >= 0
  {
    var opens := (if open1 then 1 else 0) + (if open2 then 1 else 0);
    var factor :=
      if n == 2 then (if opens == 2 then 8 else if opens == 1 then 4 else 2)
      else if n == 3 then (if opens == 2 then 54 else if opens == 1 then 18 else 6)
      else if n == 4 then (if opens == 2 then 256 else if opens == 1 then 64 else 16)
      else 0;
    Weight2(t) * factor
  }

  /** The table is the source's computation: `mul_blocked` starts at 4 for a run
      of four, 2 for a run of three and 1 otherwise, is multiplied by the run
      length once per open end, and the axis adds `multiplier * line_count *
      mul_blocked` when the run has more than one stone and fewer than five. */
  lemma LineValueIsProduct(n: int, open1: bool, open2: bool, t: int)
    requires 1 <= n <= 4
    ensures var m0 := if n == 4 then 4 else if n == 3 then 2 else 1;
      var m1 := if open1 then m0 * n else m0;
      var m2 := if open2 then m1 * n else m1;
      LineValue(n, open1, open2, t) == if n > 1 then Weight2(t) * n * m2 else 0
  {
    assert n == 1 || n == 2 || n == 3 || n == 4;
  }

  datatype Tally = Five | Sum(total: int)

  /** One axis through the stone at p of colour t: a five, or the axis' contribution. */
  function AxisTally(b: Board, p: Coord, d: Coord, t: int): (r: Tally)
    requires IsBoard(b) && Unit(d.row, d.col)
    ensures r.Sum? ==> (t > 0 ==> r.total <= 0) && (t <= 0 ==> r.total >= 0)
  {
    var k1 := Run(b, Forward(p, d), d, true, t);
    var k2 := Run(b, Backward(p, d), d, false, t);
    var n := 1 + k1 + k2;
    if n >= 5 then Five
    else Sum(LineValue(n, Free(b, RunEnd(b, Forward(p, d), d, true, t)), Free(b, RunEnd(b, Backward(p, d), d, false, t)), t))
  }

  /** The tallies of the four axes, in the source's order. */
  function AxisTallies(b: Board, p: Coord, t: int): (ts: seq<Tally>)
    requires IsBoard(b)
    ensures |ts| == 4
  {
    seq(4, a requires 0 <= a < 4 => AxisTally(b, p, Dir(a), t))
  }

  lemma AxisTallyAt(b: Board, p: Coord, t: int, a: nat)
    requires IsBoard(b) && a < 4
    ensures AxisTallies(b, p, t)[a] == AxisTally(b, p, Dir(a), t)
  {
  }

  /** The per-axis loop: the tallies added to the running total acc in order;
      the first five ends the scan. */
  function Scan(ts: seq<Tally>, acc: int): Tally
    decreases |ts|
  {
    if ts == [] then Sum(acc)
    else
      match ts[0]
      case Five => Five
      case Sum(x) => Scan(ts[1..], acc + x)
  }

  /** The tally of axis a, once known, decides the scan from a: a five ends
      it, a value is added to the running total. */
  lemma TallyScan(b: Board, p: Coord, t: int, a: nat, acc: int, five: bool, value: int)
    requires IsBoard(b) && a < 4
    requires AxisTally(b, p, Dir(a), t) == if five then Five else Sum(value)
    ensures Scan(AxisTallies(b, p, t)[a..], acc) ==
      if five then Five else Scan(AxisTallies(b, p, t)[a + 1..], acc + value)
  {
    AxisTallyAt(b, p, t, a);
    ScanFrom(AxisTallies(b, p, t), a, acc, five, value);
  }

  /** One turn of the per-axis loop from axis a: a five ends the scan, any
      other tally is added to the running total. */
  lemma ScanFrom(ts: seq<Tally>, a: nat, acc: int, five: bool, value: int)
    requires a < |ts| && ts[a] == if five then Five else Sum(value)
    ensures Scan(ts[a..], acc) == if five then Five else Scan(ts[a + 1..], acc + value)
  {
    assert ts[a..][0] == ts[a] && ts[a..][1..] == ts[a + 1..];
  }

  /** dirs lists the four axes in the order of `positive_directions`. */
  predicate AreAxes(dirs: seq<Coord>) {
    |dirs| == 4 && forall a :: 0 <= a < 4 ==> dirs[a] == Dir(a)
  }

  lemma PositiveDirectionsAreAxes()
    ensures AreAxes(PositiveDirections)
  {
    forall a | 0 <= a < 4 ensures PositiveDirections[a] == Dir(a) {
      DirIsPositiveDirection(a);
    }
  }

  /** Stones j .. of the move list; b is the board before stone j is put back and
      acc the running total. After each stone a total of 0 becomes the stone's
      multiplier. */
  function EvalFrom(b: Board, moves: seq<Coord>, init: int, j: nat, acc: int): (r: Score)
    requires IsBoard(b) && MovesInBounds(moves) && j <= |moves|
    ensures j < |moves| || acc != 0 ==> r != Finite(0)
    decreases |moves| - j, 1
  {
    if j == |moves| then Finite(acc) else EvalStone(b, moves, init, j, acc)
  }

  /** Stone j put back with its colour and scored: five in a line ends the
      evaluation, any other total goes on to the next stone. */
  function EvalStone(b: Board, moves: seq<Coord>, init: int, j: nat, acc: int): (r: Score)
    requires IsBoard(b) && MovesInBounds(moves) && j < |moves|
    ensures r != Finite(0)
    decreases |moves| - j, 0
  {
    var t := Alt(init, j);
    var b' := b[Idx(moves[j]) := t];
    match Scan(AxisTallies(b', moves[j], t), acc)
    case Five => Infinity(t)
    case Sum(s) => EvalFrom(b', moves, init, j + 1, Floor(s, t))
  }

  /** The value `evaluate(last_moves)` returns. It is never 0: the total of
      the last stone scored is floored to its multiplier. */
  function Evaluation(b: Board, moves: seq<Coord>): (r: Score)
    requires IsBoard(b) && MovesInBounds(moves) && |moves| > 0
    ensures r != Finite(0)
  {
    EvalFrom(Cleared(b, moves), moves, FirstColour(b, moves), 0, 0)
  }

  // ---------------------------------------------------------------------------
  // What evaluate does to the board

  /** The cell indices of moves[..k]. */
  function Footprint(moves: seq<Coord>, k: nat): set<int>
    requires MovesInBounds(moves) && k <= |moves|
  {
    if k == 0 then {} else Footprint(moves, k - 1) + {Idx(moves[k - 1])}
  }

  lemma {:induction false} FootprintGrows(moves: seq<Coord>, k: nat, n: nat)
    requires MovesInBounds(moves) && k <= n <= |moves|
    ensures Footprint(moves, k) <= Footprint(moves, n)
    decreases n - k
  {
    if k < n {
      FootprintGrows(moves, k, n - 1);
    }
  }

  /** Clearing touches only the cells of the move list. */
  lemma {:induction false} ClearFirstOutside(b: Board, moves: seq<Coord>, k: nat)
    requires IsBoard(b) && MovesInBounds(moves) && k <= |moves|
    ensures forall i :: 0 <= i < CellCount && i !in Footprint(moves, k) ==> ClearFirst(b, moves, k)[i] == b[i]
  {
    if k > 0 {
      ClearFirstOutside(b, moves, k - 1);
    }
  }

  /** Writing the stones touches only the cells of the move list. */
  lemma {:induction false} PlacedOutside(b: Board, moves: seq<Coord>, init: int, k: nat)
    requires IsBoard(b) && MovesInBounds(moves) && k <= |moves|
    ensures forall i :: 0 <= i < CellCount && i !in Footprint(moves, k) ==> Placed(b, moves, init, k)[i] == b[i]
  {
    if k > 0 {
      PlacedOutside(b, moves, init, k - 1);
    }
  }

  /** Two boards that agree off the move cells agree, after k stones are
      written, off the move cells and on the cells already written. */
  lemma {:induction false} PlacedAgree(x: Board, y: Board, moves: seq<Coord>, init: int, k: nat)
    requires IsBoard(x) && IsBoard(y) && MovesInBounds(moves) && k <= |moves|
    requires forall i :: 0 <= i < CellCount && i !in Footprint(moves, |moves|) ==> x[i] == y[i]
    ensures forall i :: 0 <= i < CellCount && (i !in Footprint(moves, |moves|) || i in Footprint(moves, k)) ==>
      Placed(x, moves, init, k)[i] == Placed(y, moves, init, k)[i]
  {
    if k > 0 {
      PlacedAgree(x, y, moves, init, k - 1);
    }
  }

  /** Writing all the stones over any board that agrees with b off the move
      cells gives the board that writing them over b gives. */
  lemma ReplayOver(x: Board, b: Board, moves: seq<Coord>, init: int)
    requires IsBoard(x) && IsBoard(b) && MovesInBounds(moves)
    requires forall i :: 0 <= i < CellCount && i !in Footprint(moves, |moves|) ==> x[i] == b[i]
    ensures Placed(x, moves, init, |moves|) == Placed(b, moves, init, |moves|)
  {
    PlacedAgree(x, b, moves, init, |moves|);
  }

  /** The normal return path of `evaluate` leaves the replayed board. */
  lemma ClearedThenPlaced(b: Board, moves: seq<Coord>)
    requires IsBoard(b) && MovesInBounds(moves) && |moves| > 0
    ensures Placed(Cleared(b, moves), moves, FirstColour(b, moves), |moves|) == Replayed(b, moves)
  {
    ClearFirstOutside(b, moves, |moves|);
    ReplayOver(Cleared(b, moves), b, moves, FirstColour(b, moves));
  }

  /** An early return after stone j restores every move cell from the board it
      is on, and so leaves the replayed board too. */
  lemma EarlyReturnReplays(b: Board, moves: seq<Coord>, j: nat)
    requires IsBoard(b) && MovesInBounds(moves) && j < |moves|
    ensures Placed(ScoringBoard(b, moves, j), moves, FirstColour(b, moves), |moves|) == Replayed(b, moves)
  {
    var init := FirstColour(b, moves);
    var c := Cleared(b, moves);
    ClearFirstOutside(b, moves, |moves|);
    PlacedOutside(c, moves, init, j + 1);
    FootprintGrows(moves, j + 1, |moves|);
    ReplayOver(ScoringBoard(b, moves, j), b, moves, init);
  }

  /** When the move list is an alternating path already on the board the
      evaluator gives the board back unchanged. */
  lemma ReplayIdentity(b: Board, moves: seq<Coord>)
    requires IsBoard(b) && Alternating(b, moves)
    ensures Replayed(b, moves) == b
  {
    PlacedIdentity(b, moves, |moves|);
  }

  lemma {:induction false} PlacedIdentity(b: Board, moves: seq<Coord>, k: nat)
    requires IsBoard(b) && Alternating(b, moves) && k <= |moves|
    ensures Placed(b, moves, FirstColour(b, moves), k) == b
  {
    if k > 0 {
      PlacedIdentity(b, moves, k - 1);
      assert b[Idx(moves[k - 1])] == Alt(FirstColour(b, moves), k - 1);
    }
  }

  /** A single move is always put back as it was found. */
  lemma SingleReplayIdentity(b: Board, p: Coord)
    requires IsBoard(b) && InBounds(p)
    ensures Replayed(b, [p]) == b
  {
    assert Placed(b, [p], b[Idx(p)], 0) == b;
  }

  // ---------------------------------------------------------------------------
  // What evaluate returns

  /** The stone of colour t at p has a run of five or more along some axis. */
  predicate StoneFive(b: Board, p: Coord, t: int)
    requires IsBoard(b)
  {
    Five in AxisTallies(b, p, t)
  }

  /** A stone has a five exactly when one of its four axes does. */
  lemma StoneFiveOnAxis(b: Board, p: Coord, t: int)
    requires IsBoard(b)
    ensures StoneFive(b, p, t) <==> exists a :: 0 <= a < 4 && AxisTally(b, p, Dir(a), t).Five?
  {
    var ts := AxisTallies(b, p, t);
    forall a | 0 <= a < 4 ensures ts[a] == AxisTally(b, p, Dir(a), t) {
      AxisTallyAt(b, p, t, a);
    }
    if Five in ts {
      var a :| 0 <= a < 4 && ts[a] == Five;
      assert AxisTally(b, p, Dir(a), t).Five?;
    }
  }

  /** The scan ends in a five exactly when some tally is one. */
  lemma {:induction false} ScanFive(ts: seq<Tally>, acc: int)
    ensures Scan(ts, acc).Five? <==> Five in ts
    decreases |ts|
  {
    if ts != [] {
      if ts[0].Sum? {
        ScanFive(ts[1..], acc + ts[0].total);
        assert Five in ts <==> Five in ts[1..];
      }
    }
  }

  /** One stone of the evaluator's loop: it is written on the board, then a
      five on any of its axes ends the loop, otherwise its axes' total,
      rounded down, is carried to the next stone. */
  lemma EvalFromStep(b: Board, moves: seq<Coord>, init: int, j: nat, acc: int)
    requires IsBoard(b) && MovesInBounds(moves) && j < |moves|
    ensures var t := Alt(init, j);
      var b' := b[Idx(moves[j]) := t];
      EvalFrom(b, moves, init, j, acc) ==
        match Scan(AxisTallies(b', moves[j], t), acc)
        case Five => Infinity(t)
        case Sum(s) => EvalFrom(b', moves, init, j + 1, Floor(s, t))
  {
    assert EvalFrom(b, moves, init, j, acc) == EvalStone(b, moves, init, j, acc);
  }

  lemma {:induction false} EvalFromWin(c: Board, moves: seq<Coord>, init: int, j: nat, acc: int, w: nat)
    requires IsBoard(c) && MovesInBounds(moves) && j <= w < |moves|
    requires forall k :: j <= k < w ==> !StoneFive(Placed(c, moves, init, k + 1), moves[k], Alt(init, k))
    requires StoneFive(Placed(c, moves, init, w + 1), moves[w], Alt(init, w))
    ensures EvalFrom(Placed(c, moves, init, j), moves, init, j, acc) == Infinity(Alt(init, w))
    decreases w - j
  {
    var t := Alt(init, j);
    var b' := Placed(c, moves, init, j + 1);
    EvalFromStep(Placed(c, moves, init, j), moves, init, j, acc);
    ScanFive(AxisTallies(b', moves[j], t), acc);
    if j < w {
      var s := Scan(AxisTallies(b', moves[j], t), acc).total;
      EvalFromWin(c, moves, init, j + 1, Floor(s, t), w);
    }
  }

  lemma {:induction false} EvalFromFinite(c: Board, moves: seq<Coord>, init: int, j: nat, acc: int)
    requires IsBoard(c) && MovesInBounds(moves) && j <= |moves|
    requires forall k :: j <= k < |moves| ==> !StoneFive(Placed(c, moves, init, k + 1), moves[k], Alt(init, k))
    ensures EvalFrom(Placed(c, moves, init, j), moves, init, j, acc).Finite?
    decreases |moves| - j
  {
    if j < |moves| {
      var t := Alt(init, j);
      var b' := Placed(c, moves, init, j + 1);
      ScanFive(AxisTallies(b', moves[j], t), acc);
      var s := Scan(AxisTallies(b', moves[j], t), acc).total;
      EvalFromFinite(c, moves, init, j + 1, Floor(s, t));
    }
  }

  /** Win detection: if stone w is the first stone of the list that completes a
      run of five or more on the board it is scored on, the evaluation is plus
      infinity when that stone is player 0's and minus infinity when it is player 1's. */
  lemma EvaluationWin(b: Board, moves: seq<Coord>, w: nat)
    requires IsBoard(b) && MovesInBounds(moves) && w < |moves|
    requires forall k :: 0 <= k < w ==> !StoneFive(ScoringBoard(b, moves, k), moves[k], Alt(FirstColour(b, moves), k))
    requires StoneFive(ScoringBoard(b, moves, w), moves[w], Alt(FirstColour(b, moves), w))
    ensures Evaluation(b, moves) == Infinity(Alt(FirstColour(b, moves), w))
  {
    EvalFromWin(Cleared(b, moves), moves, FirstColour(b, moves), 0, 0, w);
  }

  /** With no such stone the evaluation is finite. */
  lemma EvaluationFinite(b: Board, moves: seq<Coord>)
    requires IsBoard(b) && MovesInBounds(moves) && |moves| > 0
    requires forall k :: 0 <= k < |moves| ==> !StoneFive(ScoringBoard(b, moves, k), moves[k], Alt(FirstColour(b, moves), k))
    ensures Evaluation(b, moves).Finite?
  {
    EvalFromFinite(Cleared(b, moves), moves, FirstColour(b, moves), 0, 0);
  }

  /** Five cells in a row through p along an axis make that axis a five. */
  lemma FiveThroughStone(b: Board, s: Coord, a: nat, j: nat, t: int)
    requires IsBoard(b) && a < 4 && j < 5
    requires Line(b, s, Dir(a), true, 5, t)
    ensures AxisTally(b, Shift(s, Dir(a), j), Dir(a), t) == Five
  {
    var d := Dir(a);
    var p := Shift(s, d, j);
    ShiftLast(s, d, j);
    LineSuffix(b, s, d, 5, j + 1, t);
    RunCountsLine(b, Forward(p, d), d, true, 4 - j, t);
    if j > 0 {
      LinePrefix(b, s, d, 5, j, t);
      LineReversed(b, s, d, j - 1, t);
      ShiftLast(s, d, j - 1);
      assert Backward(p, d) == Shift(s, d, j - 1);
      RunCountsLine(b, Backward(p, d), d, false, j, t);
    }
  }

  /** A stone the user (0) or the engine (1) has just placed that completes five
      in a row is scored plus infinity for the user and minus infinity for the engine. */
  lemma SingleStoneWin(b: Board, s: Coord, a: nat, j: nat)
    requires IsBoard(b) && a < 4 && j < 5
    requires InBounds(Shift(s, Dir(a), j))
    requires Line(b, s, Dir(a), true, 5, b[Idx(Shift(s, Dir(a), j))])
    ensures var p := Shift(s, Dir(a), j);
      Evaluation(b, [p]) == Infinity(b[Idx(p)])
  {
    var p := Shift(s, Dir(a), j);
    FiveThroughStone(b, s, a, j, b[Idx(p)]);
    AxisTallyAt(b, p, b[Idx(p)], a);
    assert AxisTallies(b, p, b[Idx(p)])[a] == Five;
    SingleScoringBoard(b, p);
    EvaluationWin(b, [p], 0);
  }

  lemma SingleScoringBoard(b: Board, p: Coord)
    requires IsBoard(b) && InBounds(p)
    ensures ScoringBoard(b, [p], 0) == b
  {
    var i := Idx(p);
    var c := Cleared(b, [p]);
    assert ClearFirst(b, [p], 0) == b;
    assert c == b[i := Empty];
    assert FirstColour(b, [p]) == b[i];
    assert Placed(c, [p], b[i], 0) == c;
    assert Placed(c, [p], b[i], 1) == c[i := b[i]];
    assert c[i := b[i]] == b;
  }

  /** The sum of the finite tallies. */
  function Total(ts: seq<Tally>): int
    decreases |ts|
  {
    if ts == [] then 0 else (if ts[0].Sum? then ts[0].total else 0) + Total(ts[1..])
  }

  /** Without a five the scan adds up every tally. */
  lemma {:induction false} ScanSum(ts: seq<Tally>, acc: int)
    requires Five !in ts
    ensures Scan(ts, acc) == Sum(acc + Total(ts))
    decreases |ts|
  {
    if ts != [] {
      assert ts[0] in ts;
      assert forall x :: x in ts[1..] ==> x in ts;
      ScanSum(ts[1..], acc + ts[0].total);
    }
  }

  /** The score of a single stone: infinite on a five, otherwise the sum of the
      four axis contributions, or the stone's multiplier when that sum is 0. */
  lemma SingleStone(b: Board, p: Coord)
    requires IsBoard(b) && InBounds(p)
    ensures var t := b[Idx(p)];
      var ts := AxisTallies(b, p, t);
      Evaluation(b, [p]) == if Five in ts then Infinity(t) else Finite(Floor(Total(ts), t))
  {
    var t := b[Idx(p)];
    var ts := AxisTallies(b, p, t);
    var c := Cleared(b, [p]);
    SingleScoringBoard(b, p);
    assert FirstColour(b, [p]) == t;
    assert Placed(c, [p], t, 1) == c[Idx(p) := t];
    assert c[Idx(p) := t] == b;
    ScanFive(ts, 0);
    assert EvalFrom(c, [p], t, 0, 0) == EvalStone(c, [p], t, 0, 0);
    if Five in ts {
      assert EvalStone(c, [p], t, 0, 0) == Infinity(t);
    } else {
      ScanSum(ts, 0);
      var s := Total(ts);
      assert EvalStone(c, [p], t, 0, 0) == EvalFrom(b, [p], t, 1, Floor(s, t));
    }
  }

  /** An axis on which neither neighbour of p holds p's colour adds nothing. */
  lemma IsolatedAxis(b: Board, p: Coord, a: int)
    requires IsBoard(b) && InBounds(p) && 0 <= a < 4
    requires forall q :: KingStep(p, q) && InBounds(q) ==> b[Idx(q)] != b[Idx(p)]
    ensures AxisTally(b, p, Dir(a), b[Idx(p)]) == Sum(0)
  {
    var d := Dir(a);
    assert KingStep(p, Forward(p, d)) && KingStep(p, Backward(p, d));
  }

  lemma {:induction false} TotalOfZeros(ts: seq<Tally>)
    requires forall k :: 0 <= k < |ts| ==> ts[k] == Sum(0)
    ensures Total(ts) == 0 && Five !in ts
    decreases |ts|
  {
    if ts != [] {
      TotalOfZeros(ts[1..]);
    }
  }

  /** A stone with no neighbour of its own colour scores exactly its multiplier
      (1 for player 0, -0.5 for player 1). */
  lemma IsolatedStone(b: Board, p: Coord)
    requires IsBoard(b) && InBounds(p)
    requires forall q :: KingStep(p, q) && InBounds(q) ==> b[Idx(q)] != b[Idx(p)]
    ensures Evaluation(b, [p]) == Finite(Weight2(b[Idx(p)]))
  {
    var t := b[Idx(p)];
    var ts := AxisTallies(b, p, t);
    forall a | 0 <= a < 4 ensures ts[a] == Sum(0) {
      IsolatedAxis(b, p, a);
    }
    TotalOfZeros(ts);
    SingleStone(b, p);
  }

  /** An open end makes an axis worth strictly more to the stone's owner: more for
      player 0, more negative for player 1, at either end. With four stones, open
      at both ends the axis is worth 512 (doubled), blocked at one end 128. */
  lemma OpenEndWeighsMore(n: int, other: bool, t: int)
    requires 2 <= n <= 4
    ensures t > 0 ==> LineValue(n, true, other, t) < LineValue(n, false, other, t) < 0
    ensures t <= 0 ==> LineValue(n, true, other, t) > LineValue(n, false, other, t) > 0
    ensures t > 0 ==> LineValue(n, other, true, t) < LineValue(n, other, false, t) < 0
    ensures t <= 0 ==> LineValue(n, other, true, t) > LineValue(n, other, false, t) > 0
  {
    assert n == 2 || n == 3 || n == 4;
  }
}
