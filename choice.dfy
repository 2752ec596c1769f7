/** The engine's choice of move (`find_closest_move` and the loop of `ai_move`)
    as functions of the board.

    The engine first picks the empty cell closest to a hint, with the score plus
    infinity and depth 0. It then searches every candidate cell in turn. A
    candidate replaces the current best when its score is lower, or equal with a
    greater depth. A candidate with the same score and the same depth replaces it
    when a coin flip comes up true. The loop stops at once when the best becomes
    minus infinity at the full search depth. */
module Choice {
  import opened Scores
  import opened Boards
  import opened MoveGen
  import opened Evaluator
  import opened GameTree

  function Abs(x: int): nat {
    if x < 0 then -x else x
  }

  /** The Manhattan distance `find_closest_move` measures. */
  function Dist(hint: Coord, m: Coord): (r: nat)
    ensures r == 0 <==> hint == m
  {
    Abs(hint.row - m.row) + Abs(hint.col - m.col)
  }

  /** The position in cells[..n] that `find_closest_move` ends on: a cell
      replaces the best so far only when it is strictly closer. It is -1 when
      there is no cell. */
  function ClosestIndex(cells: seq<Coord>, hint: Coord, n: nat): (k: int)
    requires n <= |cells|
    ensures -1 <= k < n
    ensures n > 0 ==> 0 <= k
    decreases n
  {
    if n == 0 then -1
    else
      var k := ClosestIndex(cells, hint, n - 1);
      if k < 0 || Dist(hint, cells[n - 1]) < Dist(hint, cells[k]) then n - 1 else k
  }

  /** `find_closest_move` on the candidate list cells: the chosen cell, or (-1, -1). */
  function Closest(cells: seq<Coord>, hint: Coord): (r: Coord)
    ensures |cells| == 0 ==> r == Coord(-1, -1)
    ensures |cells| > 0 ==> r in cells
  {
    var k := ClosestIndex(cells, hint, |cells|);
    if k < 0 then Coord(-1, -1) else cells[k]
  }

  /** The cell found is at the least distance in cells[..n], and every cell
      before it is strictly farther: it is the first nearest cell. */
  lemma {:induction false} ClosestIndexIsFirstNearest(cells: seq<Coord>, hint: Coord, n: nat)
    requires 0 < n <= |cells|
    ensures var k := ClosestIndex(cells, hint, n);
      (forall j :: 0 <= j < n ==> Dist(hint, cells[k]) <= Dist(hint, cells[j])) &&
      (forall j :: 0 <= j < k ==> Dist(hint, cells[k]) < Dist(hint, cells[j]))
    decreases n
  {
    if n > 1 {
      ClosestIndexIsFirstNearest(cells, hint, n - 1);
    }
  }

  /** For a cell q that cells lists, the chosen cell is no farther from the
      hint than q, and strictly nearer when q is listed before it. */
  lemma ClosestAmong(cells: seq<Coord>, hint: Coord, q: Coord)
    requires q in cells
    ensures var k := ClosestIndex(cells, hint, |cells|);
      0 <= k < |cells| && Dist(hint, cells[k]) <= Dist(hint, q) &&
      forall j :: 0 <= j < k && cells[j] == q ==> Dist(hint, cells[k]) < Dist(hint, q)
  {
    ClosestIndexIsFirstNearest(cells, hint, |cells|);
    var j :| 0 <= j < |cells| && cells[j] == q;
  }

  /** `find_closest_move(hint)` returns (-1, -1) exactly when no cell is empty. */
  lemma ClosestMoveNone(b: Board, hint: Coord)
    requires WellFormed(b)
    ensures Closest(EmptyCells(b), hint) == Coord(-1, -1) <==> forall q :: !Free(b, q)
  {
    var cells := EmptyCells(b);
    EmptyCellsExact(b);
    if |cells| > 0 {
      assert Free(b, cells[ClosestIndex(cells, hint, |cells|)]);
    } else {
      forall q ensures !Free(b, q) {
        assert q !in cells;
      }
    }
  }

  /** On a board with an empty cell, `find_closest_move(hint)` returns an empty
      cell at the least distance from the hint, and every empty cell before it
      in row-major order is strictly farther. */
  lemma ClosestMoveNearest(b: Board, hint: Coord)
    requires WellFormed(b)
    requires exists q :: Free(b, q)
    ensures var m := Closest(EmptyCells(b), hint);
      Free(b, m) &&
      (forall q :: Free(b, q) ==> Dist(hint, m) <= Dist(hint, q)) &&
      (forall q :: Free(b, q) && Idx(q) < Idx(m) ==> Dist(hint, m) < Dist(hint, q))
  {
    var cells := EmptyCells(b);
    EmptyCellsExact(b);
    var q0 :| Free(b, q0);
    assert q0 in cells;
    var k := ClosestIndex(cells, hint, |cells|);
    var m := cells[k];
    assert Free(b, m);
    forall q | Free(b, q) ensures Dist(hint, m) <= Dist(hint, q) {
      assert q in cells;
      ClosestAmong(cells, hint, q);
    }
    forall q | Free(b, q) && Idx(q) < Idx(m) ensures Dist(hint, m) < Dist(hint, q) {
      assert q in cells;
      var j :| 0 <= j < |cells| && cells[j] == q;
      assert j < k;
      ClosestAmong(cells, hint, q);
    }
  }

  /** The state of the loop of `ai_move`: the best move so far, its score and
      depth, and the number of coin flips made. */
  datatype Choice = Choice(move: Coord, value: Score, depth: int, flips: nat)

  /** The search `ai_move` runs for the candidate m: m taken by cur, the path
      [m], the full window, and the candidate set without m (the neighbours of
      m are not added). */
  function RootOutcome(b: Board, cur: int, aiDepth: nat, onlyClosest: bool, order: SetOrder,
                       possible: set<Coord>, m: Coord): (r: Outcome)
    requires IsBoard(b) && InBounds(m) && AllInBounds(possible) && ValidOrder(order)
    ensures 0 <= r.depth <= aiDepth
  {
    Search(b[Idx(m) := cur], [m], aiDepth, NegInf, PosInf, onlyClosest, Some(possible - {m}), order)
  }

  /** c is at least as good for the engine as the outcome r: a lower score, or
      the same score reached at a depth no smaller. */
  predicate AtLeastAsGood(c: Choice, r: Outcome)
    ensures AtLeastAsGood(c, r) ==> c.value.Le(r.value)
  {
    c.value.Lt(r.value) || (c.value == r.value && r.depth <= c.depth)
  }

  /** The loop of `ai_move` over the candidates todo[i..], from the best choice
      so far: the best score only goes down, and the depth stays a depth the
      search can report. */
  function RootLoop(b: Board, cur: int, aiDepth: nat, onlyClosest: bool, order: SetOrder,
                    coin: nat -> bool, possible: set<Coord>, todo: seq<Coord>, i: nat, best: Choice): (r: Choice)
    requires IsBoard(b) && AllInBounds(possible) && ValidOrder(order) && OrderInBounds(todo) && i <= |todo|
    ensures r.value.Le(best.value)
    ensures 0 <= best.depth <= aiDepth ==> 0 <= r.depth <= aiDepth
    decreases |todo| - i
  {
    if i == |todo| then best
    else
      var m := todo[i];
      var r := RootOutcome(b, cur, aiDepth, onlyClosest, order, possible, m);
      if r.value.Lt(best.value) || (r.value == best.value && r.depth > best.depth) then
        var best' := Choice(m, r.value, r.depth, best.flips);
        if r.value == NegInf && r.depth == aiDepth then best'
        else RootLoop(b, cur, aiDepth, onlyClosest, order, coin, possible, todo, i + 1, best')
      else if r.value == best.value && r.depth == best.depth then
        var best' := Choice(if coin(best.flips) then m else best.move, best.value, best.depth, best.flips + 1);
        RootLoop(b, cur, aiDepth, onlyClosest, order, coin, possible, todo, i + 1, best')
      else
        RootLoop(b, cur, aiDepth, onlyClosest, order, coin, possible, todo, i + 1, best)
  }

  /** The move `ai_move(ai_depth, cur_turn, move_hint, only_closest)` settles on,
      with its score and depth; coin(k) is the k-th `random.randint(0, 1) > 0`. */
  function AiChoice(b: Board, cur: int, aiDepth: nat, hint: Coord, onlyClosest: bool,
                    order: SetOrder, coin: nat -> bool): (r: Choice)
    requires IsBoard(b) && ValidOrder(order)
    ensures 0 <= r.depth <= aiDepth
  {
    var possible := Kids(b, onlyClosest, None);
    OrderOfKids(order, [], possible);
    RootLoop(b, cur, aiDepth, onlyClosest, order, coin, possible, order([], possible), 0,
             Choice(Closest(EmptyCells(b), hint), PosInf, 0, 0))
  }

  /** `ai_move` runs its loop over the candidates from the closest cell with
      the score plus infinity at depth 0. */
  lemma AiChoiceStarts(b: Board, cur: int, aiDepth: nat, hint: Coord, onlyClosest: bool,
                       order: SetOrder, coin: nat -> bool)
    requires IsBoard(b) && ValidOrder(order)
    ensures OrderInBounds(order([], Kids(b, onlyClosest, None)))
    ensures AiChoice(b, cur, aiDepth, hint, onlyClosest, order, coin) ==
      RootLoop(b, cur, aiDepth, onlyClosest, order, coin, Kids(b, onlyClosest, None), order([], Kids(b, onlyClosest, None)), 0,
               Choice(Closest(EmptyCells(b), hint), PosInf, 0, 0))
  {
    OrderOfKids(order, [], Kids(b, onlyClosest, None));
  }

  /** One turn of the loop of `ai_move`. */
  lemma RootLoopStep(b: Board, cur: int, aiDepth: nat, onlyClosest: bool, order: SetOrder,
                     coin: nat -> bool, possible: set<Coord>, todo: seq<Coord>, i: nat, best: Choice)
    requires IsBoard(b) && AllInBounds(possible) && ValidOrder(order) && OrderInBounds(todo) && i < |todo|
    ensures var m := todo[i];
      var r := RootOutcome(b, cur, aiDepth, onlyClosest, order, possible, m);
      RootLoop(b, cur, aiDepth, onlyClosest, order, coin, possible, todo, i, best) ==
        if r.value.Lt(best.value) || (r.value == best.value && r.depth > best.depth) then
          var best' := Choice(m, r.value, r.depth, best.flips);
          if r.value == NegInf && r.depth == aiDepth then best'
          else RootLoop(b, cur, aiDepth, onlyClosest, order, coin, possible, todo, i + 1, best')
        else if r.value == best.value && r.depth == best.depth then
          RootLoop(b, cur, aiDepth, onlyClosest, order, coin, possible, todo, i + 1,
                   Choice(if coin(best.flips) then m else best.move, best.value, best.depth, best.flips + 1))
        else
          RootLoop(b, cur, aiDepth, onlyClosest, order, coin, possible, todo, i + 1, best)
  {
  }

  lemma AtLeastAsGoodTransitive(c: Choice, c': Choice, r: Outcome)
    requires AtLeastAsGood(c, Outcome(c'.value, c'.depth)) && AtLeastAsGood(c', r)
    ensures AtLeastAsGood(c, r)
  {
  }

  /** The loop's result is at least as good as the best so far and as the
      outcome of every candidate it has still to search, including those it
      skips after stopping early. */
  lemma {:induction false} RootLoopOptimal(b: Board, cur: int, aiDepth: nat, onlyClosest: bool,
                                           order: SetOrder, coin: nat -> bool,
                                           possible: set<Coord>, todo: seq<Coord>, i: nat, best: Choice)
    requires IsBoard(b) && AllInBounds(possible) && ValidOrder(order) && OrderInBounds(todo) && i <= |todo|
    requires best.depth <= aiDepth
    ensures var c := RootLoop(b, cur, aiDepth, onlyClosest, order, coin, possible, todo, i, best);
      AtLeastAsGood(c, Outcome(best.value, best.depth)) && c.depth <= aiDepth &&
      forall k :: i <= k < |todo| ==> AtLeastAsGood(c, RootOutcome(b, cur, aiDepth, onlyClosest, order, possible, todo[k]))
    decreases |todo| - i
  {
    if i < |todo| {
      var m := todo[i];
      var r := RootOutcome(b, cur, aiDepth, onlyClosest, order, possible, m);
      var c := RootLoop(b, cur, aiDepth, onlyClosest, order, coin, possible, todo, i, best);
      if r.value.Lt(best.value) || (r.value == best.value && r.depth > best.depth) {
        var best' := Choice(m, r.value, r.depth, best.flips);
        if r.value == NegInf && r.depth == aiDepth {
          assert c == best';
          forall k | i <= k < |todo|
            ensures AtLeastAsGood(c, RootOutcome(b, cur, aiDepth, onlyClosest, order, possible, todo[k]))
          {
            var rk := RootOutcome(b, cur, aiDepth, onlyClosest, order, possible, todo[k]);
            LeTotal(NegInf, rk.value);
          }
        } else {
          RootLoopOptimal(b, cur, aiDepth, onlyClosest, order, coin, possible, todo, i + 1, best');
          AtLeastAsGoodTransitive(c, best', Outcome(best.value, best.depth));
        }
      } else if r.value == best.value && r.depth == best.depth {
        var best' := Choice(if coin(best.flips) then m else best.move, best.value, best.depth, best.flips + 1);
        RootLoopOptimal(b, cur, aiDepth, onlyClosest, order, coin, possible, todo, i + 1, best');
      } else {
        RootLoopOptimal(b, cur, aiDepth, onlyClosest, order, coin, possible, todo, i + 1, best);
        LeTotal(r.value, best.value);
        AtLeastAsGoodTransitive(c, best, r);
      }
    }
  }

  /** The loop's result keeps the best move so far with its score and depth, or
      is a candidate of todo whose outcome is the result's score and depth. */
  lemma {:induction false} RootLoopMove(b: Board, cur: int, aiDepth: nat, onlyClosest: bool,
                                        order: SetOrder, coin: nat -> bool,
                                        possible: set<Coord>, todo: seq<Coord>, i: nat, best: Choice)
    requires IsBoard(b) && AllInBounds(possible) && ValidOrder(order) && OrderInBounds(todo) && i <= |todo|
    ensures var c := RootLoop(b, cur, aiDepth, onlyClosest, order, coin, possible, todo, i, best);
      (c.move == best.move && c.value == best.value && c.depth == best.depth) ||
      (c.move in todo && RootOutcome(b, cur, aiDepth, onlyClosest, order, possible, c.move) == Outcome(c.value, c.depth))
    decreases |todo| - i
  {
    if i < |todo| {
      var m := todo[i];
      var r := RootOutcome(b, cur, aiDepth, onlyClosest, order, possible, m);
      if r.value.Lt(best.value) || (r.value == best.value && r.depth > best.depth) {
        var best' := Choice(m, r.value, r.depth, best.flips);
        if !(r.value == NegInf && r.depth == aiDepth) {
          RootLoopMove(b, cur, aiDepth, onlyClosest, order, coin, possible, todo, i + 1, best');
        }
      } else if r.value == best.value && r.depth == best.depth {
        var best' := Choice(if coin(best.flips) then m else best.move, best.value, best.depth, best.flips + 1);
        RootLoopMove(b, cur, aiDepth, onlyClosest, order, coin, possible, todo, i + 1, best');
      } else {
        RootLoopMove(b, cur, aiDepth, onlyClosest, order, coin, possible, todo, i + 1, best);
      }
    }
  }

  /** `ai_move` picks a move at least as good as every candidate: no candidate
      has a lower score, and none with the same score has a greater depth. */
  lemma AiChoiceOptimal(b: Board, cur: int, aiDepth: nat, hint: Coord, onlyClosest: bool,
                        order: SetOrder, coin: nat -> bool)
    requires IsBoard(b) && ValidOrder(order)
    ensures var c := AiChoice(b, cur, aiDepth, hint, onlyClosest, order, coin);
      var possible := Kids(b, onlyClosest, None);
      c.depth <= aiDepth &&
      forall m :: m in possible ==> AtLeastAsGood(c, RootOutcome(b, cur, aiDepth, onlyClosest, order, possible, m))
  {
    var possible := Kids(b, onlyClosest, None);
    OrderOfKids(order, [], possible);
    var todo := order([], possible);
    var start := Choice(Closest(EmptyCells(b), hint), PosInf, 0, 0);
    RootLoopOptimal(b, cur, aiDepth, onlyClosest, order, coin, possible, todo, 0, start);
    assert Enumerates(todo, possible);
    forall m | m in possible
      ensures AtLeastAsGood(AiChoice(b, cur, aiDepth, hint, onlyClosest, order, coin),
                            RootOutcome(b, cur, aiDepth, onlyClosest, order, possible, m))
    {
      assert m in todo;
      var k :| 0 <= k < |todo| && todo[k] == m;
    }
  }

  /** `ai_move` keeps the closest cell only with the initial score plus infinity
      at depth 0; any other move it returns is a candidate whose search gave
      the returned score and depth. */
  lemma AiChoiceMove(b: Board, cur: int, aiDepth: nat, hint: Coord, onlyClosest: bool,
                     order: SetOrder, coin: nat -> bool)
    requires IsBoard(b) && ValidOrder(order)
    ensures var c := AiChoice(b, cur, aiDepth, hint, onlyClosest, order, coin);
      var possible := Kids(b, onlyClosest, None);
      (c.move == Closest(EmptyCells(b), hint) && c.value == PosInf && c.depth == 0) ||
      (c.move in possible && RootOutcome(b, cur, aiDepth, onlyClosest, order, possible, c.move) == Outcome(c.value, c.depth))
  {
    var possible := Kids(b, onlyClosest, None);
    OrderOfKids(order, [], possible);
    var todo := order([], possible);
    var start := Choice(Closest(EmptyCells(b), hint), PosInf, 0, 0);
    RootLoopMove(b, cur, aiDepth, onlyClosest, order, coin, possible, todo, 0, start);
    assert Enumerates(todo, possible);
  }

  /** When some candidate's search reaches minus infinity at the full depth,
      `ai_move` returns that score and depth. */
  lemma AiChoiceFindsWin(b: Board, cur: int, aiDepth: nat, hint: Coord, onlyClosest: bool,
                         order: SetOrder, coin: nat -> bool, m: Coord)
    requires IsBoard(b) && ValidOrder(order)
    requires m in Kids(b, onlyClosest, None)
    requires RootOutcome(b, cur, aiDepth, onlyClosest, order, Kids(b, onlyClosest, None), m) == Outcome(NegInf, aiDepth)
    ensures var c := AiChoice(b, cur, aiDepth, hint, onlyClosest, order, coin);
      c.value == NegInf && c.depth == aiDepth
  {
    AiChoiceOptimal(b, cur, aiDepth, hint, onlyClosest, order, coin);
  }

  /** The score of each candidate is its exact minimax value: the root's window
      from minus to plus infinity cuts nothing off. */
  lemma RootOutcomeExact(b: Board, cur: int, aiDepth: nat, onlyClosest: bool, order: SetOrder,
                         possible: set<Coord>, m: Coord)
    requires IsBoard(b) && InBounds(m) && AllInBounds(possible) && ValidOrder(order)
    ensures RootOutcome(b, cur, aiDepth, onlyClosest, order, possible, m).value ==
      FullSearch(b[Idx(m) := cur], [m], aiDepth, onlyClosest, Some(possible - {m}), order)
  {
    SearchPrunes(b[Idx(m) := cur], [m], aiDepth, NegInf, PosInf, onlyClosest, Some(possible - {m}), order);
  }
}
