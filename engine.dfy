/** The engine object: the board it updates in place and its methods.

    Every method is proved against the functions of Evaluator, MoveGen,
    GameTree and Choice: it computes what they describe and leaves the board
    as they say. */
module Engine {
  import opened Scores
  import opened Boards
  import opened MoveGen
  import opened Evaluator
  import opened GameTree
  import opened Choice

  /** The Python list `last_moves` that `minimax` extends before each child
      search and shrinks after it. */
  class MoveList {
    var items: seq<Coord>

    constructor (first: Coord)
      ensures items == [first]
    {
      items := [first];
    }

    /** `last_moves.append(c)` */
    method Push(c: Coord)
      modifies this
      ensures items == old(items) + [c]
    {
      items := items + [c];
    }

    /** `last_moves.pop()` */
    method Pop()
      requires |items| > 0
      modifies this
      ensures items == old(items)[..|old(items)| - 1]
    {
      items := items[..|items| - 1];
    }
  }

  /** When the path alternates and c is empty, taking c by the player to move
      extends the alternation. */
  lemma AlternatingExtend(b: Board, moves: seq<Coord>, c: Coord)
    requires IsBoard(b) && Alternating(b, moves) && Free(b, c)
    ensures Alternating(b[Idx(c) := Turn(b, moves)], moves + [c])
  {
    var b' := b[Idx(c) := Turn(b, moves)];
    var m := moves + [c];
    var n := |moves|;
    var b0 := b[Idx(moves[0])];
    assert b[Idx(moves[n - 1])] == (b0 + n - 1) % 2;
    assert Turn(b, moves) == (b0 + n) % 2 by {
      if b0 == 0 {
        assert (b0 + n - 1) % 2 == (n - 1) % 2;
      } else {
        assert (b0 + n - 1) % 2 == n % 2;
      }
    }
    forall k | 0 <= k < n ensures b'[Idx(m[k])] == b[Idx(moves[k])] {
      assert b[Idx(moves[k])] != Empty;
    }
  }

  /** The tally of an axis from what its two walks report. */
  lemma AxisTallyOfWalks(b: Board, p: Coord, d: Coord, t: int, n: int, open1: bool, open2: bool)
    requires IsBoard(b) && Unit(d.row, d.col)
    requires n == 1 + Run(b, Forward(p, d), d, true, t) + Run(b, Backward(p, d), d, false, t)
    requires n < 5 ==> open1 == Free(b, RunEnd(b, Forward(p, d), d, true, t))
    requires n < 5 ==> open2 == Free(b, RunEnd(b, Backward(p, d), d, false, t))
    ensures AxisTally(b, p, d, t) == if n >= 5 then Five else Sum(LineValue(n, open1, open2, t))
  {
  }

  class GomokuEngine {
    /** The 15x15 board, row-major: -1 empty, 0 the user, 1 the engine. */
    var board: array<int>
    /** `positive_directions`: each axis is walked along and against these. */
    const positiveDirections: seq<Coord>
    /** `negative_directions` and `all_directions`, which no method reads. */
    const negativeDirections: seq<Coord>
    const allDirections: seq<Coord>
    /** The number of moves the game loop asks `ai_move` to look ahead. */
    var aiDepth: int

    predicate Valid()
      reads this
    {
      board.Length == CellCount
    }

    /** The direction lists never change, so this holds from construction on. */
    predicate Axes() {
      AreAxes(positiveDirections)
    }

    /** `__init__`: an empty board, the direction lists and a look-ahead of 2. */
    constructor ()
      ensures Valid() && Axes() && fresh(board)
      ensures board[..] == EmptyBoard() && aiDepth == 2
      ensures positiveDirections == PositiveDirections
      ensures negativeDirections == NegativeDirections
      ensures allDirections == PositiveDirections + NegativeDirections
    {
      board := new int[CellCount](_ => Empty);
      positiveDirections := PositiveDirections;
      negativeDirections := NegativeDirections;
      allDirections := PositiveDirections + NegativeDirections;
      aiDepth := 2;
      PositiveDirectionsAreAxes();
    }

    /** `reset_board`: a new empty board. */
    method ResetBoard()
      modifies this
      ensures Valid() && fresh(board)
      ensures board[..] == EmptyBoard() && aiDepth == old(aiDepth)
    {
      board := new int[CellCount](_ => Empty);
    }

    /** `can_move(move)`: whether the cell is empty. */
    method CanMove(m: Coord) returns (r: bool)
      requires Valid() && InBounds(m)
      ensures r <==> Free(board[..], m)
    {
      r := board[Idx(m)] == Empty;
    }

    /** One walk of `evaluate` from p along d (forward) or against it: count
        the stones of colour t after p, starting from n0; report a five as soon
        as the count reaches 5, and otherwise whether the cell that ends the
        walk is empty. */
    method Walk(p: Coord, d: Coord, forward: bool, t: int, n0: int) returns (n: int, open: bool, five: bool)
      requires Valid() && InBounds(p) && Unit(d.row, d.col) && n0 < 5
      ensures var k := Run(board[..], Step(p, d, forward), d, forward, t);
        (five <==> n0 + k >= 5) &&
        (!five ==> n == n0 + k && open == Free(board[..], RunEnd(board[..], Step(p, d, forward), d, forward, t)))
    {
      ghost var b := board[..];
      var cur := p;
      var canMove := true;
      n, open, five := n0, false, false;
      while canMove
        invariant InBounds(cur) && n < 5
        invariant canMove ==> !open
        invariant canMove ==> n0 + Run(b, Step(p, d, forward), d, forward, t) == n + Run(b, Step(cur, d, forward), d, forward, t)
        invariant canMove ==> RunEnd(b, Step(p, d, forward), d, forward, t) == RunEnd(b, Step(cur, d, forward), d, forward, t)
        invariant !canMove ==> n == n0 + Run(b, Step(p, d, forward), d, forward, t)
        invariant !canMove ==> open == Free(b, RunEnd(b, Step(p, d, forward), d, forward, t))
        decreases if canMove then 1 else 0, Reach(cur, d, forward)
      {
        var next := Step(cur, d, forward);
        if !InBounds(next) {
          canMove := false;
        } else if board[Idx(next)] == t {
          n := n + 1;
          if n >= 5 {
            five := true;
            return;
          }
          ReachStep(cur, d, forward);
          cur := next;
        } else {
          if board[Idx(next)] == Empty {
            open := true;
          }
          canMove := false;
        }
      }
    }

    /** Writes moves[0], moves[1], ... with the alternating colours from init:
        the loop `evaluate` runs before each of its returns. */
    method Replay(moves: seq<Coord>, init: int)
      requires Valid() && MovesInBounds(moves)
      modifies board
      ensures board[..] == Placed(old(board[..]), moves, init, |moves|)
    {
      ghost var b := board[..];
      var s := init;
      var k := 0;
      while k < |moves|
        invariant 0 <= k <= |moves|
        invariant s == Alt(init, k)
        invariant board[..] == Placed(b, moves, init, k)
      {
        board[Idx(moves[k])] := s;
        AltNext(init, k);
        s := (s + 1) % 2;
        k := k + 1;
      }
    }

    /** The first loop of `evaluate`: every cell of the move list set to -1. */
    method ClearMoves(moves: seq<Coord>)
      requires Valid() && MovesInBounds(moves)
      modifies board
      ensures board[..] == Cleared(old(board[..]), moves)
    {
      ghost var b := board[..];
      var i := 0;
      while i < |moves|
        invariant 0 <= i <= |moves|
        invariant board[..] == ClearFirst(b, moves, i)
      {
        board[Idx(moves[i])] := Empty;
        i := i + 1;
      }
    }

    /** The body of the loop over `positive_directions` for the stone at p of
        colour turn and the direction dir: the walk along dir, the walk against
        it, then `mul_blocked` and the term the axis adds (doubled). five
        reports a run of five or more. */
    method ScoreAxis(p: Coord, dir: Coord, turn: int) returns (five: bool, value: int)
      requires Valid() && InBounds(p) && Unit(dir.row, dir.col)
      ensures AxisTally(board[..], p, dir, turn) == if five then Five else Sum(value)
    {
      var multiplier := 2;
      if turn > 0 {
        multiplier := -1;
      }
      value := 0;
      ghost var b := board[..];
      ghost var k1 := Run(b, Forward(p, dir), dir, true, turn);
      ghost var k2 := Run(b, Backward(p, dir), dir, false, turn);
      var lineCount, open1, open2;
      lineCount, open1, five := Walk(p, dir, true, turn, 1);
      if five {
        AxisTallyOfWalks(b, p, dir, turn, 1 + k1 + k2, false, false);
        return;
      }
      lineCount, open2, five := Walk(p, dir, false, turn, lineCount);
      AxisTallyOfWalks(b, p, dir, turn, 1 + k1 + k2, open1, open2);
      if five {
        return;
      }
      var mulBlocked := 1;
      if lineCount == 4 {
        mulBlocked := 4;
      } else if lineCount == 3 {
        mulBlocked := 2;
      }
      if open1 {
        mulBlocked := mulBlocked * lineCount;
      }
      if open2 {
        mulBlocked := mulBlocked * lineCount;
      }
      LineValueIsProduct(lineCount, open1, open2, turn);
      if lineCount > 1 {
        value := multiplier * lineCount * mulBlocked;
      }
    }

    /** The loop over `positive_directions` for the stone at p, adding to the
        running evaluation acc; five reports that some axis has a run of five. */
    method ScoreStone(p: Coord, turn: int, acc: int) returns (five: bool, evaluation: int)
      requires Valid() && Axes() && InBounds(p)
      ensures Scan(AxisTallies(board[..], p, turn), acc) == if five then Five else Sum(evaluation)
    {
      ghost var ts := AxisTallies(board[..], p, turn);
      evaluation := acc;
      five := false;
      var a := 0;
      assert ts[0..] == ts;
      while a < |positiveDirections|
        invariant 0 <= a <= |positiveDirections| == 4 && !five
        invariant Scan(ts, acc) == Scan(ts[a..], evaluation)
      {
        five, evaluation := ScoreAxisAt(p, turn, a, evaluation);
        if five {
          break;
        }
        a := a + 1;
      }
    }

    /** One pass of the loop over `positive_directions`: the axis a of the
        stone at p, a five or its value added to the running evaluation. */
    method ScoreAxisAt(p: Coord, turn: int, a: nat, evaluation: int) returns (five: bool, evaluation': int)
      requires Valid() && Axes() && InBounds(p) && a < 4
      ensures var ts := AxisTallies(board[..], p, turn);
        Scan(ts[a..], evaluation) == if five then Five else Scan(ts[a + 1..], evaluation')
    {
      assert positiveDirections[a] == Dir(a);
      var value;
      five, value := ScoreAxis(p, positiveDirections[a], turn);
      TallyScan(board[..], p, turn, a, evaluation, five, value);
      evaluation' := evaluation + value;
    }

    /** `evaluate(last_moves)`: the score of the move list, leaving every cell
        of it rewritten with the alternating colours. */
    method Evaluate(moves: seq<Coord>) returns (score: Score)
      requires Valid() && Axes() && MovesInBounds(moves) && |moves| > 0
      modifies board
      ensures score == Evaluation(old(board[..]), moves)
      ensures board[..] == Replayed(old(board[..]), moves)
    {
      ghost var b0 := board[..];
      var init := board[Idx(moves[0])];
      ClearMoves(moves);
      score := ScoreMoves(b0, moves, init);
    }

    /** The second loop of `evaluate`, once the move cells of the board b0 it
        was called on are cleared: the stones put back one by one with
        alternating colours and scored, up to the first that completes five. */
    method ScoreMoves(ghost b0: Board, moves: seq<Coord>, init: int) returns (score: Score)
      requires Valid() && Axes() && MovesInBounds(moves) && IsBoard(b0) && |moves| > 0
      requires init == FirstColour(b0, moves) && board[..] == Cleared(b0, moves)
      modifies board
      ensures score == Evaluation(b0, moves)
      ensures board[..] == Replayed(b0, moves)
    {
      var moveSwitch := init;
      var evaluation := 0;
      var j := 0;
      while j < |moves|
        invariant 0 <= j <= |moves|
        invariant moveSwitch == Alt(init, j)
        invariant board[..] == Placed(Cleared(b0, moves), moves, init, j)
        invariant Evaluation(b0, moves) == EvalFrom(board[..], moves, init, j, evaluation)
      {
        var five;
        five, evaluation := EvalTurn(b0, moves, init, j, moveSwitch, evaluation);
        if five {
          return Infinity(moveSwitch);
        }
        AltNext(init, j);
        moveSwitch := (moveSwitch + 1) % 2;
        j := j + 1;
      }
      ClearedThenPlaced(b0, moves);
      score := Finite(evaluation);
    }

    /** One turn of the loop of `evaluate` on the board b0 it was called on:
        stone j scored by ScoreMove, and the early return's restoring loop
        when it completes five, which leaves the board the move list replayed
        on b0. */
    method EvalTurn(ghost b0: Board, moves: seq<Coord>, init: int, j: nat, moveSwitch: int, acc: int)
      returns (five: bool, evaluation: int)
      requires Valid() && Axes() && MovesInBounds(moves) && IsBoard(b0) && j < |moves|
      requires init == FirstColour(b0, moves) && moveSwitch == Alt(init, j)
      requires board[..] == Placed(Cleared(b0, moves), moves, init, j)
      modifies board
      ensures five ==>
        board[..] == Replayed(b0, moves) && EvalFrom(old(board[..]), moves, init, j, acc) == Infinity(moveSwitch)
      ensures !five ==>
        board[..] == Placed(Cleared(b0, moves), moves, init, j + 1) &&
        EvalFrom(old(board[..]), moves, init, j, acc) == EvalFrom(board[..], moves, init, j + 1, evaluation)
    {
      five, evaluation := ScoreMove(moves, init, j, moveSwitch, acc);
      if five {
        Replay(moves, init);
        EarlyReturnReplays(b0, moves, j);
      }
    }

    /** One turn of the loop of `evaluate` over the move list: stone j is put
        back with the colour moveSwitch and scored from the running total acc;
        a total of 0 then becomes the stone's multiplier. */
    method ScoreMove(moves: seq<Coord>, init: int, j: nat, moveSwitch: int, acc: int) returns (five: bool, evaluation: int)
      requires Valid() && Axes() && MovesInBounds(moves) && j < |moves| && moveSwitch == Alt(init, j)
      modifies board
      ensures board[..] == old(board[..])[Idx(moves[j]) := moveSwitch]
      ensures EvalFrom(old(board[..]), moves, init, j, acc) ==
        if five then Infinity(moveSwitch) else EvalFrom(board[..], moves, init, j + 1, evaluation)
    {
      var p := moves[j];
      board[Idx(p)] := moveSwitch;
      var turn := board[Idx(p)];
      five, evaluation := ScoreStone(p, turn, acc);
      if !five && evaluation == 0 {
        evaluation := Weight2(turn);
      }
    }

    /** `get_all_neigh_possible_moves(position)`. */
    method GetAllNeighPossibleMoves(p: Coord) returns (result: seq<Coord>)
      requires Valid() && Axes()
      ensures result == NeighbourMoves(board[..], p)
    {
      ghost var b := board[..];
      result := [];
      var a := 0;
      while a < 4
        invariant 0 <= a <= 4
        invariant result + NeighboursFrom(b, p, a) == NeighboursFrom(b, p, 0)
      {
        var here := AxisNeighbourMoves(p, positiveDirections[a]);
        assert result + (here + NeighboursFrom(b, p, a + 1)) == (result + here) + NeighboursFrom(b, p, a + 1);
        result := result + here;
        a := a + 1;
      }
    }

    /** One pass of the loop in `get_all_neigh_possible_moves`: the empty
        cells one step along d and one step against it. */
    method AxisNeighbourMoves(p: Coord, d: Coord) returns (here: seq<Coord>)
      requires Valid()
      ensures here == AxisNeighbours(board[..], p, d)
    {
      here := [];
      var q := Forward(p, d);
      if InBounds(q) && board[Idx(q)] == Empty {
        here := here + [q];
      }
      q := Backward(p, d);
      if InBounds(q) && board[Idx(q)] == Empty {
        here := here + [q];
      }
    }

    /** `getChildren(only_closest_moves)`: every empty cell, or the empty
        neighbours of every stone, in row-major order of the cells scanned. */
    method GetChildren(onlyClosest: bool) returns (positions: seq<Coord>)
      requires Valid() && Axes()
      ensures positions == Children(board[..], onlyClosest)
    {
      ghost var b := board[..];
      positions := [];
      var i := 0;
      if !onlyClosest {
        while i < CellCount
          invariant 0 <= i <= CellCount
          invariant positions == EmptyUpTo(b, i)
        {
          if board[i] < 0 {
            positions := positions + [CoordOf(i)];
          }
          i := i + 1;
        }
      } else {
        while i < CellCount
          invariant 0 <= i <= CellCount
          invariant positions == AdjacentUpTo(b, i)
        {
          if board[i] >= 0 {
            var buf := GetAllNeighPossibleMoves(CoordOf(i));
            positions := positions + buf;
          }
          i := i + 1;
        }
      }
    }

    /** `find_closest_move(move_hint)`: the first empty cell at the least
        Manhattan distance from the hint, or (-1, -1). */
    method FindClosestMove(hint: Coord) returns (minMove: Coord)
      requires Valid() && Axes()
      ensures minMove == Closest(EmptyCells(board[..]), hint)
    {
      var possibleMoves := GetChildren(false);
      // found == false stands for the source's min_dist == float('inf')
      var found := false;
      var minDist := 0;
      minMove := Coord(-1, -1);
      var k := 0;
      while k < |possibleMoves|
        invariant 0 <= k <= |possibleMoves|
        invariant found <==> k > 0
        invariant var idx := ClosestIndex(possibleMoves, hint, k);
          minMove == (if idx < 0 then Coord(-1, -1) else possibleMoves[idx]) &&
          (found ==> minDist == Dist(hint, possibleMoves[idx]))
      {
        var move := possibleMoves[k];
        var dist := Abs(hint.row - move.row) + Abs(hint.col - move.col);
        if !found || dist < minDist {
          found := true;
          minDist := dist;
          minMove := move;
        }
        k := k + 1;
      }
    }

    /** `minimax(last_moves, d, min_val, max_val, only_closest, children)`:
        the value and depth of Search, with the board and the move list as
        they were. */
    method Minimax(path: MoveList, d: nat, lo: Score, hi: Score, onlyClosest: bool,
                   children: Option<set<Coord>>, order: SetOrder)
      returns (value: Score, depth: int)
      requires Valid() && Axes() && Alternating(board[..], path.items)
      requires ChildrenInBounds(children) && ValidOrder(order)
      modifies board, path
      ensures board[..] == old(board[..]) && path.items == old(path.items)
      ensures Outcome(value, depth) == Search(old(board[..]), old(path.items), d, lo, hi, onlyClosest, children, order)
      decreases d, 2
    {
      ghost var B := board[..];
      ghost var P := path.items;
      if d == 0 {
        value := Leaf(path.items);
        depth := 0;
        return;
      }
      var turn, cur, todo := Enter(path, d, lo, hi, onlyClosest, children, order);
      var v := if turn == 0 then lo else hi;
      var d1 := d;
      var i := 0;
      while i < |todo|
        invariant 0 <= i <= |todo|
        invariant board[..] == B && path.items == P
        invariant AllInBounds(cur) && 0 <= d1 <= d
        invariant Loop(B, P, d, lo, hi, onlyClosest, order, turn, todo, i, cur, v, d1) ==
          Search(B, P, d, lo, hi, onlyClosest, children, order)
        decreases |todo| - i
      {
        var stop;
        stop, v, d1, cur := NodeStep(path, d, lo, hi, onlyClosest, order, turn, todo, i, cur, v, d1);
        if stop {
          return v, d1;
        }
        i := i + 1;
      }
      return v, d1;
    }

    /** The leaf of `minimax` (depth 0): the evaluation of the move list.
        Evaluating rewrites the cells of the list with the alternating colours,
        which on an alternating list are the colours already there. */
    method Leaf(moves: seq<Coord>) returns (value: Score)
      requires Valid() && Axes() && Alternating(board[..], moves)
      modifies board
      ensures board[..] == old(board[..])
      ensures value == Evaluation(old(board[..]), moves)
    {
      ghost var B := board[..];
      value := Evaluate(moves);
      ReplayIdentity(B, moves);
    }

    /** The set-up of an inner node of `minimax`: the player to move after the
        last stone of the list, the candidate set (the one passed in, or
        `getChildren`) and the order the loop visits it in. */
    method Enter(path: MoveList, d: nat, lo: Score, hi: Score, onlyClosest: bool,
                 children: Option<set<Coord>>, order: SetOrder)
      returns (turn: int, kids: set<Coord>, todo: seq<Coord>)
      requires Valid() && Axes() && Alternating(board[..], path.items) && d > 0
      requires ChildrenInBounds(children) && ValidOrder(order)
      ensures turn == Turn(board[..], path.items)
      ensures kids == Kids(board[..], onlyClosest, children)
      ensures AllInBounds(kids) && OrderInBounds(todo)
      ensures Search(board[..], path.items, d, lo, hi, onlyClosest, children, order) ==
        Loop(board[..], path.items, d, lo, hi, onlyClosest, order, turn, todo, 0, kids, if turn == 0 then lo else hi, d)
    {
      var last := path.items[|path.items| - 1];
      turn := (board[Idx(last)] + 1) % 2;
      kids := Candidates(onlyClosest, children);
      SearchEnters(board[..], path.items, d, lo, hi, onlyClosest, children, order);
      todo := order(path.items, kids);
    }

    /** The set an inner node of `minimax` iterates: the one passed in, or
        `set(self.getChildren(only_closest))` when there is none. */
    method Candidates(onlyClosest: bool, children: Option<set<Coord>>) returns (kids: set<Coord>)
      requires Valid() && Axes() && ChildrenInBounds(children)
      ensures kids == Kids(board[..], onlyClosest, children)
    {
      if children.None? {
        var cs := GetChildren(onlyClosest);
        kids := ToSet(cs);
      } else {
        kids := children.value;
      }
    }

    /** One pass of the loop of `minimax` over the candidate todo[i]: an
        occupied cell is skipped; otherwise the child is searched, v moves
        towards its value, and the loop stops with hi (max node) or lo (min
        node) when the window closes. */
    method NodeStep(path: MoveList, d: nat, lo: Score, hi: Score, onlyClosest: bool,
                    order: SetOrder, turn: int, todo: seq<Coord>, i: nat,
                    cur: set<Coord>, v: Score, d1: int)
      returns (stop: bool, v': Score, d1': int, cur': set<Coord>)
      requires Valid() && Axes() && Alternating(board[..], path.items) && d > 0
      requires turn == Turn(board[..], path.items)
      requires ValidOrder(order) && AllInBounds(cur) && OrderInBounds(todo) && i < |todo|
      requires 0 <= d1 <= d
      modifies board, path
      ensures board[..] == old(board[..]) && path.items == old(path.items)
      ensures AllInBounds(cur') && 0 <= d1' <= d
      ensures Loop(old(board[..]), old(path.items), d, lo, hi, onlyClosest, order, turn, todo, i, cur, v, d1) ==
        if stop then Outcome(v', d1')
        else Loop(old(board[..]), old(path.items), d, lo, hi, onlyClosest, order, turn, todo, i + 1, cur', v', d1')
      decreases d, 1
    {
      LoopStep(board[..], path.items, d, lo, hi, onlyClosest, order, turn, todo, i, cur, v, d1);
      if board[Idx(todo[i])] != Empty {
        return false, v, d1, cur;
      }
      ghost var B := board[..];
      ghost var c := todo[i];
      ChildOutcomeIs(B, path.items, d, lo, hi, onlyClosest, order, turn, todo, i, cur, v,
                     B[Idx(c) := turn], path.items + [c], Inner(B[Idx(c) := turn], cur, c));
      var v1;
      v1, d1', cur' := TryChild(path, d, lo, hi, onlyClosest, order, turn, todo, i, cur, v);
      v' := v;
      stop := false;
      if turn == 0 {
        if v.Lt(v1) {
          v' := v1;
        }
        if hi.Le(v') {
          stop, v' := true, hi;
        }
      } else {
        if v1.Lt(v) {
          v' := v1;
        }
        if v'.Le(lo) {
          stop, v' := true, lo;
        }
      }
    }

    /** The body of the loop of `minimax` for an empty candidate c = todo[i]:
        take c, drop it from the candidate set and add its empty neighbours,
        extend the move list, search the child with the window narrowed on
        the side of v, then undo the move list, take the neighbours out of the
        set again, put c back in it and clear the cell. */
    method TryChild(path: MoveList, d: nat, lo: Score, hi: Score, onlyClosest: bool,
                    order: SetOrder, turn: int, todo: seq<Coord>, i: nat,
                    cur: set<Coord>, v: Score)
      returns (v1: Score, d1: int, next: set<Coord>)
      requires Valid() && Axes() && Alternating(board[..], path.items) && d > 0
      requires turn == Turn(board[..], path.items)
      requires ValidOrder(order) && AllInBounds(cur) && OrderInBounds(todo) && i < |todo|
      requires board[Idx(todo[i])] == Empty
      modifies board, path
      ensures board[..] == old(board[..]) && path.items == old(path.items)
      ensures MovesInBounds(old(path.items) + [todo[i]])
      ensures Outcome(v1, d1) == Search(old(board[..])[Idx(todo[i]) := turn], old(path.items) + [todo[i]], d - 1,
        if turn == 0 then v else lo, if turn == 0 then hi else v, onlyClosest,
        Some(Inner(old(board[..])[Idx(todo[i]) := turn], cur, todo[i])), order)
      ensures next == Restored(old(board[..])[Idx(todo[i]) := turn], cur, todo[i])
      decreases d, 0
    {
      ghost var B := board[..];
      ghost var P := path.items;
      var c := todo[i];
      AlternatingExtend(B, P, c);
      var buf;
      next, buf := Take(c, turn, cur);
      v1, d1 := Descend(path, c, d - 1, if turn == 0 then v else lo, if turn == 0 then hi else v,
                        onlyClosest, next, order);
      next := Untake(B, turn, c, buf, next);
    }

    /** The first half of the loop body of `minimax`: c taken by the player to
        move, c dropped from the candidate set and its empty neighbours added
        (returned in buf, so that they can be taken out again). */
    method Take(c: Coord, turn: int, cur: set<Coord>) returns (next: set<Coord>, buf: seq<Coord>)
      requires Valid() && Axes() && InBounds(c) && AllInBounds(cur)
      modifies board
      ensures board[..] == old(board[..])[Idx(c) := turn]
      ensures buf == NeighbourMoves(board[..], c)
      ensures next == Inner(board[..], cur, c)
    {
      board[Idx(c)] := turn;
      next := cur - {c};
      buf := GetAllNeighPossibleMoves(c);
      next := next + ToSet(buf);
    }

    /** The second half of the loop body of `minimax`: the neighbours in buf
        dropped from the candidate set, c put back into it, and the cell of c
        emptied again, which gives back the board B the loop body started on. */
    method Untake(ghost B: Board, ghost t: int, c: Coord, buf: seq<Coord>, next: set<Coord>)
      returns (next': set<Coord>)
      requires Valid() && IsBoard(B) && InBounds(c) && B[Idx(c)] == Empty
      requires board[..] == B[Idx(c) := t]
      modifies board
      ensures board[..] == B
      ensures next' == (next - ToSet(buf)) + {c}
    {
      next' := next - ToSet(buf);
      next' := next' + {c};
      board[Idx(c)] := Empty;
      assert board[..] == B;
    }

    /** The recursive call of `minimax` with c appended to the move list,
        which is popped again afterwards. */
    method Descend(path: MoveList, c: Coord, d: nat, lo: Score, hi: Score, onlyClosest: bool,
                   next: set<Coord>, order: SetOrder)
      returns (v1: Score, d1: int)
      requires Valid() && Axes() && Alternating(board[..], path.items + [c])
      requires AllInBounds(next) && ValidOrder(order)
      modifies board, path
      ensures board[..] == old(board[..]) && path.items == old(path.items)
      ensures MovesInBounds(old(path.items) + [c])
      ensures Outcome(v1, d1) == Search(old(board[..]), old(path.items) + [c], d, lo, hi, onlyClosest, Some(next), order)
      decreases d, 3
    {
      ghost var P := path.items;
      path.Push(c);
      v1, d1 := Minimax(path, d, lo, hi, onlyClosest, Some(next), order);
      path.Pop();
      assert path.items == P;
    }

    /** `ai_move(ai_depth, cur_turn, move_hint, only_closest, for_profiler)`:
        the move of AiChoice, put on the board unless `for_profiler` is set,
        and the evaluation of that one move. coin(k) stands for the k-th
        `random.randint(0, 1) > 0`. */
    method AiMove(depth: nat, curTurn: int, hint: Coord, onlyClosest: bool, forProfiler: bool,
                  order: SetOrder, coin: nat -> bool)
      returns (lastEval: Score, bestMove: Coord)
      requires Valid() && Axes() && WellFormed(board[..]) && ValidOrder(order)
      requires 0 <= curTurn <= 1
      requires exists q :: Free(board[..], q)
      modifies board
      ensures bestMove == AiChoice(old(board[..]), curTurn, depth, hint, onlyClosest, order, coin).move
      ensures Free(old(board[..]), bestMove)
      ensures board[..] == if forProfiler then old(board[..]) else old(board[..])[Idx(bestMove) := curTurn]
      ensures lastEval == Evaluation(board[..], [bestMove])
    {
      ghost var B := board[..];
      var possibleMoves, todo;
      bestMove, possibleMoves, todo := RootEnter(depth, curTurn, hint, onlyClosest, order, coin);
      var bestEvaluation := PosInf;
      var bestD := 0;
      var flips := 0;
      var i := 0;
      while i < |todo|
        invariant 0 <= i <= |todo|
        invariant board[..] == B
        invariant RootLoop(B, curTurn, depth, onlyClosest, order, coin, possibleMoves, todo, i,
                           Choice(bestMove, bestEvaluation, bestD, flips)) ==
          AiChoice(B, curTurn, depth, hint, onlyClosest, order, coin)
        invariant Free(B, bestMove)
        decreases |todo| - i
      {
        var stop;
        stop, bestMove, bestEvaluation, bestD, flips :=
          RootStep(depth, curTurn, onlyClosest, order, coin, possibleMoves, todo, i,
                   bestMove, bestEvaluation, bestD, flips);
        if stop {
          break;
        }
        i := i + 1;
      }
      lastEval := PlaceAndScore(bestMove, curTurn, forProfiler);
    }

    /** The set-up of `ai_move`: the closest empty cell to the hint as the
        first best move, the candidate set `set(self.getChildren(only_closest))`
        and the order the loop visits it in. */
    method RootEnter(depth: nat, curTurn: int, hint: Coord, onlyClosest: bool,
                     order: SetOrder, coin: nat -> bool)
      returns (bestMove: Coord, possibleMoves: set<Coord>, todo: seq<Coord>)
      requires Valid() && Axes() && WellFormed(board[..]) && ValidOrder(order)
      requires exists q :: Free(board[..], q)
      ensures Free(board[..], bestMove)
      ensures AllInBounds(possibleMoves) && OrderInBounds(todo) && Enumerates(todo, possibleMoves)
      ensures forall q :: q in possibleMoves ==> Free(board[..], q)
      ensures RootLoop(board[..], curTurn, depth, onlyClosest, order, coin, possibleMoves, todo, 0,
                       Choice(bestMove, PosInf, 0, 0)) ==
        AiChoice(board[..], curTurn, depth, hint, onlyClosest, order, coin)
    {
      bestMove := FindClosestMove(hint);
      ClosestMoveNearest(board[..], hint);
      possibleMoves := Candidates(onlyClosest, None);
      KidsFree(board[..], onlyClosest);
      AiChoiceStarts(board[..], curTurn, depth, hint, onlyClosest, order, coin);
      todo := order([], possibleMoves);
    }

    /** The end of `ai_move`: the move is put on the board unless
        `for_profiler` is set, and `evaluate([best_move])` is returned; on the
        single-stone list the evaluator writes back the colour already there. */
    method PlaceAndScore(move: Coord, curTurn: int, forProfiler: bool) returns (lastEval: Score)
      requires Valid() && Axes() && InBounds(move)
      modifies board
      ensures board[..] == if forProfiler then old(board[..]) else old(board[..])[Idx(move) := curTurn]
      ensures lastEval == Evaluation(board[..], [move])
    {
      if !forProfiler {
        board[Idx(move)] := curTurn;
      }
      SingleReplayIdentity(board[..], move);
      lastEval := Evaluate([move]);
    }

    /** One pass of the loop of `ai_move` over the candidate todo[i]: search it,
        then keep it when it scores lower, or as low at a larger depth (and stop
        on a certain win at full depth), or toss the coin on a full tie. */
    method RootStep(depth: nat, curTurn: int, onlyClosest: bool, order: SetOrder,
                    coin: nat -> bool, possibleMoves: set<Coord>, todo: seq<Coord>, i: nat,
                    bestMove: Coord, bestEvaluation: Score, bestD: int, flips: nat)
      returns (stop: bool, move': Coord, evaluation': Score, d': int, flips': nat)
      requires Valid() && Axes() && 0 <= curTurn <= 1 && ValidOrder(order)
      requires AllInBounds(possibleMoves) && OrderInBounds(todo) && i < |todo| && todo[i] in possibleMoves
      requires forall q :: q in possibleMoves ==> Free(board[..], q)
      modifies board
      ensures board[..] == old(board[..])
      ensures Free(board[..], bestMove) ==> Free(board[..], move')
      ensures RootLoop(old(board[..]), curTurn, depth, onlyClosest, order, coin, possibleMoves, todo, i,
                       Choice(bestMove, bestEvaluation, bestD, flips)) ==
        if stop then Choice(move', evaluation', d', flips')
        else RootLoop(old(board[..]), curTurn, depth, onlyClosest, order, coin, possibleMoves, todo, i + 1,
                      Choice(move', evaluation', d', flips'))
    {
      RootLoopStep(board[..], curTurn, depth, onlyClosest, order, coin, possibleMoves, todo, i,
                   Choice(bestMove, bestEvaluation, bestD, flips));
      var move := todo[i];
      var evaluation, d1 := TryRootMove(move, depth, curTurn, onlyClosest, possibleMoves, order);
      stop, move', evaluation', d', flips' := false, bestMove, bestEvaluation, bestD, flips;
      if evaluation.Lt(bestEvaluation) || (evaluation == bestEvaluation && d1 > bestD) {
        move', evaluation', d' := move, evaluation, d1;
        stop := evaluation' == NegInf && d' == depth;
      } else if evaluation == bestEvaluation && d1 == bestD {
        if coin(flips) {
          move' := move;
        }
        flips' := flips + 1;
      }
    }

    /** The body of the loop of `ai_move` for the candidate move: take it,
        search with the path [move], the full window and the candidate set
        without move, then clear the cell again. */
    method TryRootMove(move: Coord, depth: nat, curTurn: int, onlyClosest: bool,
                       possibleMoves: set<Coord>, order: SetOrder)
      returns (evaluation: Score, d1: int)
      requires Valid() && Axes() && Free(board[..], move) && 0 <= curTurn <= 1
      requires AllInBounds(possibleMoves) && ValidOrder(order)
      modifies board
      ensures board[..] == old(board[..])
      ensures Outcome(evaluation, d1) == RootOutcome(old(board[..]), curTurn, depth, onlyClosest, order, possibleMoves, move)
    {
      ghost var B := board[..];
      board[Idx(move)] := curTurn;
      assert Alternating(board[..], [move]);
      var path := new MoveList(move);
      evaluation, d1 := Minimax(path, depth, NegInf, PosInf, onlyClosest, Some(possibleMoves - {move}), order);
      board[Idx(move)] := Empty;
      assert board[..] == B;
    }

    /** `user_move(cur_turn, cur_move)`: the stone put on the board and the
        evaluation of that one move. */
    method UserMove(curTurn: int, m: Coord) returns (lastEval: Score)
      requires Valid() && Axes() && InBounds(m)
      modifies board
      ensures board[..] == old(board[..])[Idx(m) := curTurn]
      ensures lastEval == Evaluation(board[..], [m])
    {
      board[Idx(m)] := curTurn;
      ghost var b := board[..];
      lastEval := Evaluate([m]);
      SingleReplayIdentity(b, m);
    }
  }
}
