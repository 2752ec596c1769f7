/** The game-tree search (`minimax`) as a function of the board.

    A node at depth d > 0 is a max node when the player to move is the user (0)
    and a min node when it is the engine (1); the player to move is the one
    after the owner of the last stone of the path. The node iterates a set of
    candidate cells in an order the model does not fix, skips cells that are
    not empty, and for every other cell searches the child with that cell
    taken, the cell removed from the candidate set and its empty neighbours
    added. The source prunes with an alpha-beta window; `FullSearch` is the
    same tree without the window, and `SearchPrunes` shows the window only
    clamps the exact value. */
module GameTree {
  import opened Scores
  import opened Boards
  import opened MoveGen
  import opened Evaluator

  datatype Option<T> = None | Some(value: T)

  /** What minimax returns: a value and the depth reported with it. */
  datatype Outcome = Outcome(value: Score, depth: int)

  /** q lists the members of s, each exactly once. */
  predicate Enumerates(q: seq<Coord>, s: set<Coord>) {
    (forall k :: 0 <= k < |q| ==> q[k] in s) &&
    (forall c :: c in s ==> c in q) &&
    (forall k, l :: 0 <= k < l < |q| ==> q[k] != q[l])
  }

  /** The iteration order of the Python sets the search walks, which the model
      leaves open: order(path, s) is the order in which the node reached by the
      move list path visits the set s (the loop of `ai_move` is the empty
      path). CPython's order depends on how a set was built as well as on its
      members, and that history is fixed by the path from the root. */
  type SetOrder = (seq<Coord>, set<Coord>) -> seq<Coord>

  /** An order lists the members of each set once, at every node. */
  ghost predicate ValidOrder(order: SetOrder) {
    forall path, s :: Enumerates(order(path, s), s)
  }

  predicate AllInBounds(s: set<Coord>) {
    forall c :: c in s ==> InBounds(c)
  }

  predicate ChildrenInBounds(children: Option<set<Coord>>) {
    children.Some? ==> AllInBounds(children.value)
  }

  /** The set a node iterates: the one passed in, or `set(getChildren(only_closest))`. */
  function Kids(b: Board, onlyClosest: bool, children: Option<set<Coord>>): (r: set<Coord>)
    requires IsBoard(b) && ChildrenInBounds(children)
    ensures AllInBounds(r)
  {
    if children.Some? then children.value
    else
      ChildSetOnBoard(b, onlyClosest);
      ToSet(Children(b, onlyClosest))
  }

  /** A node that builds its own candidate set, and the root, take only empty
      cells of a well-formed board. */
  lemma KidsFree(b: Board, onlyClosest: bool)
    requires WellFormed(b)
    ensures forall q :: q in Kids(b, onlyClosest, None) ==> Free(b, q)
  {
    ChildSetOnBoard(b, onlyClosest);
    if !onlyClosest {
      ToSetMembers(Children(b, onlyClosest));
      EmptyCellsExact(b);
    }
  }

  /** The player to move after the path: `(board[last_move] + 1) % 2`. */
  function Turn(b: Board, moves: seq<Coord>): (t: int)
    requires IsBoard(b) && MovesInBounds(moves) && |moves| > 0
    ensures t == 0 || t == 1
  {
    (b[Idx(moves[|moves| - 1])] + 1) % 2
  }

  /** The candidate set of the child searched after c is taken: c removed and
      the empty neighbours of c (on the board with c taken) added. */
  function Inner(b': Board, cur: set<Coord>, c: Coord): (r: set<Coord>)
    requires IsBoard(b') && AllInBounds(cur)
    ensures AllInBounds(r)
  {
    NeighbourSetFree(b', c);
    (cur - {c}) + ToSet(NeighbourMoves(b', c))
  }

  /** The candidate set after the child returns: the neighbours removed again
      and c put back. */
  function Restored(b': Board, cur: set<Coord>, c: Coord): (r: set<Coord>)
    requires IsBoard(b') && AllInBounds(cur) && InBounds(c)
    ensures AllInBounds(r)
  {
    (Inner(b', cur, c) - ToSet(NeighbourMoves(b', c))) + {c}
  }

  /** The undo does not give back the set the node had: a candidate that was
      also an empty neighbour of c is removed with the neighbours. */
  lemma RestoredMembers(b': Board, cur: set<Coord>, c: Coord, q: Coord)
    requires IsBoard(b') && AllInBounds(cur) && InBounds(c)
    ensures q in Restored(b', cur, c) <==> q == c || (q in cur && q !in NeighbourMoves(b', c))
  {
    ToSetMembers(NeighbourMoves(b', c));
  }

  predicate OrderInBounds(todo: seq<Coord>) {
    forall k :: 0 <= k < |todo| ==> InBounds(todo[k])
  }

  lemma OrderOfKids(order: SetOrder, path: seq<Coord>, kids: set<Coord>)
    requires ValidOrder(order) && AllInBounds(kids)
    ensures OrderInBounds(order(path, kids))
  {
    assert Enumerates(order(path, kids), kids);
  }

  /** `minimax(last_moves, d, min_val, max_val, only_closest, children)`. */
  function Search(b: Board, moves: seq<Coord>, d: nat, lo: Score, hi: Score, onlyClosest: bool,
                  children: Option<set<Coord>>, order: SetOrder): (r: Outcome)
    requires IsBoard(b) && MovesInBounds(moves) && |moves| > 0
    requires ChildrenInBounds(children) && ValidOrder(order)
    ensures 0 <= r.depth <= d
    decreases d, 1, 0
  {
    if d == 0 then Outcome(Evaluation(b, moves), 0)
    else
      var turn := Turn(b, moves);
      var kids := Kids(b, onlyClosest, children);
      OrderOfKids(order, moves, kids);
      Loop(b, moves, d, lo, hi, onlyClosest, order, turn, order(moves, kids), 0, kids, if turn == 0 then lo else hi, d)
  }

  /** The loop over the candidates todo[i..] of a node with depth d > 0, with
      the current candidate set cur, the value v so far and the depth d1
      reported by the last child searched. */
  function Loop(b: Board, moves: seq<Coord>, d: nat, lo: Score, hi: Score, onlyClosest: bool,
                order: SetOrder, turn: int, todo: seq<Coord>, i: nat,
                cur: set<Coord>, v: Score, d1: int): (r: Outcome)
    requires IsBoard(b) && MovesInBounds(moves) && |moves| > 0 && d > 0
    requires ValidOrder(order) && AllInBounds(cur) && OrderInBounds(todo) && i <= |todo|
    requires 0 <= d1 <= d
    ensures 0 <= r.depth <= d
    decreases d, 0, |todo| - i, 1
  {
    if i == |todo| then Outcome(v, d1)
    else
      var c := todo[i];
      if b[Idx(c)] != Empty then Loop(b, moves, d, lo, hi, onlyClosest, order, turn, todo, i + 1, cur, v, d1)
      else
        var r := ChildOutcome(b, moves, d, lo, hi, onlyClosest, order, turn, todo, i, cur, v);
        var v' := if turn == 0 then Max(v, r.value) else Min(v, r.value);
        if turn == 0 && hi.Le(v') then Outcome(hi, r.depth)
        else if turn != 0 && v'.Le(lo) then Outcome(lo, r.depth)
        else Loop(b, moves, d, lo, hi, onlyClosest, order, turn, todo, i + 1, Restored(b[Idx(c) := turn], cur, c), v', r.depth)
  }

  /** The child searched for the candidate c = todo[i]: c taken by the player
      to move, the path extended by c, the window narrowed on the side of the
      running value v, and the candidate set updated by Inner. */
  function ChildOutcome(b: Board, moves: seq<Coord>, d: nat, lo: Score, hi: Score, onlyClosest: bool,
                        order: SetOrder, turn: int, todo: seq<Coord>, i: nat,
                        cur: set<Coord>, v: Score): (r: Outcome)
    requires IsBoard(b) && MovesInBounds(moves) && |moves| > 0 && d > 0
    requires ValidOrder(order) && AllInBounds(cur) && OrderInBounds(todo) && i < |todo|
    ensures 0 <= r.depth < d
    decreases d, 0, |todo| - i, 0
  {
    var c := todo[i];
    var b' := b[Idx(c) := turn];
    Search(b', moves + [c], d - 1, if turn == 0 then v else lo, if turn == 0 then hi else v,
           onlyClosest, Some(Inner(b', cur, c)), order)
  }

  /** ChildOutcome is the search of the child with c = todo[i] taken. */
  lemma ChildOutcomeIs(b: Board, moves: seq<Coord>, d: nat, lo: Score, hi: Score, onlyClosest: bool,
                       order: SetOrder, turn: int, todo: seq<Coord>, i: nat,
                       cur: set<Coord>, v: Score, b': Board, moves': seq<Coord>, next: set<Coord>)
    requires IsBoard(b) && MovesInBounds(moves) && |moves| > 0 && d > 0
    requires ValidOrder(order) && AllInBounds(cur) && OrderInBounds(todo) && i < |todo|
    requires b' == b[Idx(todo[i]) := turn] && moves' == moves + [todo[i]]
    requires next == Inner(b', cur, todo[i])
    ensures MovesInBounds(moves')
    ensures ChildOutcome(b, moves, d, lo, hi, onlyClosest, order, turn, todo, i, cur, v) ==
      Search(b', moves', d - 1, if turn == 0 then v else lo, if turn == 0 then hi else v,
             onlyClosest, Some(next), order)
  {
  }

  /** A node of depth d > 0 runs its loop over the candidates in the order
      given, from the first, with v at the bound of its own side. */
  lemma SearchEnters(b: Board, moves: seq<Coord>, d: nat, lo: Score, hi: Score, onlyClosest: bool,
                     children: Option<set<Coord>>, order: SetOrder)
    requires IsBoard(b) && MovesInBounds(moves) && |moves| > 0
    requires ChildrenInBounds(children) && ValidOrder(order) && d > 0
    ensures OrderInBounds(order(moves, Kids(b, onlyClosest, children)))
    ensures var turn := Turn(b, moves);
      var kids := Kids(b, onlyClosest, children);
      Search(b, moves, d, lo, hi, onlyClosest, children, order) ==
        Loop(b, moves, d, lo, hi, onlyClosest, order, turn, order(moves, kids), 0, kids, if turn == 0 then lo else hi, d)
  {
    OrderOfKids(order, moves, Kids(b, onlyClosest, children));
  }

  /** One turn of the loop: a candidate that is not empty is skipped; an
      empty one is searched, then the loop cuts off or goes on. */
  lemma LoopStep(b: Board, moves: seq<Coord>, d: nat, lo: Score, hi: Score, onlyClosest: bool,
                 order: SetOrder, turn: int, todo: seq<Coord>, i: nat,
                 cur: set<Coord>, v: Score, d1: int)
    requires IsBoard(b) && MovesInBounds(moves) && |moves| > 0 && d > 0
    requires ValidOrder(order) && AllInBounds(cur) && OrderInBounds(todo) && i < |todo|
    requires 0 <= d1 <= d
    ensures b[Idx(todo[i])] != Empty ==>
      Loop(b, moves, d, lo, hi, onlyClosest, order, turn, todo, i, cur, v, d1) ==
      Loop(b, moves, d, lo, hi, onlyClosest, order, turn, todo, i + 1, cur, v, d1)
    ensures b[Idx(todo[i])] == Empty ==>
      var c := todo[i];
      var r := ChildOutcome(b, moves, d, lo, hi, onlyClosest, order, turn, todo, i, cur, v);
      var v' := if turn == 0 then Max(v, r.value) else Min(v, r.value);
      Loop(b, moves, d, lo, hi, onlyClosest, order, turn, todo, i, cur, v, d1) ==
        if turn == 0 && hi.Le(v') then Outcome(hi, r.depth)
        else if turn != 0 && v'.Le(lo) then Outcome(lo, r.depth)
        else Loop(b, moves, d, lo, hi, onlyClosest, order, turn, todo, i + 1, Restored(b[Idx(c) := turn], cur, c), v', r.depth)
  {
  }

  /** The same search without the window: every candidate of every node is
      searched, max nodes start from minus infinity and min nodes from plus infinity. */
  function FullSearch(b: Board, moves: seq<Coord>, d: nat, onlyClosest: bool,
                      children: Option<set<Coord>>, order: SetOrder): Score
    requires IsBoard(b) && MovesInBounds(moves) && |moves| > 0
    requires ChildrenInBounds(children) && ValidOrder(order)
    decreases d, 1, 0
  {
    if d == 0 then Evaluation(b, moves)
    else
      var turn := Turn(b, moves);
      var kids := Kids(b, onlyClosest, children);
      OrderOfKids(order, moves, kids);
      FullLoop(b, moves, d, onlyClosest, order, turn, order(moves, kids), 0, kids, if turn == 0 then NegInf else PosInf)
  }

  function FullLoop(b: Board, moves: seq<Coord>, d: nat, onlyClosest: bool,
                    order: SetOrder, turn: int, todo: seq<Coord>, i: nat,
                    cur: set<Coord>, w: Score): Score
    requires IsBoard(b) && MovesInBounds(moves) && |moves| > 0 && d > 0
    requires ValidOrder(order) && AllInBounds(cur) && OrderInBounds(todo) && i <= |todo|
    decreases d, 0, |todo| - i, 1
  {
    if i == |todo| then w
    else
      var c := todo[i];
      if b[Idx(c)] != Empty then FullLoop(b, moves, d, onlyClosest, order, turn, todo, i + 1, cur, w)
      else
        var e := ChildValue(b, moves, d, onlyClosest, order, turn, todo, i, cur);
        FullLoop(b, moves, d, onlyClosest, order, turn, todo, i + 1, Restored(b[Idx(c) := turn], cur, c),
                 if turn == 0 then Max(w, e) else Min(w, e))
  }

  /** The exact value of the child searched for the candidate todo[i]. */
  function ChildValue(b: Board, moves: seq<Coord>, d: nat, onlyClosest: bool,
                      order: SetOrder, turn: int, todo: seq<Coord>, i: nat,
                      cur: set<Coord>): Score
    requires IsBoard(b) && MovesInBounds(moves) && |moves| > 0 && d > 0
    requires ValidOrder(order) && AllInBounds(cur) && OrderInBounds(todo) && i < |todo|
    decreases d, 0, |todo| - i, 0
  {
    var c := todo[i];
    var b' := b[Idx(c) := turn];
    FullSearch(b', moves + [c], d - 1, onlyClosest, Some(Inner(b', cur, c)), order)
  }

  /** A max node's exact value is at least what it has seen so far; a min
      node's at most. */
  lemma {:induction false} FullLoopMonotone(b: Board, moves: seq<Coord>, d: nat, onlyClosest: bool,
                                            order: SetOrder, turn: int, todo: seq<Coord>, i: nat,
                                            cur: set<Coord>, w: Score)
    requires IsBoard(b) && MovesInBounds(moves) && |moves| > 0 && d > 0
    requires ValidOrder(order) && AllInBounds(cur) && OrderInBounds(todo) && i <= |todo|
    ensures turn == 0 ==> w.Le(FullLoop(b, moves, d, onlyClosest, order, turn, todo, i, cur, w))
    ensures turn != 0 ==> FullLoop(b, moves, d, onlyClosest, order, turn, todo, i, cur, w).Le(w)
    decreases |todo| - i
  {
    if i < |todo| {
      var c := todo[i];
      if b[Idx(c)] != Empty {
        FullLoopMonotone(b, moves, d, onlyClosest, order, turn, todo, i + 1, cur, w);
      } else {
        var e := ChildValue(b, moves, d, onlyClosest, order, turn, todo, i, cur);
        var w' := if turn == 0 then Max(w, e) else Min(w, e);
        var rest := Restored(b[Idx(c) := turn], cur, c);
        FullLoopMonotone(b, moves, d, onlyClosest, order, turn, todo, i + 1, rest, w');
        var f := FullLoop(b, moves, d, onlyClosest, order, turn, todo, i + 1, rest, w');
        if turn == 0 {
          LeTransitive(w, w', f);
        } else {
          LeTransitive(f, w', w);
        }
      }
    }
  }

  /** Alpha-beta soundness: with a window lo <= hi a node of depth d > 0
      returns its exact value forced into the window, and a leaf its exact
      value. In particular the root's window of minus to plus infinity gives
      the exact value. */
  lemma {:induction false} SearchPrunes(b: Board, moves: seq<Coord>, d: nat, lo: Score, hi: Score, onlyClosest: bool,
                                        children: Option<set<Coord>>, order: SetOrder)
    requires IsBoard(b) && MovesInBounds(moves) && |moves| > 0
    requires ChildrenInBounds(children) && ValidOrder(order)
    requires lo.Le(hi)
    ensures d == 0 ==> Search(b, moves, d, lo, hi, onlyClosest, children, order).value == FullSearch(b, moves, d, onlyClosest, children, order)
    ensures d > 0 ==> Search(b, moves, d, lo, hi, onlyClosest, children, order).value == Clamp(FullSearch(b, moves, d, onlyClosest, children, order), lo, hi)
    decreases d, 1, 0, 0
  {
    if d > 0 {
      var turn := Turn(b, moves);
      var kids := Kids(b, onlyClosest, children);
      OrderOfKids(order, moves, kids);
      var w := if turn == 0 then NegInf else PosInf;
      assert (if turn == 0 then lo else hi) == Clamp(w, lo, hi);
      LoopPrunes(b, moves, d, lo, hi, onlyClosest, order, turn, order(moves, kids), 0, kids, if turn == 0 then lo else hi, d, w);
    }
  }

  /** The loop with the window returns the clamped value of the loop without
      it, as long as its running value is the clamped running value. */
  lemma {:induction false} LoopPrunes(b: Board, moves: seq<Coord>, d: nat, lo: Score, hi: Score, onlyClosest: bool,
                                      order: SetOrder, turn: int, todo: seq<Coord>, i: nat,
                                      cur: set<Coord>, v: Score, d1: int, w: Score)
    requires IsBoard(b) && MovesInBounds(moves) && |moves| > 0 && d > 0
    requires ValidOrder(order) && AllInBounds(cur) && OrderInBounds(todo) && i <= |todo|
    requires 0 <= d1 <= d
    requires lo.Le(hi) && v == Clamp(w, lo, hi)
    ensures Loop(b, moves, d, lo, hi, onlyClosest, order, turn, todo, i, cur, v, d1).value ==
      Clamp(FullLoop(b, moves, d, onlyClosest, order, turn, todo, i, cur, w), lo, hi)
    decreases d, 0, |todo| - i, 2
  {
    if i < |todo| {
      var c := todo[i];
      if b[Idx(c)] != Empty {
        LoopPrunes(b, moves, d, lo, hi, onlyClosest, order, turn, todo, i + 1, cur, v, d1, w);
      } else if turn == 0 {
        TakenMaxPrunes(b, moves, d, lo, hi, onlyClosest, order, turn, todo, i, cur, v, d1, w);
      } else {
        TakenMinPrunes(b, moves, d, lo, hi, onlyClosest, order, turn, todo, i, cur, v, d1, w);
      }
    }
  }

  /** LoopPrunes for an empty candidate of a max node: the child's outcome is
      its clamped exact value, so the running values stay related, and a
      cutoff returns hi exactly when the exact loop ends at or above hi. */
  lemma {:induction false} TakenMaxPrunes(b: Board, moves: seq<Coord>, d: nat, lo: Score, hi: Score, onlyClosest: bool,
                                          order: SetOrder, turn: int, todo: seq<Coord>, i: nat,
                                          cur: set<Coord>, v: Score, d1: int, w: Score)
    requires IsBoard(b) && MovesInBounds(moves) && |moves| > 0 && d > 0
    requires ValidOrder(order) && AllInBounds(cur) && OrderInBounds(todo) && i < |todo|
    requires 0 <= d1 <= d && b[Idx(todo[i])] == Empty && turn == 0
    requires lo.Le(hi) && v == Clamp(w, lo, hi)
    ensures Loop(b, moves, d, lo, hi, onlyClosest, order, turn, todo, i, cur, v, d1).value ==
      Clamp(FullLoop(b, moves, d, onlyClosest, order, turn, todo, i, cur, w), lo, hi)
    decreases d, 0, |todo| - i, 1
  {
    var c := todo[i];
    var r := ChildOutcome(b, moves, d, lo, hi, onlyClosest, order, turn, todo, i, cur, v);
    var e := ChildValue(b, moves, d, onlyClosest, order, turn, todo, i, cur);
    if d == 1 {
      ChildLeaf(b, moves, d, lo, hi, onlyClosest, order, turn, todo, i, cur, v, w);
    } else {
      ChildMax(b, moves, d, lo, hi, onlyClosest, order, turn, todo, i, cur, v, w);
    }
    var rest := Restored(b[Idx(c) := turn], cur, c);
    var v' := Max(v, r.value);
    var w' := Max(w, e);
    var f := FullLoop(b, moves, d, onlyClosest, order, turn, todo, i + 1, rest, w');
    FullLoopMonotone(b, moves, d, onlyClosest, order, turn, todo, i + 1, rest, w');
    MaxStep(lo, hi, w, e, r.value, d - 1 == 0);
    if hi.Le(v') {
      CutAbove(lo, hi, w', f);
    } else {
      LoopPrunes(b, moves, d, lo, hi, onlyClosest, order, turn, todo, i + 1, rest, v', r.depth, w');
    }
  }

  /** LoopPrunes for an empty candidate of a min node, symmetric to TakenMaxPrunes. */
  lemma {:induction false} TakenMinPrunes(b: Board, moves: seq<Coord>, d: nat, lo: Score, hi: Score, onlyClosest: bool,
                                          order: SetOrder, turn: int, todo: seq<Coord>, i: nat,
                                          cur: set<Coord>, v: Score, d1: int, w: Score)
    requires IsBoard(b) && MovesInBounds(moves) && |moves| > 0 && d > 0
    requires ValidOrder(order) && AllInBounds(cur) && OrderInBounds(todo) && i < |todo|
    requires 0 <= d1 <= d && b[Idx(todo[i])] == Empty && turn != 0
    requires lo.Le(hi) && v == Clamp(w, lo, hi)
    ensures Loop(b, moves, d, lo, hi, onlyClosest, order, turn, todo, i, cur, v, d1).value ==
      Clamp(FullLoop(b, moves, d, onlyClosest, order, turn, todo, i, cur, w), lo, hi)
    decreases d, 0, |todo| - i, 1
  {
    var c := todo[i];
    var r := ChildOutcome(b, moves, d, lo, hi, onlyClosest, order, turn, todo, i, cur, v);
    var e := ChildValue(b, moves, d, onlyClosest, order, turn, todo, i, cur);
    if d == 1 {
      ChildLeaf(b, moves, d, lo, hi, onlyClosest, order, turn, todo, i, cur, v, w);
    } else {
      ChildMin(b, moves, d, lo, hi, onlyClosest, order, turn, todo, i, cur, v, w);
    }
    var rest := Restored(b[Idx(c) := turn], cur, c);
    var v' := Min(v, r.value);
    var w' := Min(w, e);
    var f := FullLoop(b, moves, d, onlyClosest, order, turn, todo, i + 1, rest, w');
    FullLoopMonotone(b, moves, d, onlyClosest, order, turn, todo, i + 1, rest, w');
    MinStep(lo, hi, w, e, r.value, d - 1 == 0);
    if v'.Le(lo) {
      CutBelow(lo, hi, w', f);
    } else {
      LoopPrunes(b, moves, d, lo, hi, onlyClosest, order, turn, todo, i + 1, rest, v', r.depth, w');
    }
  }

  /** SearchPrunes for the child of todo[i] when it is a leaf: its outcome is its
      exact value. */
  lemma ChildLeaf(b: Board, moves: seq<Coord>, d: nat, lo: Score, hi: Score, onlyClosest: bool,
                 order: SetOrder, turn: int, todo: seq<Coord>, i: nat,
                 cur: set<Coord>, v: Score, w: Score)
    requires IsBoard(b) && MovesInBounds(moves) && |moves| > 0 && d > 0
    requires ValidOrder(order) && AllInBounds(cur) && OrderInBounds(todo) && i < |todo|
    requires lo.Le(hi) && v == Clamp(w, lo, hi)
    requires d == 1
    ensures ChildOutcome(b, moves, d, lo, hi, onlyClosest, order, turn, todo, i, cur, v).value ==
      ChildValue(b, moves, d, onlyClosest, order, turn, todo, i, cur)
    decreases d, 0, |todo| - i, 0
  {
    var c := todo[i];
    var b' := b[Idx(c) := turn];
    SearchPrunes(b', moves + [c], d - 1, if turn == 0 then v else lo, if turn == 0 then hi else v,
                 onlyClosest, Some(Inner(b', cur, c)), order);
  }

  /** The child of todo[i] of a max node, when the child is not a leaf: its
      outcome is its exact value forced into the child's window [v, hi]. */
  lemma ChildMax(b: Board, moves: seq<Coord>, d: nat, lo: Score, hi: Score, onlyClosest: bool,
                 order: SetOrder, turn: int, todo: seq<Coord>, i: nat,
                 cur: set<Coord>, v: Score, w: Score)
    requires IsBoard(b) && MovesInBounds(moves) && |moves| > 0 && d > 0
    requires ValidOrder(order) && AllInBounds(cur) && OrderInBounds(todo) && i < |todo|
    requires lo.Le(hi) && v == Clamp(w, lo, hi)
    requires d > 1 && turn == 0
    ensures ChildOutcome(b, moves, d, lo, hi, onlyClosest, order, turn, todo, i, cur, v).value ==
      Clamp(ChildValue(b, moves, d, onlyClosest, order, turn, todo, i, cur), v, hi)
    decreases d, 0, |todo| - i, 0
  {
    var c := todo[i];
    var b' := b[Idx(c) := turn];
    SearchPrunes(b', moves + [c], d - 1, if turn == 0 then v else lo, if turn == 0 then hi else v,
                 onlyClosest, Some(Inner(b', cur, c)), order);
  }

  /** The same for a min node, with the child's window [lo, v]. */
  lemma ChildMin(b: Board, moves: seq<Coord>, d: nat, lo: Score, hi: Score, onlyClosest: bool,
                 order: SetOrder, turn: int, todo: seq<Coord>, i: nat,
                 cur: set<Coord>, v: Score, w: Score)
    requires IsBoard(b) && MovesInBounds(moves) && |moves| > 0 && d > 0
    requires ValidOrder(order) && AllInBounds(cur) && OrderInBounds(todo) && i < |todo|
    requires lo.Le(hi) && v == Clamp(w, lo, hi)
    requires d > 1 && turn != 0
    ensures ChildOutcome(b, moves, d, lo, hi, onlyClosest, order, turn, todo, i, cur, v).value ==
      Clamp(ChildValue(b, moves, d, onlyClosest, order, turn, todo, i, cur), lo, v)
    decreases d, 0, |todo| - i, 0
  {
    var c := todo[i];
    var b' := b[Idx(c) := turn];
    SearchPrunes(b', moves + [c], d - 1, if turn == 0 then v else lo, if turn == 0 then hi else v,
                 onlyClosest, Some(Inner(b', cur, c)), order);
  }

  /** One step of a max node: the child's value r is exact at a leaf and
      clamped to the child's window [v, hi] otherwise. */
  lemma MaxStep(lo: Score, hi: Score, w: Score, e: Score, r: Score, leaf: bool)
    requires lo.Le(hi)
    requires var v := Clamp(w, lo, hi); if leaf then r == e else r == Clamp(e, v, hi)
    ensures var v' := Max(Clamp(w, lo, hi), r);
      (hi.Le(v') ==> hi.Le(Max(lo, Max(w, e)))) &&
      (!hi.Le(v') ==> v' == Clamp(Max(w, e), lo, hi))
  {
  }

  /** One step of a min node, symmetric to MaxStep, with the child's window [lo, v]. */
  lemma MinStep(lo: Score, hi: Score, w: Score, e: Score, r: Score, leaf: bool)
    requires lo.Le(hi)
    requires var v := Clamp(w, lo, hi); if leaf then r == e else r == Clamp(e, lo, v)
    ensures var v' := Min(Clamp(w, lo, hi), r);
      (v'.Le(lo) ==> Min(hi, Min(w, e)).Le(lo)) &&
      (!v'.Le(lo) ==> v' == Clamp(Min(w, e), lo, hi))
  {
  }

  lemma CutAbove(lo: Score, hi: Score, w': Score, f: Score)
    requires lo.Le(hi) && w'.Le(f) && hi.Le(Max(lo, w'))
    ensures Clamp(f, lo, hi) == hi
  {
  }

  lemma CutBelow(lo: Score, hi: Score, w': Score, f: Score)
    requires lo.Le(hi) && f.Le(w') && Min(hi, w').Le(lo)
    ensures Clamp(f, lo, hi) == lo
  {
  }
}
