# Gomoku engine model

A Dafny model of `GomokuEngine`, the game engine of a small gomoku program
(15×15 board; -1 is an empty cell, 0 a stone of the user, 1 a stone of the
computer). The engine:

- generates candidate moves (every empty cell, or only the empty cells next
  to a stone);
- evaluates the stones last played by replaying them with alternating colours
  and measuring the runs through each of them along four axes;
- searches the game tree with a fail-hard alpha-beta `minimax` that grows and
  shrinks a candidate set as it descends;
- chooses the computer's move by searching the candidates one by one, until
  one returns -infinity at full depth.

The engine is a class with a mutable board, and so is the model. It has a
`GomokuEngine` class over an `array<int>` of 225 cells in row-major order,
and a `MoveList` class for the `last_moves` list that `minimax` appends to
and pops.

The methods follow the source's loops step by step. Each is proved against a
functional specification of the same computation:

- `Evaluation` for `evaluate`;
- `Search` / `Loop` for `minimax`;
- `AiChoice` / `RootLoop` for the move choice of `ai_move`.

The properties the program relies on are then proved about those functions.

Modules:

- `Scores` (scores.dfy): the scores. Every finite score of the source is an
  integer multiple of 0.5, so `Score` is `NegInf | Finite(twice) | PosInf`,
  with `Finite(k)` standing for k/2 and its total order.
- `Boards` (boards.dfy): coordinates, the flat board, axis directions, and runs
  of equal stones.
- `MoveGen` (movegen.dfy): `getChildren`, `get_all_neigh_possible_moves`.
- `Evaluator` (evaluation.dfy): `evaluate` as a function, and what it does to
  the board.
- `GameTree` (gametree.dfy): `minimax` as a function, and the pruning theorem.
- `Choice` (choice.dfy): `find_closest_move` and the loop of `ai_move`.
- `Engine` (engine.dfy): the `GomokuEngine` and `MoveList` classes.

Several behaviours of the source are modelled as written:

- **The undo is not exact.** After a child returns, `minimax` removes the
  child's neighbour list from the candidate set and adds the cell back. A
  candidate that was also one of those neighbours is lost for the later
  siblings (`Restored`, `RestoredMembers`). The loop still visits the set it
  started with.
- **The root does not add neighbours.** `ai_move` hands each search the
  candidate set without the move and without adding its neighbours
  (`RootOutcome`).
- **The floor rule applies per stone.** A running total of 0 becomes the
  multiplier after each stone is scored (`Floor`).
- **The returned depth is the last child's.** The depth returned by `minimax`
  is that of the last child searched, or d when no child was searched.

## Model

| member | source | states |
|---|---|---|
| Engine.GomokuEngine.constructor | gomoku.py:19-24 | a fresh 225-cell board with every cell empty, the four positive direction vectors in the source's order, their negatives, the concatenation of both lists, and a search depth of 2 |
| Engine.GomokuEngine.ResetBoard | gomoku.py:296-299 | a fresh board with every cell empty; the search depth is unchanged |
| Engine.GomokuEngine.CanMove | gomoku.py:244-245 | true exactly when the cell holds -1 |
| Engine.GomokuEngine.UserMove | gomoku.py:247-250 | the board changes only at the move, which becomes cur_turn; the result is the evaluation of the one-stone list on the new board |
| Engine.GomokuEngine.GetChildren | gomoku.py:45-64 | the list is the empty cells (only_closest false) or the per-stone neighbour lists (only_closest true), in the order the source builds them |
| MoveGen.EmptyCellsExact | gomoku.py:46-48 | getChildren(False) holds a cell exactly when it is empty; every cell listed is on the board, and indices strictly increase in row-major order |
| MoveGen.EmptyUpToExact | gomoku.py:46-48 | the cells with index below n are listed exactly when they are negative, and in increasing index order |
| MoveGen.EmptyBoardAllCells | gomoku.py:296-297 | on a reset board getChildren(False) lists every cell of the board, 225 cells in all |
| MoveGen.AdjacentCellsExact | gomoku.py:49-63 | getChildren(True) holds a cell exactly when it is empty and one king step from an occupied cell |
| MoveGen.AdjacentMember | gomoku.py:53-62 | after the stones with index below n, a cell is listed exactly when it is empty and next to one of them |
| MoveGen.AdjacentCellsOfEmptyBoard | gomoku.py:49-63 | on an empty board getChildren(True) is empty |
| Engine.GomokuEngine.GetAllNeighPossibleMoves | gomoku.py:143-154 | the result is the neighbour list of p, axis by axis, forward then backward |
| Engine.GomokuEngine.AxisNeighbourMoves | gomoku.py:146-153 | the result holds the cells one step forward and one step backward along the axis, when on the board and empty |
| MoveGen.NeighbourMovesExact | gomoku.py:143-154 | a cell is in the neighbour list of p exactly when it is empty (so on the board) and one of the 8 king steps from p |
| MoveGen.ChildSetOnBoard | gomoku.py:45-64 | every candidate is on the board; with only_closest every candidate is empty |
| MoveGen.Children | gomoku.py:45-64 | `getChildren(only_closest_moves)`: the empty-cell list, at most 225 cells, or the neighbour list, at most 8 cells per cell of the board |
| MoveGen.EmptyCells | gomoku.py:46-48 | `getChildren(False)`: the cells selected by `board < 0` in row-major order, at most 225 of them |
| MoveGen.AdjacentCells | gomoku.py:50-63 | `getChildren(True)`: the neighbour lists of the occupied cells in row-major order, with repetitions, at most 8 cells for each cell scanned |
| MoveGen.NeighbourMoves | gomoku.py:143-154 | `get_all_neigh_possible_moves(p)`: the empty cells one step forward and backward along each axis in turn, at most 8 |
| MoveGen.ToSet | gomoku.py:163 | `set(...)` of a candidate list: no more members than the list has items; ToSetMembers proves it holds exactly the listed cells |
| Engine.GomokuEngine.FindClosestMove | gomoku.py:206-215 | the result is Closest of the empty-cell list and the hint |
| Choice.ClosestMoveNearest | gomoku.py:206-215 | on a board with an empty cell, the result is empty, no farther (Manhattan) from the hint than any empty cell, and strictly nearer than every empty cell earlier in row-major order |
| Choice.ClosestMoveNone | gomoku.py:207-215 | the result is (-1, -1) exactly when no cell is empty |
| Choice.ClosestIndexIsFirstNearest | gomoku.py:210-214 | the loop keeps the first index of minimum distance among the cells scanned |
| Choice.ClosestIndex | gomoku.py:209-214 | the position the loop of `find_closest_move` ends on among the first n cells: -1 when there is none, otherwise a valid position |
| Choice.Closest | gomoku.py:206-215 | `find_closest_move` on a candidate list: (-1, -1) for an empty list, otherwise one of the listed cells |
| Choice.Dist | gomoku.py:211 | the Manhattan distance between the hint and a cell, 0 exactly at the hint itself |
| Engine.GomokuEngine.Evaluate | gomoku.py:66-140 | the result is Evaluation(old board, moves) and the board becomes the move list replayed on the old board |
| Evaluator.Evaluation | gomoku.py:66-140 | `evaluate(last_moves)`: the moves cleared, then replayed with alternating colours from the first move's colour and scored stone by stone; the result is never 0, because the last stone's total is floored |
| Evaluator.EvalFrom | gomoku.py:72-139 | the loop over the stones from j: while a stone remains to be scored, or the running total is not 0, the result is not 0 |
| Evaluator.EvalStone | gomoku.py:72-139 | one stone written with its colour and scored: the infinity of its colour on a five, otherwise the next stones from the floored total; never 0 |
| Evaluator.AxisTally | gomoku.py:80-137 | one axis through a stone: a five when the run through it reaches 5 cells, otherwise the axis's contribution, which is at least 0 for the user's stones and at most 0 for the engine's |
| Evaluator.Scan | gomoku.py:79-137 | the loop over the four axes: the first five ends it, otherwise each axis value is added to the running total (its properties are ScanFive and ScanSum) |
| Evaluator.Weight2 | gomoku.py:76-78 | twice the stone's multiplier: never 0, and negative exactly for the engine's stones |
| Boards.Run | gomoku.py:84-100 | the number of consecutive cells of colour t a walk passes from p, which the walk adds to line_count: not 0 exactly when p is on the board and holds t; RunCountsLine proves it is at least m exactly when the m cells from p all hold t |
| Boards.RunEnd | gomoku.py:84-120 | the cell at which a walk stops, off the board or not holding t; whether it is empty decides is_blocked1 and is_blocked2 |
| Boards.Alt | gomoku.py:68-74 | the colour move_switch has for the k-th stone: for a first colour of 0 or 1 it equals that colour exactly at even k, and it is 0 or 1 after the first stone; AltNext proves each stone flips it |
| Evaluator.Cleared | gomoku.py:70-71 | the board after every move cell is set to -1: ClearFirstCleared proves each move cell is -1, and ClearFirstOutside proves every other cell keeps its value |
| Evaluator.ClearFirstCleared | gomoku.py:70-71 | after the first k move cells are cleared, each of them holds -1, even when the list repeats a cell |
| Evaluator.Placed | gomoku.py:72-74 | the board after the first k move cells are written in order with the alternating colours; PlacedOutside proves cells outside the list keep their value, and PlacedIdentity proves an alternating list changes nothing |
| Evaluator.Replayed | gomoku.py:93-95 | the board `evaluate` leaves on every return path, the whole list written with the alternating colours from the first cell's colour; ReplayIdentity proves it is the old board when the list alternates |
| Evaluator.LineValue | gomoku.py:127-137 | twice `multiplier * line_count * mul_blocked` for a run of n cells: not 0 exactly for runs of 2 to 4 cells, at least 0 for the user and at most 0 for the engine |
| Evaluator.Floor | gomoku.py:138-139 | a running total of 0 becomes the stone's multiplier, any other total is kept, and the result is never 0 |
| Evaluator.Infinity | gomoku.py:96 | `multiplier * float('inf')`: infinite, at least every score for the user's stones and at most every score for the engine's |
| Engine.GomokuEngine.ClearMoves | gomoku.py:70-71 | every cell of the move list becomes -1 and nothing else changes |
| Engine.GomokuEngine.ScoreMoves | gomoku.py:72-140 | the scoring loop returns Evaluation(b0, moves) and leaves the replayed board, on the normal path and on every early return |
| Engine.GomokuEngine.EvalTurn | gomoku.py:72-126 | one stone: on a five the board is the replayed board and the score is ±infinity; otherwise stone j is placed and the evaluation continues with the new total |
| Engine.GomokuEngine.ScoreMove | gomoku.py:73-139 | stone j is written with colour Alt(init, j), and the evaluation from j either ends in the infinity of that colour or continues from j + 1 with the floored total |
| Engine.GomokuEngine.ScoreStone | gomoku.py:79-137 | the loop over the four axes gives the scan of the four axis tallies: a five, or the running total plus their values |
| Engine.GomokuEngine.ScoreAxisAt | gomoku.py:79-137 | one axis of that loop: its tally decides whether the scan ends in a five or goes on with its value added |
| Engine.GomokuEngine.ScoreAxis | gomoku.py:80-137 | the two walks along one axis produce that axis's tally: a five when the run reaches 5, else the table value of the run length and its open ends |
| Engine.GomokuEngine.Walk | gomoku.py:84-100 | a walk from p reports five exactly when the count reaches 5; otherwise the count grows by the run length and "open" says whether the cell ending the run is empty |
| Engine.GomokuEngine.Replay | gomoku.py:93-95 | the restoring loop writes the move list with alternating colours from init |
| Evaluator.EvaluationWin | gomoku.py:90-96 | if stone w is the first replayed stone with a run of five or more on some axis, the evaluation is +infinity for a stone of player 0 and -infinity for one of player 1 |
| Evaluator.EvaluationFinite | gomoku.py:72-140 | with no such stone the evaluation is finite |
| Evaluator.StoneFiveOnAxis | gomoku.py:79-116 | a stone has a five exactly when one of its four axes has one |
| Evaluator.FiveThroughStone | gomoku.py:84-116 | any stone inside a line of five equal stones along an axis sees a five on that axis |
| Evaluator.SingleStoneWin | gomoku.py:90-96 | evaluating one stone that lies in a line of five of its colour gives the infinity of that colour |
| Evaluator.SingleStone | gomoku.py:127-139 | a single stone scores the infinity of its colour if an axis has a five, else the sum of the axis values floored to the multiplier |
| Evaluator.IsolatedStone | gomoku.py:138-139 | a stone with no equal neighbour scores exactly the multiplier (1, or -0.5 for player 1) |
| Evaluator.LineValueIsProduct | gomoku.py:127-137 | the tabulated axis value is the source's multiplier × line_count × mul_blocked with the 4/2/1 base and one factor line_count per open end |
| Evaluator.OpenEndWeighsMore | gomoku.py:132-135 | an open end strictly increases the size of an axis's contribution for runs of 2 to 4, on either end and for either player |
| Evaluator.ReplayIdentity | gomoku.py:68-74 | on a move list that already holds alternating colours from its first cell, replaying leaves the board identical |
| Evaluator.EarlyReturnReplays | gomoku.py:93-95 | the restoring loop of an early return after stone j leaves the same board as the full replay |
| Evaluator.ClearedThenPlaced | gomoku.py:70-74 | clearing the move cells then writing them back gives the replayed board, whatever the cleared cells held |
| Engine.GomokuEngine.Minimax | gomoku.py:156-204 | the board and the move list are restored, and (value, depth) is Search of the old board and move list |
| GameTree.Search | gomoku.py:156-204 | `minimax`: at depth 0 the evaluation with depth 0; otherwise the side to move's loop over its candidates, in the node's set order, from v = min_val (max node) or max_val (min node); the depth reported lies in 0..d |
| GameTree.Loop | gomoku.py:167-204 | the loop of a node from candidate i: occupied cells are skipped, each child's value raises v (max node) or lowers it (min node), a closed window returns max_val or min_val with that child's depth, and the end returns v with the last child's depth; the depth lies in 0..d |
| Scores.Max | gomoku.py:180-181 | v after `if v1 > v: v = v1`: one of the two, and at least both |
| Scores.Min | gomoku.py:200-201 | v after `if v1 < v: v = v1`: one of the two, and at most both |
| GameTree.ChildOutcome | gomoku.py:170-175 | the search of one child: the cell taken by the side to move, the extended move list, depth d - 1, the window narrowed by v, and the set of Inner; its depth is below d |
| GameTree.Turn | gomoku.py:160-161 | the side to move, (board[last] + 1) % 2, is 0 or 1 |
| GameTree.Kids | gomoku.py:162-163 | the set a node walks: the one passed in, or set(getChildren(only_closest)); every cell of it is on the board |
| GameTree.Inner | gomoku.py:171-173 | the set handed to a child: the cell removed and its empty neighbours added; every cell of it is on the board |
| GameTree.Restored | gomoku.py:177-178 | the set after the child returns: the neighbours removed and the cell added back; every cell of it is on the board |
| Engine.GomokuEngine.Leaf | gomoku.py:157-159 | at depth 0 the value is the evaluation of the move list and the board is unchanged |
| Engine.GomokuEngine.Enter | gomoku.py:160-166 | the side to move is (board[last] + 1) % 2, the candidate set is the one given or set(getChildren), and the search is the loop over it from v = min_val (max node) or max_val (min node) |
| Engine.GomokuEngine.Candidates | gomoku.py:162-163 | the candidate set is the one passed in, or set(getChildren(only_closest)) |
| Engine.GomokuEngine.NodeStep | gomoku.py:167-203 | one pass of the loop of a node: the rest of the node's search is either the outcome it stops with or the loop over the next candidates with the new v, depth and set; board and move list are back |
| Engine.GomokuEngine.TryChild | gomoku.py:170-179 | the child search runs on the board with the cell taken, the extended move list, the narrowed window and the updated set; afterwards board and move list are back, and the set is Restored |
| Engine.GomokuEngine.Take | gomoku.py:170-173 | the cell gets the turn's stone, buf is its neighbour list, and the set loses the cell and gains buf |
| Engine.GomokuEngine.Untake | gomoku.py:177-179 | the set loses buf and regains the cell, and the cell is empty again |
| Engine.GomokuEngine.Descend | gomoku.py:174-176 | the recursive call on the extended move list is Search of it, and the list is popped back |
| Engine.MoveList.constructor | gomoku.py:226 | the list [move] |
| Engine.MoveList.Push | gomoku.py:174 | the move is appended |
| Engine.MoveList.Pop | gomoku.py:176 | the last move is removed |
| Engine.AlternatingExtend | gomoku.py:161-174 | placing the side to move's stone on an empty cell keeps the move list alternating, so every node's evaluation restores the board |
| GameTree.SearchPrunes | gomoku.py:156-204 | at depth 0 the value is the evaluation; for d > 0 and min_val ≤ max_val the value is the unpruned minimax value clamped to [min_val, max_val], so it lies in the window and equals the exact value whenever that is inside it |
| GameTree.RestoredMembers | gomoku.py:177-178 | after the undo a cell is a candidate exactly when it is the cell just tried, or was a candidate and is not one of that cell's empty neighbours |
| GameTree.KidsFree | gomoku.py:162-163 | every cell of set(getChildren) is empty |
| GameTree.FullLoopMonotone | gomoku.py:165-204 | in the unpruned reference search the value of a max node is at least its starting value and that of a min node at most |
| Engine.GomokuEngine.AiMove | gomoku.py:217-242 | best_move is the move of AiChoice on the old board and is empty there; the board changes only at best_move, which becomes cur_turn, or not at all with for_profiler; the result is the evaluation of [best_move] on the new board |
| Choice.RootOutcome | gomoku.py:224-228 | the search for one candidate of `ai_move`: the cell taken by cur_turn, path [move], the full window and the set without the move; its depth lies in 0..ai_depth |
| Choice.RootLoop | gomoku.py:223-237 | the loop of `ai_move` from candidate i: the best score never rises, and the best depth stays in 0..ai_depth |
| Choice.AtLeastAsGood | gomoku.py:229-230 | the chosen (score, depth) is at least as good for the engine as a candidate's outcome: a lower score, or the same score at a depth no smaller, so the test at line 229 does not hold (a full tie goes to the coin); it implies the chosen score is at most the candidate's |
| Choice.AiChoice | gomoku.py:218-237 | the choice of `ai_move`: the loop over set(getChildren) from the closest cell with +infinity at depth 0; its depth lies in 0..ai_depth |
| Engine.GomokuEngine.RootEnter | gomoku.py:218-222 | the first best move is the closest empty cell to the hint with score +infinity and depth 0, and the loop over set(getChildren) from it is AiChoice |
| Engine.GomokuEngine.RootStep | gomoku.py:223-237 | one pass of the loop: replace on a lower score or equal score at a greater depth, stop on -infinity at full depth, toss the coin on a full tie |
| Engine.GomokuEngine.TryRootMove | gomoku.py:224-228 | the search for one candidate is RootOutcome, and the board is back afterwards |
| Engine.GomokuEngine.PlaceAndScore | gomoku.py:239-242 | the move is written unless for_profiler, and the result is the evaluation of the one-stone list |
| Choice.AiChoiceOptimal | gomoku.py:223-237 | the chosen score is at least as good for the computer as every candidate's: lower, or equal with a depth no smaller |
| Choice.AiChoiceMove | gomoku.py:218-237 | the choice is the closest cell with +infinity at depth 0, or a candidate whose search returned exactly the chosen score and depth |
| Choice.AiChoiceFindsWin | gomoku.py:233-234 | when some candidate's search returns -infinity at full depth, the choice has -infinity at full depth |
| Choice.RootOutcomeExact | gomoku.py:224-226 | a candidate's search score is the unpruned minimax value of the board with the candidate taken, from [move] and the set without the move |

## Left out

- The display and play functions (`display_board_inpynb`, `play_ipynb`, gomoku.py:26-43 and 252-294) and the PyQt window in main.py: console, notebook and GUI input/output. main.py is not part of this model.
- `random.randint(0, 1) > 0` at gomoku.py:236 is the parameter `coin: nat -> bool`; the k-th toss of one `ai_move` is `coin(k)`.
- The iteration order of a Python set is the parameter `order`: `order(path, s)` is the order in which the node reached by the move list `path` visits the set `s` (the loop of `ai_move` is the empty path). CPython's order depends on how a set was built as well as on its members, and that history is fixed by the path from the root. Every result holds for every `order` that lists each set's members once.
- Floating point: scores are doubled integers, with `-0.5` represented as -1 and `float('inf')` as `PosInf`. No NaN can arise.
- numpy: the board is a flat array of 225 cells rather than a 15×15 array, and numpy's negative-index wrap-around is not modelled.
- The `self.cache` array of gomoku.py:298 is never read, so it is not modelled.
- The check at gomoku.py:122-126 cannot fire, because both walks return as soon as the count reaches 5. It has no counterpart in the model.
- Engine.GomokuEngine.Minimax: requires that the move list hold alternating colours from its first cell. Every call made by `ai_move` and by `minimax` itself meets this (`AlternatingExtend`). It is what lets `evaluate` at the leaves put the board back.
- Engine.GomokuEngine.AiMove: requires a board of -1/0/1 cells with an empty cell, so that `find_closest_move` never returns (-1, -1). It also requires cur_turn in {0, 1}.
