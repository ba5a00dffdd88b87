# Tic-tac-toe AI player: minimax and alpha-beta search

This project models the game-tree search engine of a Java tic-tac-toe game
(`src/AIPlayer.java`) and proves what it computes. The engine is given a 3x3
board of `int` cells: 0 is empty, 1 is X and 2 is O. `findBestMove` writes
each of the AI's candidate moves into the board, scores the opponent's reply
with minimax, and empties the cell again. It returns the first move, in
row-major order, among those with the largest score. Two
minimax variants are modelled:

- plain minimax;
- minimax with alpha-beta pruning, which is meant to change only the work
  done, never the score.

Both variants use the same terminal rules, in this order:

1. an AI line scores `10 - depth`;
2. otherwise an opponent line scores `depth - 10`;
3. otherwise a full board, or `depth == maxDepth`, scores the positional
   evaluation (centre 4, corners 3, edges 2).

Only a node that none of these rules stops searches its children.

Modules:

- `Rules` (`rules.dfy`): the board as a row-major `seq<int>` of nine cells
  (`Grid`). It holds the read-only helpers: win detection, the full-board
  test, move enumeration and the static evaluation, each proved against an
  independent characterisation.
- `Search` (`search.dfy`): pure reference functions for both searches. Each
  node yields an `Outcome`: its score, the number of search invocations in
  its subtree (what `nodeCount` counts) and the number of cutoffs (what
  `pruneCount` counts). The Java for-loops become folds over the move list
  (`MinimaxLoop`, `AlphaBetaLoop`). Each fold starts from the same sentinel
  `bestScore` and takes the same early exit.
- `Equivalence` (`equivalence.dfy`): the properties of those functions. They
  cover the terminal rules, the score range [-24, 24] and the fail-soft
  window lemma for alpha-beta, which gives equal scores under the full
  window. They also cover the choice of the best move and the node counts.
- `Engine` (`engine.dfy`): the `AIPlayer` class. It has the Java fields
  (`maxDepth`, `useAlphaBetaPruning`, `aiPlayer`, `nodeCount`,
  `pruneCount`), and its methods work in place on an `array2<int>` board. Each
  search method is proved to return the reference score and to add exactly
  the reference counts to the counters. Each is also proved to leave the
  board holding the grid it held on entry.
- `Wrappers` (`wrappers.dfy`): `Option`, standing for a `Point` that may be
  `null`.

A move is `Point(x, y)` with `x` the column and `y` the row, as
`java.awt.Point` is used in the source (`board[move.y][move.x]`). The
sentinels `Integer.MIN_VALUE` and `Integer.MAX_VALUE` are kept as their exact
values (`MinValue`, `MaxValue`). Reachable scores lie in [-24, 24], strictly
between the sentinels.

Three facts about the code shape the model:

- The root's replies are searched at depth 0, so the cutoff
  `depth == maxDepth` is reached one ply below the AI's own move.
- `maxDepth` may be any `int`, including 0 or a negative value. A negative
  value never triggers the cutoff, and the search then ends only at won or
  full boards.
- A board is not validated. Any cell value that is neither 0 nor the AI's
  symbol counts as the opponent's in the evaluation.

## Model

| member | source | states |
|---|---|---|
| `Rules.Opponent` | src/AIPlayer.java:60 | the opponent's symbol (`aiPlayer == 1 ? 2 : 1`) is a player symbol different from the AI's |
| `Rules.CellAt` | src/AIPlayer.java:161-164 | the k-th cell in row-major order is the on-board point `(col, row)` with `3*row + col == k` |
| `Rules.IndexCellAt` | src/AIPlayer.java:164 | the row-major position and the `(col, row)` point are inverse on the board |
| `Rules.Place` | src/AIPlayer.java:68 | `board[move.y][move.x] = v` sets that cell to v and leaves every other cell unchanged; writing a non-empty symbol into a free cell removes exactly one empty cell, so the search measure falls |
| `Rules.UndoPlace` | src/AIPlayer.java:68-70 | resetting a trial cell to 0 restores the board exactly |
| `Rules.CheckWinner` | src/AIPlayer.java:172-192 | reference definition (the row loop, the column loop, the two diagonal tests); a winner holds at least one cell; the line characterisation is proved in `Rules.CheckWinnerIffLine` |
| `Rules.CheckWinnerIffLine` | src/AIPlayer.java:172-192 | checkWinner is true iff the player holds all three cells of some row, some column or one of the two diagonals |
| `Rules.MovesUpToSpec` | src/AIPlayer.java:161-167 | the moves collected from the first n cells are free cells before n, include every such cell and strictly increase in row-major order |
| `Rules.AvailableMoves` | src/AIPlayer.java:158-170 | every listed move is a free cell |
| `Rules.AvailableMovesExact` | src/AIPlayer.java:158-170 | a point is listed iff it is a free cell on the board; the list is strictly increasing in row-major order, so it has no duplicates |
| `Rules.MovesUpTo` | src/AIPlayer.java:158-170 | reference definition of the nested scan over the first n cells; it collects one move per empty cell among them; order and completeness are proved in `Rules.MovesUpToSpec` |
| `Rules.MoveCountIsEmptyCount` | src/AIPlayer.java:158-170 | there is exactly one move per empty cell |
| `Rules.IsBoardFull` | src/AIPlayer.java:194-203 | the board is full iff no move is available, iff the number of empty cells is 0 |
| `Rules.WeightAt` | src/AIPlayer.java:6-10 | the evaluation table is 3x3 and its entry (row, col) is the weight of cell `3*row + col` |
| `Rules.CellScore` | src/AIPlayer.java:147-151 | a cell contributes +weight for the AI, -weight for any other non-zero value, 0 when empty: never more than its weight in absolute value |
| `Rules.StaticEval` | src/AIPlayer.java:141-156 | the weighted sum over all nine cells always lies in [-24, 24] (the weights sum to 24) |
| `Rules.EmptyBoardScoresZero` | src/AIPlayer.java:141-156 | the empty board evaluates to 0 |
| `Rules.StaticEvalZeroSum` | src/AIPlayer.java:141-156 | on a board of 0/1/2 cells, X's evaluation is the negation of O's |
| `Search.Terminal` | src/AIPlayer.java:59-61 | the terminal rules stop the search unless neither side has a line, a move is left and the depth is not the cutoff |
| `Search.Minimax` | src/AIPlayer.java:56-61 | reference definition of plain minimax: every call counts itself as a node and never a prune; terminal rules in `Equivalence.MinimaxLeaves`, range in `Search.MinimaxRange` |
| `Search.MinimaxBody` | src/AIPlayer.java:59-88 | reference definition of the terminal tests followed by the loop; plain minimax never counts a prune |
| `Search.MinimaxLoop` | src/AIPlayer.java:63-88 | the maximizing loop never returns less than the best score it started with, and the minimizing loop never more; every child counts at least one node, and no prune is counted |
| `Search.MinimaxRange` | src/AIPlayer.java:56-89 | below a root whose depth plus empty cells is at most 9, every minimax score lies in [-24, 24], strictly between the sentinels |
| `Search.ReplyRange` | src/AIPlayer.java:34-39 | the reply to a free root move, searched at depth 0, scores in [-24, 24] |
| `Search.AlphaBeta` | src/AIPlayer.java:92-98 | reference definition of the pruned search: every call counts itself as a node; terminal rules in `Equivalence.AlphaBetaLeaves`, score agreement in `Equivalence.AlphaBetaClamp` |
| `Search.AlphaBetaBody` | src/AIPlayer.java:96-137 | reference definition of the terminal tests followed by the pruned loop; a subtree that visits no node counts no prune |
| `Search.AlphaBetaLoop` | src/AIPlayer.java:100-137 | the same monotonicity for the pruned loops, early exit included; a cutoff is only counted after a child was searched |
| `Search.RootScore` | src/AIPlayer.java:34-39 | reference score of a root move (the opponent's reply at depth 0): in [-24, 24] for a free cell |
| `Search.RootSearch` | src/AIPlayer.java:33-41 | one iteration of findBestMove's loop visits at least one node; without pruning its score is the root score and it counts no prune; with pruning the agreement is `Equivalence.RootSearchAgrees` |
| `Search.RootNodes` | src/AIPlayer.java:27-40 | after n root moves, nodeCount is at least n: every root search counts at least one invocation |
| `Search.RootPrunes` | src/AIPlayer.java:28-40 | without pruning, pruneCount stays 0 |
| `Search.BestScore` | src/AIPlayer.java:30-43 | after n moves, bestScore is at least MIN_VALUE and at least every score seen so far |
| `Search.BestMove` | src/AIPlayer.java:29-45 | after n moves, bestMove is still null iff bestScore is still MIN_VALUE; first-maximal choice proved in `Equivalence.BestMoveIsFirstMaximal` |
| `Equivalence.MinimaxLeaves` | src/AIPlayer.java:56-61 | plain minimax counts itself as one node and applies the terminal rules in order (10 - depth, depth - 10, evaluation); a leaf visits one node and a non-terminal node recurses; it never counts a prune |
| `Equivalence.AlphaBetaLeaves` | src/AIPlayer.java:92-98 | the pruned search applies the same terminal rules in the same order for every window |
| `Equivalence.CutoffOnEmptyBoard` | src/AIPlayer.java:61 | at the cutoff depth on an empty board both searches return 0 after visiting exactly one node |
| `Equivalence.AlphaBetaClamp` | src/AIPlayer.java:92-138 | for any window within the int range, the pruned and plain scores agree once both are clamped to the window |
| `Equivalence.AlphaBetaWindow` | src/AIPlayer.java:92-138 | fail-soft window: if the true value v is at most alpha, so is the result; if v is at least beta, so is the result; strictly inside the window the result is v |
| `Equivalence.FullWindowAgrees` | src/AIPlayer.java:36-40 | with the window (MIN_VALUE, MAX_VALUE), the pruned search returns exactly the plain minimax score |
| `Equivalence.RootSearchAgrees` | src/AIPlayer.java:33-41 | a free root move gets the same score with and without pruning, and that score lies in [-24, 24] |
| `Equivalence.RootScoresInRange` | src/AIPlayer.java:33-41 | every root score findBestMove computes lies in [-24, 24] |
| `Equivalence.BestMoveIsFirstMaximal` | src/AIPlayer.java:42-45 | the strict `>` update keeps the largest score so far and the first position that reached it |
| `Equivalence.FirstInRowMajorOrder` | src/AIPlayer.java:29-46 | no free cell before the chosen move in row-major order reaches the best score |
| `Equivalence.ChosenMove` | src/AIPlayer.java:26-53 | the chosen move is none iff no cell is empty; otherwise it is an empty cell of maximal score and the first such cell in row-major order |
| `Equivalence.PruningVisitsNoMore` | src/AIPlayer.java:92-138 | for every board, window and turn, the pruned search counts no more nodes than plain minimax |
| `Engine.SetCell` | src/AIPlayer.java:34 | `board[move.y][move.x] = v` makes the array hold the grid with v placed at the move |
| `Engine.AIPlayer.constructor` | src/AIPlayer.java:20-24 | stores depth and pruning flag, plays X (1) iff `aiIsX` and otherwise O (2), with both counters 0 |
| `Engine.AIPlayer.FindBestMove` | src/AIPlayer.java:26-54 | leaves the board unchanged; returns none iff no cell is empty, else the first empty cell in row-major order with maximal minimax score, whichever variant is on; afterwards nodeCount and pruneCount are exactly the totals of this call's searches |
| `Engine.AIPlayer.ScoreMove` | src/AIPlayer.java:34-41 | places the AI symbol, scores the reply at depth 0 with the chosen variant, empties the cell; the score is the plain-minimax root score whichever variant is on, and exactly that search's counts are added |
| `Engine.AIPlayer.Minimax` | src/AIPlayer.java:56-61 | in-place plain minimax returns the reference score, adds exactly its invocation count to nodeCount and restores the board |
| `Engine.AIPlayer.MinimaxChildren` | src/AIPlayer.java:63-88 | the for-loop over the children, placing and undoing each one, returns the reference loop's score and restores the board |
| `Engine.AIPlayer.MinimaxAlphaBeta` | src/AIPlayer.java:92-98 | in-place alpha-beta returns the reference score, adds exactly its node and cutoff counts and restores the board |
| `Engine.AIPlayer.AlphaBetaMaxChildren` | src/AIPlayer.java:100-117 | the maximizing loop raises alpha, counts one prune on `beta <= alpha` and stops; returns the reference loop's score, adds exactly its counts and restores the board |
| `Engine.AIPlayer.AlphaBetaMinChildren` | src/AIPlayer.java:118-137 | the minimizing loop lowers beta, counts one prune on `beta <= alpha` and stops; returns the reference loop's score, adds exactly its counts and restores the board |
| `Engine.AIPlayer.PlaceAndSearch` | src/AIPlayer.java:105-107 | writes the mover's symbol, searches the child with the current window, empties the cell: the child's reference score and counts, board restored |
| `Engine.AIPlayer.Evaluate` | src/AIPlayer.java:141-156 | the nested loops compute the weighted sum over all nine cells: +weight for the AI, -weight for any other non-zero value |
| `Engine.AIPlayer.GetAvailableMoves` | src/AIPlayer.java:158-170 | returns exactly the empty cells as `(col, row)` in row-major order |
| `Engine.AIPlayer.CheckWinner` | src/AIPlayer.java:172-192 | the loops over rows and columns and the two diagonal tests report a completed line of the player |
| `Engine.AIPlayer.IsBoardFull` | src/AIPlayer.java:194-203 | the scan returns false at the first empty cell and true iff there is none |
| `Engine.AIPlayer.GetNodeCount` | src/AIPlayer.java:205-207 | returns nodeCount |
| `Engine.AIPlayer.GetPruneCount` | src/AIPlayer.java:209-211 | returns pruneCount |
| `Engine.AIPlayer.SetMaxDepth` | src/AIPlayer.java:213-215 | sets maxDepth |
| `Engine.AIPlayer.SetUseAlphaBetaPruning` | src/AIPlayer.java:217-219 | switches pruning on or off |

## Left out

- Console output: the node and prune counts that `findBestMove` prints (src/AIPlayer.java:48-51) are not modelled. The counts themselves are.
- `src/Board.java`: the Swing panel, mouse handling, the timer-delayed AI turn, painting, and its own copies of the win and full-board checks with highlight bookkeeping and prints. `src/Main.java`: the dialog choices and their mapping to a depth. Both are not part of this model.
- Java `int` overflow of `nodeCount` and `pruneCount` is not modelled, because the counters are unbounded integers here. A full-depth search of tic-tac-toe stays far below 2^31 invocations.
- `java.awt.Point` is replaced by a value datatype, and `null` by `Option.None`. The aliasing of `Point` objects plays no role in the source.
- `aiPlayer` is a `const` restricted to 1 or 2: the constructor sets it to one of those values, and no method reassigns it.
- The board is an `array2<int>` of size 3x3 by precondition. The source assumes a 3x3 `int[][]`; ragged or differently sized arrays are not modelled.
- No claim is made that the engine always takes an immediate win or that full-depth play draws. The heuristic evaluation (up to ±24) can outweigh a win score of 10, and full boards are scored heuristically, so the code does not guarantee either outcome.
