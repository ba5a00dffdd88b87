/**
 * The AI player: its settings and statistics are fields, and its searches
 * work on the caller's 3x3 board in place, writing each trial symbol and
 * resetting the cell to empty before the next sibling.  Every search method
 * is proved to compute the reference function of module Search, to leave
 * the board exactly as it found it, and to add to nodeCount and pruneCount
 * exactly the invocations and cutoffs that function counts.
 *
 * The methods that read the board take, besides the array, a ghost grid
 * `b` that names the value the array holds on entry (every 3x3 array holds
 * exactly one, Cells(board), by HoldsIsCells); their contracts are stated
 * on `b`.
 */
module Engine {

  import opened Wrappers
  import opened Rules
  import opened Search
  import Equivalence

  /** The int[3][3] array `a` stores the grid `b`: its cell (row, col) is element 3 * row + col. */
  ghost predicate Holds(a: array2<int>, b: Grid)
    reads a
    requires a.Length0 == 3 && a.Length1 == 3
  {
    forall row, col | 0 <= row < 3 && 0 <= col < 3 :: a[row, col] == At(b, row, col)
  }

  /** The int[3][3] board as the row-major value the rules are stated on. */
  function Cells(a: array2<int>): Grid
    reads a
    requires a.Length0 == 3 && a.Length1 == 3
  {
    seq(9, k requires 0 <= k < 9 reads a => a[RowOf(k), ColOf(k)])
  }

  /** The grid an array holds is its value Cells, and only that one. */
  lemma HoldsIsCells(a: array2<int>, b: Grid)
    requires a.Length0 == 3 && a.Length1 == 3
    ensures Holds(a, b) <==> Cells(a) == b
  {
    if Holds(a, b) {
      forall k | 0 <= k < 9
        ensures Cells(a)[k] == b[k]
      {
        assert a[RowOf(k), ColOf(k)] == At(b, RowOf(k), ColOf(k));
      }
    }
    if Cells(a) == b {
      forall row, col | 0 <= row < 3 && 0 <= col < 3
        ensures a[row, col] == At(b, row, col)
      {
        assert Cells(a)[3 * row + col] == a[row, col];
      }
    }
  }

  /** `board[m.y][m.x] = v`: the array then holds the grid with `v` placed at `m`. */
  method SetCell(board: array2<int>, ghost b: Grid, m: Point, v: int)
    requires board.Length0 == 3 && board.Length1 == 3 && OnBoard(m) && Holds(board, b)
    modifies board
    ensures Holds(board, Place(b, m, v))
  {
    board[m.y, m.x] := v;
  }

  class AIPlayer {
    var maxDepth: int
    var useAlphaBetaPruning: bool
    const aiPlayer: Player

    var nodeCount: int
    var pruneCount: int

    constructor (maxDepth: int, useAlphaBetaPruning: bool, aiIsX: bool)
      ensures this.maxDepth == maxDepth && this.useAlphaBetaPruning == useAlphaBetaPruning
      ensures aiPlayer == if aiIsX then 1 else 2
      ensures nodeCount == 0 && pruneCount == 0
    {
      this.maxDepth := maxDepth;
      this.useAlphaBetaPruning := useAlphaBetaPruning;
      this.aiPlayer := if aiIsX then 1 else 2;
      nodeCount := 0;
      pruneCount := 0;
    }

    /**
     * Picks the AI's move: None exactly when no cell is empty; otherwise an
     * empty cell whose minimax score is the largest, and the first such
     * cell in row-major order, whichever search variant is switched on.
     * The counters are reset and then hold the totals of this call, and
     * the board is left as it was.
     */
    method FindBestMove(board: array2<int>, ghost b: Grid) returns (bestMove: Option<Point>)
      requires board.Length0 == 3 && board.Length1 == 3 && Holds(board, b)
      modifies this`nodeCount, this`pruneCount, board
      ensures Holds(board, b)
      ensures var ms := AvailableMoves(b);
              && (bestMove.None? <==> ms == [])
              && (bestMove.Some? ==>
                    && bestMove.value in ms
                    && (forall m | m in ms ::
                          RootScore(b, m, maxDepth, aiPlayer) <= RootScore(b, bestMove.value, maxDepth, aiPlayer))
                    && (forall m | m in ms && Index(m) < Index(bestMove.value) ::
                          RootScore(b, m, maxDepth, aiPlayer) < RootScore(b, bestMove.value, maxDepth, aiPlayer)))
              && nodeCount == RootNodes(b, ms, |ms|, maxDepth, aiPlayer, useAlphaBetaPruning)
              && pruneCount == RootPrunes(b, ms, |ms|, maxDepth, aiPlayer, useAlphaBetaPruning)
    {
      ghost var pruning, limit := useAlphaBetaPruning, maxDepth;
      nodeCount := 0;
      pruneCount := 0;
      bestMove := None;
      var bestScore := MinValue;
      var availableMoves := GetAvailableMoves(board, b);
      ghost var ms := availableMoves;
      ghost var scores := RootScores(b, ms, limit, aiPlayer);

      for i := 0 to |availableMoves|
        invariant Holds(board, b)
        invariant useAlphaBetaPruning == pruning && maxDepth == limit
        invariant nodeCount == RootNodes(b, ms, i, limit, aiPlayer, pruning)
        invariant pruneCount == RootPrunes(b, ms, i, limit, aiPlayer, pruning)
        invariant bestScore == BestScore(scores, i)
        invariant bestMove == BestMove(ms, scores, i)
      {
        var move := availableMoves[i];
        var score := ScoreMove(board, b, move);
        assert score == scores[i];
        if score > bestScore {
          bestScore := score;
          bestMove := Some(move);
        }
      }
      assert ms == AvailableMoves(b) && scores == RootScores(b, ms, limit, aiPlayer);
      assert bestMove == BestMove(ms, scores, |ms|);
      Equivalence.ChosenMove(b, limit, aiPlayer);
    }

    /**
     * One turn of findBestMove's loop: the AI's symbol is written at `move`,
     * the opponent's reply is searched at depth 0 with the variant switched
     * on, and the cell is emptied again.
     */
    method ScoreMove(board: array2<int>, ghost b: Grid, move: Point) returns (score: int)
      requires board.Length0 == 3 && board.Length1 == 3 && Holds(board, b) && IsFree(b, move)
      modifies this`nodeCount, this`pruneCount, board
      ensures Holds(board, b)
      ensures var r := RootSearch(b, move, maxDepth, aiPlayer, useAlphaBetaPruning);
              && score == r.score == RootScore(b, move, maxDepth, aiPlayer)
              && nodeCount == old(nodeCount) + r.nodes
              && pruneCount == old(pruneCount) + r.prunes
    {
      SetCell(board, b, move, aiPlayer);
      if useAlphaBetaPruning {
        score := MinimaxAlphaBeta(board, Place(b, move, aiPlayer), 0, false, MinValue, MaxValue);
      } else {
        score := Minimax(board, Place(b, move, aiPlayer), 0, false);
      }
      SetCell(board, Place(b, move, aiPlayer), move, Empty);
      UndoPlace(b, move, aiPlayer);
      Equivalence.RootSearchAgrees(b, move, maxDepth, aiPlayer, useAlphaBetaPruning);
    }

    /** Plain minimax on the board in place: the terminal rules, then the loop over the children. */
    method Minimax(board: array2<int>, ghost b: Grid, depth: int, isMaximizing: bool) returns (score: int)
      requires board.Length0 == 3 && board.Length1 == 3 && Holds(board, b)
      modifies this`nodeCount, board
      ensures Holds(board, b)
      ensures var r := Search.Minimax(b, depth, isMaximizing, maxDepth, aiPlayer);
              score == r.score && nodeCount == old(nodeCount) + r.nodes
      decreases EmptyCount(b), 1
    {
      nodeCount := nodeCount + 1;
      var won := CheckWinner(board, b, aiPlayer);
      if won {
        return 10 - depth;
      }
      var lost := CheckWinner(board, b, Opponent(aiPlayer));
      if lost {
        return depth - 10;
      }
      var full := IsBoardFull(board, b);
      if full || depth == maxDepth {
        score := Evaluate(board, b);
        return;
      }
      score := MinimaxChildren(board, b, depth, isMaximizing);
    }

    /**
     * Minimax's for-loop: every empty cell in turn gets the mover's
     * symbol, is searched one ply deeper and is emptied again, and the best
     * score for the side to move is kept.
     */
    method MinimaxChildren(board: array2<int>, ghost b: Grid, depth: int, isMaximizing: bool) returns (score: int)
      requires board.Length0 == 3 && board.Length1 == 3 && Holds(board, b)
      modifies this`nodeCount, board
      ensures Holds(board, b)
      ensures var r := MinimaxLoop(b, AvailableMoves(b), depth, isMaximizing, maxDepth, aiPlayer,
                                   if isMaximizing then MinValue else MaxValue);
              score == r.score && nodeCount == old(nodeCount) + r.nodes
      decreases EmptyCount(b), 0
    {
      var mover := if isMaximizing then aiPlayer else Opponent(aiPlayer);
      var bestScore := if isMaximizing then MinValue else MaxValue;
      var availableMoves := GetAvailableMoves(board, b);
      ghost var ms, limit := availableMoves, maxDepth;
      ghost var rest := MinimaxLoop(b, ms, depth, isMaximizing, limit, aiPlayer, bestScore);
      ghost var total, nodesAtStart := rest, nodeCount;

      for i := 0 to |availableMoves|
        invariant Holds(board, b) && maxDepth == limit
        invariant rest == MinimaxLoop(b, ms[i..], depth, isMaximizing, limit, aiPlayer, bestScore)
        invariant rest.score == total.score && nodeCount + rest.nodes == nodesAtStart + total.nodes
      {
        var move := availableMoves[i];
        assert ms[i..][0] == move && ms[i..][1..] == ms[i + 1..];
        SetCell(board, b, move, mover);
        var s := Minimax(board, Place(b, move, mover), depth + 1, !isMaximizing);
        SetCell(board, Place(b, move, mover), move, Empty);
        UndoPlace(b, move, mover);
        bestScore := if isMaximizing then Max(s, bestScore) else Min(s, bestScore);
        rest := MinimaxLoop(b, ms[i + 1..], depth, isMaximizing, limit, aiPlayer, bestScore);
      }
      score := bestScore;
    }

    /** Minimax with alpha-beta pruning on the board in place: the terminal rules, then the pruned loop. */
    method MinimaxAlphaBeta(board: array2<int>, ghost b: Grid, depth: int, isMaximizing: bool, alpha: int, beta: int)
      returns (score: int)
      requires board.Length0 == 3 && board.Length1 == 3 && Holds(board, b)
      modifies this`nodeCount, this`pruneCount, board
      ensures Holds(board, b)
      ensures var r := Search.AlphaBeta(b, depth, isMaximizing, alpha, beta, maxDepth, aiPlayer);
              && score == r.score
              && nodeCount == old(nodeCount) + r.nodes
              && pruneCount == old(pruneCount) + r.prunes
      decreases EmptyCount(b), 2
    {
      nodeCount := nodeCount + 1;
      var won := CheckWinner(board, b, aiPlayer);
      if won {
        return 10 - depth;
      }
      var lost := CheckWinner(board, b, Opponent(aiPlayer));
      if lost {
        return depth - 10;
      }
      var full := IsBoardFull(board, b);
      if full || depth == maxDepth {
        score := Evaluate(board, b);
        return;
      }
      if isMaximizing {
        score := AlphaBetaMaxChildren(board, b, depth, alpha, beta);
      } else {
        score := AlphaBetaMinChildren(board, b, depth, alpha, beta);
      }
    }

    /**
     * The maximizing pruned for-loop: each empty cell in turn gets the AI's
     * symbol and is searched one ply deeper with the current window; the
     * best score raises alpha, and once beta <= alpha one prune is counted
     * and the remaining cells are skipped.
     */
    method AlphaBetaMaxChildren(board: array2<int>, ghost b: Grid, depth: int, alpha: int, beta: int)
      returns (score: int)
      requires board.Length0 == 3 && board.Length1 == 3 && Holds(board, b)
      modifies this`nodeCount, this`pruneCount, board
      ensures Holds(board, b)
      ensures var r := AlphaBetaLoop(b, AvailableMoves(b), depth, true, alpha, beta, maxDepth, aiPlayer, MinValue);
              && score == r.score
              && nodeCount == old(nodeCount) + r.nodes
              && pruneCount == old(pruneCount) + r.prunes
      decreases EmptyCount(b), 1
    {
      var bestScore := MinValue;
      // alpha is updated in place in the source
      var lo := alpha;
      var availableMoves := GetAvailableMoves(board, b);
      ghost var ms, limit := availableMoves, maxDepth;
      ghost var rest := AlphaBetaLoop(b, ms, depth, true, lo, beta, limit, aiPlayer, bestScore);
      ghost var total, nodesAtStart, prunesAtStart := rest, nodeCount, pruneCount;

      var i := 0;
      while i < |availableMoves|
        invariant 0 <= i <= |ms|
        invariant Holds(board, b) && maxDepth == limit
        invariant rest == AlphaBetaLoop(b, ms[i..], depth, true, lo, beta, limit, aiPlayer, bestScore)
        invariant rest.score == total.score
        invariant nodeCount + rest.nodes == nodesAtStart + total.nodes
        invariant pruneCount + rest.prunes == prunesAtStart + total.prunes
      {
        var move := availableMoves[i];
        assert ms[i..][0] == move && ms[i..][1..] == ms[i + 1..];
        ghost var child := AlphaBeta(Place(b, move, aiPlayer), depth + 1, false, lo, beta, limit, aiPlayer);
        var s := PlaceAndSearch(board, b, move, aiPlayer, depth + 1, false, lo, beta);
        bestScore := Max(s, bestScore);
        lo := Max(lo, bestScore);
        if beta <= lo {
          assert rest == Outcome(bestScore, child.nodes, child.prunes + 1);
          pruneCount := pruneCount + 1;
          break;
        }
        ghost var next := AlphaBetaLoop(b, ms[i + 1..], depth, true, lo, beta, limit, aiPlayer, bestScore);
        assert rest == Outcome(next.score, child.nodes + next.nodes, child.prunes + next.prunes);
        rest := next;
        i := i + 1;
      }
      score := bestScore;
    }

    /**
     * The minimizing pruned for-loop: each empty cell in turn gets the
     * opponent's symbol and is searched one ply deeper with the current
     * window; the best score lowers beta, and once beta <= alpha one prune
     * is counted and the remaining cells are skipped.
     */
    method AlphaBetaMinChildren(board: array2<int>, ghost b: Grid, depth: int, alpha: int, beta: int)
      returns (score: int)
      requires board.Length0 == 3 && board.Length1 == 3 && Holds(board, b)
      modifies this`nodeCount, this`pruneCount, board
      ensures Holds(board, b)
      ensures var r := AlphaBetaLoop(b, AvailableMoves(b), depth, false, alpha, beta, maxDepth, aiPlayer, MaxValue);
              && score == r.score
              && nodeCount == old(nodeCount) + r.nodes
              && pruneCount == old(pruneCount) + r.prunes
      decreases EmptyCount(b), 1
    {
      var bestScore := MaxValue;
      var opponent := Opponent(aiPlayer);
      // beta is updated in place in the source
      var hi := beta;
      var availableMoves := GetAvailableMoves(board, b);
      ghost var ms, limit := availableMoves, maxDepth;
      ghost var rest := AlphaBetaLoop(b, ms, depth, false, alpha, hi, limit, aiPlayer, bestScore);
      ghost var total, nodesAtStart, prunesAtStart := rest, nodeCount, pruneCount;

      var i := 0;
      while i < |availableMoves|
        invariant 0 <= i <= |ms|
        invariant Holds(board, b) && maxDepth == limit
        invariant rest == AlphaBetaLoop(b, ms[i..], depth, false, alpha, hi, limit, aiPlayer, bestScore)
        invariant rest.score == total.score
        invariant nodeCount + rest.nodes == nodesAtStart + total.nodes
        invariant pruneCount + rest.prunes == prunesAtStart + total.prunes
      {
        var move := availableMoves[i];
        assert ms[i..][0] == move && ms[i..][1..] == ms[i + 1..];
        ghost var child := AlphaBeta(Place(b, move, opponent), depth + 1, true, alpha, hi, limit, aiPlayer);
        var s := PlaceAndSearch(board, b, move, opponent, depth + 1, true, alpha, hi);
        bestScore := Min(s, bestScore);
        hi := Min(hi, bestScore);
        if hi <= alpha {
          assert rest == Outcome(bestScore, child.nodes, child.prunes + 1);
          pruneCount := pruneCount + 1;
          break;
        }
        ghost var next := AlphaBetaLoop(b, ms[i + 1..], depth, false, alpha, hi, limit, aiPlayer, bestScore);
        assert rest == Outcome(next.score, child.nodes + next.nodes, child.prunes + next.prunes);
        rest := next;
        i := i + 1;
      }
      score := bestScore;
    }

    /**
     * One turn of a pruned loop: `mover`'s symbol is written at `move`, the
     * position is searched with the window (alpha, beta), and the cell is
     * emptied again.
     */
    method PlaceAndSearch(board: array2<int>, ghost b: Grid, move: Point, mover: Player, depth: int,
                          isMaximizing: bool, alpha: int, beta: int) returns (score: int)
      requires board.Length0 == 3 && board.Length1 == 3 && Holds(board, b) && IsFree(b, move)
      modifies this`nodeCount, this`pruneCount, board
      ensures Holds(board, b)
      ensures var r := AlphaBeta(Place(b, move, mover), depth, isMaximizing, alpha, beta, maxDepth, aiPlayer);
              && score == r.score
              && nodeCount == old(nodeCount) + r.nodes
              && pruneCount == old(pruneCount) + r.prunes
      decreases EmptyCount(b), 0
    {
      SetCell(board, b, move, mover);
      score := MinimaxAlphaBeta(board, Place(b, move, mover), depth, isMaximizing, alpha, beta);
      SetCell(board, Place(b, move, mover), move, Empty);
      UndoPlace(b, move, mover);
    }

    /** The positional evaluation, accumulated cell by cell in row-major order. */
    method Evaluate(board: array2<int>, ghost b: Grid) returns (score: int)
      requires board.Length0 == 3 && board.Length1 == 3 && Holds(board, b)
      ensures score == StaticEval(b, aiPlayer)
    {
      score := 0;
      for row := 0 to 3
        invariant score == EvalPrefix(b, aiPlayer, 3 * row)
      {
        for col := 0 to 3
          invariant score == EvalPrefix(b, aiPlayer, 3 * row + col)
        {
          WeightAt(row, col);
          if board[row, col] == aiPlayer {
            score := score + EvaluationTable[row][col];
          } else if board[row, col] != Empty {
            score := score - EvaluationTable[row][col];
          }
        }
      }
    }

    /** The empty cells as (column, row) points, appended in row-major order. */
    method GetAvailableMoves(board: array2<int>, ghost b: Grid) returns (availableMoves: seq<Point>)
      requires board.Length0 == 3 && board.Length1 == 3 && Holds(board, b)
      ensures availableMoves == AvailableMoves(b)
    {
      availableMoves := [];
      for row := 0 to 3
        invariant availableMoves == MovesUpTo(b, 3 * row)
      {
        for col := 0 to 3
          invariant availableMoves == MovesUpTo(b, 3 * row + col)
        {
          assert CellAt(3 * row + col) == Point(col, row);
          if board[row, col] == Empty {
            availableMoves := availableMoves + [Point(col, row)];
          }
        }
      }
    }

    /** The rows, then the columns, then the two diagonals, each tested for three cells of `player`. */
    method CheckWinner(board: array2<int>, ghost b: Grid, player: int) returns (won: bool)
      requires board.Length0 == 3 && board.Length1 == 3 && Holds(board, b)
      ensures won == Rules.CheckWinner(b, player)
    {
      for i := 0 to 3
        invariant RowWinFrom(b, player, i) == RowWinFrom(b, player, 0)
      {
        if board[i, 0] == player && board[i, 1] == player && board[i, 2] == player {
          return true;
        }
      }
      for i := 0 to 3
        invariant !RowWinFrom(b, player, 0)
        invariant ColumnWinFrom(b, player, i) == ColumnWinFrom(b, player, 0)
      {
        if board[0, i] == player && board[1, i] == player && board[2, i] == player {
          return true;
        }
      }
      if board[0, 0] == player && board[1, 1] == player && board[2, 2] == player {
        return true;
      }
      if board[0, 2] == player && board[1, 1] == player && board[2, 0] == player {
        return true;
      }
      return false;
    }

    /** The cells in row-major order, until an empty one is found. */
    method IsBoardFull(board: array2<int>, ghost b: Grid) returns (full: bool)
      requires board.Length0 == 3 && board.Length1 == 3 && Holds(board, b)
      ensures full == Rules.IsBoardFull(b)
    {
      for row := 0 to 3
        invariant forall k | 0 <= k < 3 * row :: b[k] != Empty
      {
        for col := 0 to 3
          invariant forall k | 0 <= k < 3 * row + col :: b[k] != Empty
        {
          if board[row, col] == Empty {
            return false;
          }
        }
      }
      return true;
    }

    method GetNodeCount() returns (count: int)
      ensures count == nodeCount
    {
      count := nodeCount;
    }

    method GetPruneCount() returns (count: int)
      ensures count == pruneCount
    {
      count := pruneCount;
    }

    method SetMaxDepth(maxDepth: int)
      modifies this`maxDepth
      ensures this.maxDepth == maxDepth
    {
      this.maxDepth := maxDepth;
    }

    method SetUseAlphaBetaPruning(useAlphaBetaPruning: bool)
      modifies this`useAlphaBetaPruning
      ensures this.useAlphaBetaPruning == useAlphaBetaPruning
    {
      this.useAlphaBetaPruning := useAlphaBetaPruning;
    }
  }
}
