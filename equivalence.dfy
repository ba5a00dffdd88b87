/**
 * What the search promises about its scores: they stay within [-24, 24];
 * alpha-beta is fail-soft against plain minimax for every window inside
 * the Java int range, so with the full window (MinValue, MaxValue) it
 * returns exactly the minimax score; and pruning never visits more nodes.
 */
module Equivalence {

  import opened Wrappers
  import opened Rules
  import opened Search

  // ---------------------------------------------------------------------
  // Terminal rules

  /**
   * Every invocation counts as one node, and the terminal rules apply in
   * order: an AI line scores 10 - depth, else an opponent line depth - 10,
   * else a full board or the cutoff depth the static evaluation; a leaf
   * visits only itself, and only a non-terminal node searches children.
   */
  lemma MinimaxLeaves(b: Grid, depth: int, isMax: bool, maxDepth: int, ai: Player)
    ensures var r := Minimax(b, depth, isMax, maxDepth, ai);
            var won, lost := CheckWinner(b, ai), CheckWinner(b, Opponent(ai));
            && r.prunes == 0
            && (won ==> r == Outcome(10 - depth, 1, 0))
            && (!won && lost ==> r == Outcome(depth - 10, 1, 0))
            && (!won && !lost && (IsBoardFull(b) || depth == maxDepth) ==> r == Outcome(StaticEval(b, ai), 1, 0))
            && (!won && !lost && !IsBoardFull(b) && depth != maxDepth ==> r.nodes >= 2)
  {
    var ms := AvailableMoves(b);
    if Terminal(b, depth, maxDepth, ai).None? {
      var best := if isMax then MinValue else MaxValue;
      var child := Minimax(Place(b, ms[0], Mover(ai, isMax)), depth + 1, !isMax, maxDepth, ai);
      assert child.nodes >= 1;
      assert MinimaxLoop(b, ms, depth, isMax, maxDepth, ai, best).nodes >= child.nodes;
    }
  }

  /** The pruned search applies the same terminal rules in the same order, whatever the window. */
  lemma AlphaBetaLeaves(b: Grid, depth: int, isMax: bool, alpha: int, beta: int, maxDepth: int, ai: Player)
    ensures var r := AlphaBeta(b, depth, isMax, alpha, beta, maxDepth, ai);
            var won, lost := CheckWinner(b, ai), CheckWinner(b, Opponent(ai));
            && (won ==> r == Outcome(10 - depth, 1, 0))
            && (!won && lost ==> r == Outcome(depth - 10, 1, 0))
            && (!won && !lost && (IsBoardFull(b) || depth == maxDepth) ==> r == Outcome(StaticEval(b, ai), 1, 0))
            && (!won && !lost && !IsBoardFull(b) && depth != maxDepth ==> r.nodes >= 2)
  {
    var ms := AvailableMoves(b);
    if Terminal(b, depth, maxDepth, ai).None? {
      var best := if isMax then MinValue else MaxValue;
      var child := AlphaBeta(Place(b, ms[0], Mover(ai, isMax)), depth + 1, !isMax, alpha, beta, maxDepth, ai);
      assert child.nodes >= 1;
      assert AlphaBetaLoop(b, ms, depth, isMax, alpha, beta, maxDepth, ai, best).nodes >= child.nodes;
    }
  }

  /**
   * At the cutoff depth on an empty board both searches return the empty
   * board's evaluation, 0, after visiting exactly one node.
   */
  lemma CutoffOnEmptyBoard(b: Grid, depth: int, isMax: bool, alpha: int, beta: int, ai: Player)
    requires forall k | 0 <= k < 9 :: b[k] == Empty
    ensures Minimax(b, depth, isMax, depth, ai) == Outcome(0, 1, 0)
    ensures AlphaBeta(b, depth, isMax, alpha, beta, depth, ai) == Outcome(0, 1, 0)
  {
    EmptyBoardScoresZero(b, ai);
    assert !CheckWinner(b, ai) && !CheckWinner(b, Opponent(ai)) by {
      assert At(b, 0, 0) == Empty && At(b, 0, 1) == Empty && At(b, 0, 2) == Empty;
      assert At(b, 1, 0) == Empty && At(b, 1, 1) == Empty && At(b, 1, 2) == Empty;
      assert At(b, 2, 0) == Empty && At(b, 2, 1) == Empty && At(b, 2, 2) == Empty;
      assert !RowWinFrom(b, ai, 0) && !ColumnWinFrom(b, ai, 0);
      assert !RowWinFrom(b, Opponent(ai), 0) && !ColumnWinFrom(b, Opponent(ai), 0);
    }
    MinimaxLeaves(b, depth, isMax, depth, ai);
    AlphaBetaLeaves(b, depth, isMax, alpha, beta, depth, ai);
  }

  // ---------------------------------------------------------------------
  // Alpha-beta against plain minimax

  /** `v` cut to the window [lo, hi]. */
  function Clamp(v: int, lo: int, hi: int): int {
    Max(lo, Min(hi, v))
  }

  /** The pruned search and plain minimax agree once both are cut to the window. */
  lemma {:induction false} AlphaBetaClamp(b: Grid, depth: int, isMax: bool, alpha: int, beta: int, maxDepth: int,
                                          ai: Player)
    requires MinValue <= alpha < beta <= MaxValue
    ensures Clamp(AlphaBeta(b, depth, isMax, alpha, beta, maxDepth, ai).score, alpha, beta)
         == Clamp(Minimax(b, depth, isMax, maxDepth, ai).score, alpha, beta)
    decreases EmptyCount(b), 1
  {
    if Terminal(b, depth, maxDepth, ai).None? {
      if isMax {
        MaxLoopClamp(b, AvailableMoves(b), depth, alpha, beta, maxDepth, ai, MinValue, MinValue);
      } else {
        MinLoopClamp(b, AvailableMoves(b), depth, alpha, beta, maxDepth, ai, MaxValue, MaxValue);
      }
    }
  }

  /** The maximizing loop, entered with both best scores at or below alpha. */
  lemma {:induction false} MaxLoopClamp(b: Grid, ms: seq<Point>, depth: int, alpha: int, beta: int, maxDepth: int,
                                        ai: Player, prunedBest: int, plainBest: int)
    requires AllFree(b, ms)
    requires MinValue <= alpha < beta <= MaxValue
    requires prunedBest <= alpha && plainBest <= alpha
    ensures Clamp(AlphaBetaLoop(b, ms, depth, true, alpha, beta, maxDepth, ai, prunedBest).score, alpha, beta)
         == Clamp(MinimaxLoop(b, ms, depth, true, maxDepth, ai, plainBest).score, alpha, beta)
    decreases EmptyCount(b), 0, |ms|
  {
    if ms != [] {
      var child := Place(b, ms[0], Mover(ai, true));
      AlphaBetaClamp(child, depth + 1, false, alpha, beta, maxDepth, ai);
      var pruned := AlphaBeta(child, depth + 1, false, alpha, beta, maxDepth, ai).score;
      var plain := Minimax(child, depth + 1, false, maxDepth, ai).score;
      var prunedBest' := Max(pruned, prunedBest);
      var plainBest' := Max(plain, plainBest);
      var alpha' := Max(alpha, prunedBest');
      if alpha' < beta {
        MaxLoopClamp(b, ms[1..], depth, alpha', beta, maxDepth, ai, prunedBest', plainBest');
      }
    }
  }

  /** The minimizing loop, entered with both best scores at or above beta. */
  lemma {:induction false} MinLoopClamp(b: Grid, ms: seq<Point>, depth: int, alpha: int, beta: int, maxDepth: int,
                                        ai: Player, prunedBest: int, plainBest: int)
    requires AllFree(b, ms)
    requires MinValue <= alpha < beta <= MaxValue
    requires prunedBest >= beta && plainBest >= beta
    ensures Clamp(AlphaBetaLoop(b, ms, depth, false, alpha, beta, maxDepth, ai, prunedBest).score, alpha, beta)
         == Clamp(MinimaxLoop(b, ms, depth, false, maxDepth, ai, plainBest).score, alpha, beta)
    decreases EmptyCount(b), 0, |ms|
  {
    if ms != [] {
      var child := Place(b, ms[0], Mover(ai, false));
      AlphaBetaClamp(child, depth + 1, true, alpha, beta, maxDepth, ai);
      var pruned := AlphaBeta(child, depth + 1, true, alpha, beta, maxDepth, ai).score;
      var plain := Minimax(child, depth + 1, true, maxDepth, ai).score;
      var prunedBest' := Min(pruned, prunedBest);
      var plainBest' := Min(plain, plainBest);
      var beta' := Min(beta, prunedBest');
      if alpha < beta' {
        MinLoopClamp(b, ms[1..], depth, alpha, beta', maxDepth, ai, prunedBest', plainBest');
      }
    }
  }

  /**
   * The fail-soft window property: for a window inside the int range, the
   * pruned score is at most alpha when the minimax value is, at least beta
   * when the value is, and equal to the value strictly inside the window.
   */
  lemma AlphaBetaWindow(b: Grid, depth: int, isMax: bool, alpha: int, beta: int, maxDepth: int, ai: Player)
    requires MinValue <= alpha < beta <= MaxValue
    ensures var v := Minimax(b, depth, isMax, maxDepth, ai).score;
            var r := AlphaBeta(b, depth, isMax, alpha, beta, maxDepth, ai).score;
            && (v <= alpha ==> r <= alpha)
            && (v >= beta ==> r >= beta)
            && (alpha < v < beta ==> r == v)
  {
    AlphaBetaClamp(b, depth, isMax, alpha, beta, maxDepth, ai);
  }

  /** With the full window the pruned search returns the minimax score. */
  lemma FullWindowAgrees(b: Grid, depth: int, isMax: bool, maxDepth: int, ai: Player)
    requires 0 <= depth && depth + EmptyCount(b) <= 9
    ensures AlphaBeta(b, depth, isMax, MinValue, MaxValue, maxDepth, ai).score
         == Minimax(b, depth, isMax, maxDepth, ai).score
  {
    MinimaxRange(b, depth, isMax, maxDepth, ai);
    AlphaBetaWindow(b, depth, isMax, MinValue, MaxValue, maxDepth, ai);
  }

  /**
   * The score findBestMove computes for a free cell is the same with and
   * without pruning, and lies in [-24, 24].
   */
  lemma RootSearchAgrees(b: Grid, m: Point, maxDepth: int, ai: Player, pruning: bool)
    requires IsFree(b, m)
    ensures RootSearch(b, m, maxDepth, ai, pruning).score == RootScore(b, m, maxDepth, ai)
    ensures -24 <= RootScore(b, m, maxDepth, ai) <= 24
  {
    MoveCountIsEmptyCount(b);
    FullWindowAgrees(Place(b, m, ai), 0, false, maxDepth, ai);
    MinimaxRange(Place(b, m, ai), 0, false, maxDepth, ai);
  }

  /** Every score findBestMove computes for a free cell lies in [-24, 24]. */
  lemma RootScoresInRange(b: Grid, ms: seq<Point>, maxDepth: int, ai: Player)
    requires AllFree(b, ms)
    ensures forall k | 0 <= k < |ms| :: -24 <= RootScores(b, ms, maxDepth, ai)[k] <= 24
  {
    forall k | 0 <= k < |ms|
      ensures -24 <= RootScore(b, ms[k], maxDepth, ai) <= 24
    {
      RootSearchAgrees(b, ms[k], maxDepth, ai, false);
    }
  }

  /**
   * What findBestMove's loop keeps after the first `n` moves, for scores
   * above Integer.MIN_VALUE: once a move has been tried there is a best
   * move; its score is the largest so far; and it sits at the position `j`
   * of the first move to reach that score.
   */
  lemma {:induction false} BestMoveIsFirstMaximal(ms: seq<Point>, scores: seq<int>, n: nat) returns (j: nat)
    requires n <= |ms| == |scores|
    requires forall k | 0 <= k < n :: scores[k] > MinValue
    ensures var best, score := BestMove(ms, scores, n), BestScore(scores, n);
            && (best.None? <==> n == 0)
            && (forall k | 0 <= k < n :: scores[k] <= score)
            && (best.Some? ==> j < n && ms[j] == best.value && scores[j] == score)
            && (forall k | 0 <= k < j && k < n :: scores[k] < score)
  {
    if n == 0 {
      return 0;
    }
    j := BestMoveIsFirstMaximal(ms, scores, n - 1);
    if scores[n - 1] > BestScore(scores, n - 1) {
      j := n - 1;
    }
  }

  /**
   * The free cells are listed in increasing row-major order, so whatever
   * their scores (all above Integer.MIN_VALUE), the strict `>` scan picks
   * none exactly when there is no free cell, and otherwise the position `j`
   * of a free cell whose score is the largest and which no free cell before
   * it in row-major order reaches.
   */
  lemma FirstInRowMajorOrder(b: Grid, scores: seq<int>) returns (j: nat)
    requires |AvailableMoves(b)| == |scores|
    requires forall k | 0 <= k < |scores| :: scores[k] > MinValue
    ensures var ms := AvailableMoves(b);
            var best := BestMove(ms, scores, |ms|);
            && (best.None? <==> ms == [])
            && (best.Some? ==>
                  && j < |ms| && best.value == ms[j]
                  && (forall k | 0 <= k < |ms| :: scores[k] <= scores[j])
                  && (forall k | 0 <= k < |ms| && Index(ms[k]) < Index(ms[j]) :: scores[k] < scores[j]))
  {
    var ms := AvailableMoves(b);
    AvailableMovesExact(b);
    j := BestMoveIsFirstMaximal(ms, scores, |ms|);
  }

  /**
   * The move findBestMove picks on the board `b`: none exactly when no cell
   * is empty; otherwise an empty cell with the largest root score, and of
   * those the first in row-major order.
   */
  lemma ChosenMove(b: Grid, maxDepth: int, ai: Player)
    ensures var ms := AvailableMoves(b);
            var best := BestMove(ms, RootScores(b, ms, maxDepth, ai), |ms|);
            && (best.None? <==> ms == [])
            && (best.Some? ==>
                  && best.value in ms
                  && (forall m | m in ms :: RootScore(b, m, maxDepth, ai) <= RootScore(b, best.value, maxDepth, ai))
                  && (forall m | m in ms && Index(m) < Index(best.value) ::
                        RootScore(b, m, maxDepth, ai) < RootScore(b, best.value, maxDepth, ai)))
  {
    var ms := AvailableMoves(b);
    var scores := RootScores(b, ms, maxDepth, ai);
    RootScoresInRange(b, ms, maxDepth, ai);
    var j := FirstInRowMajorOrder(b, scores);
    if ms != [] {
      var top := scores[j];
      assert top == RootScore(b, ms[j], maxDepth, ai);
      forall m | m in ms
        ensures RootScore(b, m, maxDepth, ai) <= top
        ensures Index(m) < Index(ms[j]) ==> RootScore(b, m, maxDepth, ai) < top
      {
        var k :| 0 <= k < |ms| && ms[k] == m;
        assert scores[k] == RootScore(b, m, maxDepth, ai);
      }
    }
  }

  // ---------------------------------------------------------------------
  // Node counts

  /** On every board, every window and either turn, pruning visits no more nodes than plain minimax. */
  lemma {:induction false} PruningVisitsNoMore(b: Grid, depth: int, isMax: bool, alpha: int, beta: int, maxDepth: int,
                                               ai: Player)
    ensures AlphaBeta(b, depth, isMax, alpha, beta, maxDepth, ai).nodes <= Minimax(b, depth, isMax, maxDepth, ai).nodes
    decreases EmptyCount(b), 1
  {
    if Terminal(b, depth, maxDepth, ai).None? {
      var best := if isMax then MinValue else MaxValue;
      LoopVisitsNoMore(b, AvailableMoves(b), depth, isMax, alpha, beta, maxDepth, ai, best, best);
    }
  }

  lemma {:induction false} LoopVisitsNoMore(b: Grid, ms: seq<Point>, depth: int, isMax: bool, alpha: int, beta: int,
                                            maxDepth: int, ai: Player, prunedBest: int, plainBest: int)
    requires AllFree(b, ms)
    ensures AlphaBetaLoop(b, ms, depth, isMax, alpha, beta, maxDepth, ai, prunedBest).nodes
         <= MinimaxLoop(b, ms, depth, isMax, maxDepth, ai, plainBest).nodes
    decreases EmptyCount(b), 0, |ms|
  {
    if ms != [] {
      var child := Place(b, ms[0], Mover(ai, isMax));
      PruningVisitsNoMore(child, depth + 1, !isMax, alpha, beta, maxDepth, ai);
      var pruned := AlphaBeta(child, depth + 1, !isMax, alpha, beta, maxDepth, ai).score;
      var plain := Minimax(child, depth + 1, !isMax, maxDepth, ai).score;
      if isMax {
        var best' := Max(pruned, prunedBest);
        LoopVisitsNoMore(b, ms[1..], depth, isMax, Max(alpha, best'), beta, maxDepth, ai, best', Max(plain, plainBest));
      } else {
        var best' := Min(pruned, prunedBest);
        LoopVisitsNoMore(b, ms[1..], depth, isMax, alpha, Min(beta, best'), maxDepth, ai, best', Min(plain, plainBest));
      }
    }
  }
}
