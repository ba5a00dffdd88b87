/**
 * The two game-tree searches of the engine as pure reference functions:
 * plain minimax and minimax with alpha-beta pruning.  Each node returns its
 * score together with the number of search invocations in its subtree
 * (the node itself included, as nodeCount counts them) and the number of
 * cutoffs taken there (as pruneCount counts them).
 *
 * The board is scratch space in the Java code; here every child is the
 * parent with one more symbol placed, and the class in module Engine
 * proves that its in-place search computes exactly these values.
 *
 * Each search is split the way the Java method runs: Minimax counts the
 * invocation and MinimaxBody does the rest.  The split also keeps a proof
 * about a parent from unfolding the terminal tests of every child.
 */
module Search {

  import opened Wrappers
  import opened Rules

  /** Integer.MIN_VALUE and Integer.MAX_VALUE, the sentinels of the search. */
  const MinValue: int := -0x8000_0000
  const MaxValue: int := 0x7fff_ffff

  datatype Outcome = Outcome(score: int, nodes: nat, prunes: nat)

  function Max(a: int, b: int): int { if a >= b then a else b }

  function Min(a: int, b: int): int { if a <= b then a else b }

  /** The symbol placed by the side to move: the AI when maximizing, its opponent otherwise. */
  function Mover(ai: Player, isMax: bool): Player {
    if isMax then ai else Opponent(ai)
  }

  predicate AllFree(b: Grid, ms: seq<Point>) {
    forall i | 0 <= i < |ms| :: IsFree(b, ms[i])
  }

  /**
   * The terminal rules, in the order the code tests them: an AI line scores
   * 10 - depth, else an opponent line scores depth - 10, else a full board
   * or the depth cutoff scores the static evaluation.  None means the
   * search goes on, and then there is always a move to try.
   */
  function Terminal(b: Grid, depth: int, maxDepth: int, ai: Player): (r: Option<int>)
    ensures r.None? <==>
      && !CheckWinner(b, ai)
      && !CheckWinner(b, Opponent(ai))
      && AvailableMoves(b) != []
      && depth != maxDepth
  {
    if CheckWinner(b, ai) then Some(10 - depth)
    else if CheckWinner(b, Opponent(ai)) then Some(depth - 10)
    else if IsBoardFull(b) || depth == maxDepth then Some(StaticEval(b, ai))
    else None
  }

  // ---------------------------------------------------------------------
  // Plain minimax

  /**
   * minimax(board, depth, isMax): the invocation counts itself, then does
   * the rest of its work; the plain search never counts a cutoff.
   */
  function Minimax(b: Grid, depth: int, isMax: bool, maxDepth: int, ai: Player): (r: Outcome)
    ensures r.nodes >= 1 && r.prunes == 0
    decreases EmptyCount(b), 2
  {
    var rest := MinimaxBody(b, depth, isMax, maxDepth, ai);
    Outcome(rest.score, 1 + rest.nodes, 0)
  }

  /** What minimax does after counting itself: the terminal rules in order, else the loop over the moves. */
  function MinimaxBody(b: Grid, depth: int, isMax: bool, maxDepth: int, ai: Player): (r: Outcome)
    ensures r.prunes == 0
    decreases EmptyCount(b), 1
  {
    match Terminal(b, depth, maxDepth, ai)
    case Some(v) => Outcome(v, 0, 0)
    case None => MinimaxLoop(b, AvailableMoves(b), depth, isMax, maxDepth, ai, if isMax then MinValue else MaxValue)
  }

  /**
   * The for-loop over the moves `ms` still to try, with `best` the best
   * score so far; the score is the final bestScore and the node count that
   * of the children tried.
   */
  function MinimaxLoop(b: Grid, ms: seq<Point>, depth: int, isMax: bool, maxDepth: int, ai: Player, best: int)
    : (r: Outcome)
    requires AllFree(b, ms)
    ensures isMax ==> r.score >= best
    ensures !isMax ==> r.score <= best
    ensures r.nodes >= |ms| && r.prunes == 0
    decreases EmptyCount(b), 0, |ms|
  {
    if ms == [] then Outcome(best, 0, 0)
    else
      var child := Minimax(Place(b, ms[0], Mover(ai, isMax)), depth + 1, !isMax, maxDepth, ai);
      var best' := if isMax then Max(child.score, best) else Min(child.score, best);
      var rest := MinimaxLoop(b, ms[1..], depth, isMax, maxDepth, ai, best');
      Outcome(rest.score, child.nodes + rest.nodes, 0)
  }

  // ---------------------------------------------------------------------
  // Minimax with alpha-beta pruning

  /** minimaxAlphaBeta(board, depth, isMax, alpha, beta): the invocation counts itself, then does the rest. */
  function AlphaBeta(b: Grid, depth: int, isMax: bool, alpha: int, beta: int, maxDepth: int, ai: Player): (r: Outcome)
    ensures r.nodes >= 1
    decreases EmptyCount(b), 2
  {
    var rest := AlphaBetaBody(b, depth, isMax, alpha, beta, maxDepth, ai);
    Outcome(rest.score, 1 + rest.nodes, rest.prunes)
  }

  /** What minimaxAlphaBeta does after counting itself: the terminal rules in order, else the pruned loop. */
  function AlphaBetaBody(b: Grid, depth: int, isMax: bool, alpha: int, beta: int, maxDepth: int, ai: Player)
    : (r: Outcome)
    ensures r.nodes == 0 ==> r.prunes == 0
    decreases EmptyCount(b), 1
  {
    match Terminal(b, depth, maxDepth, ai)
    case Some(v) => Outcome(v, 0, 0)
    case None =>
      AlphaBetaLoop(b, AvailableMoves(b), depth, isMax, alpha, beta, maxDepth, ai, if isMax then MinValue else MaxValue)
  }

  /**
   * The pruned for-loop over the moves `ms` still to try, with the current
   * window (`alpha`, `beta`) and `best` the best score so far.  A cutoff
   * (beta <= alpha after the update) counts one prune and skips the rest.
   */
  function AlphaBetaLoop(b: Grid, ms: seq<Point>, depth: int, isMax: bool, alpha: int, beta: int,
                         maxDepth: int, ai: Player, best: int): (r: Outcome)
    requires AllFree(b, ms)
    ensures isMax ==> r.score >= best
    ensures !isMax ==> r.score <= best
    ensures r.nodes == 0 ==> r.prunes == 0
    decreases EmptyCount(b), 0, |ms|
  {
    if ms == [] then Outcome(best, 0, 0)
    else
      var child := AlphaBeta(Place(b, ms[0], Mover(ai, isMax)), depth + 1, !isMax, alpha, beta, maxDepth, ai);
      if isMax then
        var best' := Max(child.score, best);
        var alpha' := Max(alpha, best');
        if beta <= alpha' then Outcome(best', child.nodes, child.prunes + 1)
        else
          var rest := AlphaBetaLoop(b, ms[1..], depth, isMax, alpha', beta, maxDepth, ai, best');
          Outcome(rest.score, child.nodes + rest.nodes, child.prunes + rest.prunes)
      else
        var best' := Min(child.score, best);
        var beta' := Min(beta, best');
        if beta' <= alpha then Outcome(best', child.nodes, child.prunes + 1)
        else
          var rest := AlphaBetaLoop(b, ms[1..], depth, isMax, alpha, beta', maxDepth, ai, best');
          Outcome(rest.score, child.nodes + rest.nodes, child.prunes + rest.prunes)
  }

  // ---------------------------------------------------------------------
  // Score range

  /**
   * Below a root whose cells and depth add up to at most nine plies, every
   * score is a win score 10 - depth, a loss score depth - 10 or a static
   * evaluation, so it lies in [-24, 24], strictly inside the sentinels.
   */
  lemma {:induction false} MinimaxRange(b: Grid, depth: int, isMax: bool, maxDepth: int, ai: Player)
    requires 0 <= depth && depth + EmptyCount(b) <= 9
    ensures -24 <= Minimax(b, depth, isMax, maxDepth, ai).score <= 24
    decreases EmptyCount(b), 1
  {
    if Terminal(b, depth, maxDepth, ai).None? {
      MinimaxLoopRange(b, AvailableMoves(b), depth, isMax, maxDepth, ai, if isMax then MinValue else MaxValue);
    }
  }

  lemma {:induction false} MinimaxLoopRange(b: Grid, ms: seq<Point>, depth: int, isMax: bool, maxDepth: int, ai: Player,
                                            best: int)
    requires AllFree(b, ms)
    requires 0 <= depth && depth + EmptyCount(b) <= 9
    requires ms != [] || -24 <= best <= 24
    requires isMax ==> best <= 24
    requires !isMax ==> best >= -24
    ensures -24 <= MinimaxLoop(b, ms, depth, isMax, maxDepth, ai, best).score <= 24
    decreases EmptyCount(b), 0, |ms|
  {
    if ms != [] {
      var child := Place(b, ms[0], Mover(ai, isMax));
      MinimaxRange(child, depth + 1, !isMax, maxDepth, ai);
      var score := Minimax(child, depth + 1, !isMax, maxDepth, ai).score;
      MinimaxLoopRange(b, ms[1..], depth, isMax, maxDepth, ai, if isMax then Max(score, best) else Min(score, best));
    }
  }

  // ---------------------------------------------------------------------
  // The root of findBestMove

  /** The opponent's reply to a move into a free cell scores within [-24, 24]. */
  lemma ReplyRange(b: Grid, m: Point, maxDepth: int, ai: Player)
    requires OnBoard(m)
    ensures IsFree(b, m) ==> -24 <= Minimax(Place(b, m, ai), 0, false, maxDepth, ai).score <= 24
  {
    if IsFree(b, m) {
      MoveCountIsEmptyCount(b);
      MinimaxRange(Place(b, m, ai), 0, false, maxDepth, ai);
    }
  }

  /**
   * The score findBestMove gives a move of the AI: the opponent replies, at
   * depth 0.  For a free cell it lies in [-24, 24], above the initial
   * bestScore Integer.MIN_VALUE.
   */
  function RootScore(b: Grid, m: Point, maxDepth: int, ai: Player): (r: int)
    requires OnBoard(m)
    ensures IsFree(b, m) ==> -24 <= r <= 24
  {
    ReplyRange(b, m, maxDepth, ai);
    Minimax(Place(b, m, ai), 0, false, maxDepth, ai).score
  }

  /**
   * The search findBestMove runs below move `m`, with or without pruning:
   * at least one node, and without pruning the plain score and no cutoff.
   */
  function RootSearch(b: Grid, m: Point, maxDepth: int, ai: Player, pruning: bool): (r: Outcome)
    requires OnBoard(m)
    ensures r.nodes >= 1
    ensures !pruning ==> r.score == RootScore(b, m, maxDepth, ai) && r.prunes == 0
  {
    var child := Place(b, m, ai);
    if pruning then AlphaBeta(child, 0, false, MinValue, MaxValue, maxDepth, ai)
    else Minimax(child, 0, false, maxDepth, ai)
  }

  /** nodeCount after findBestMove has tried the first `n` of the moves `ms`: the invocations of their root searches. */
  function RootNodes(b: Grid, ms: seq<Point>, n: nat, maxDepth: int, ai: Player, pruning: bool): (r: nat)
    requires n <= |ms| && forall i | 0 <= i < |ms| :: OnBoard(ms[i])
    ensures r >= n
  {
    if n == 0 then 0
    else RootNodes(b, ms, n - 1, maxDepth, ai, pruning) + RootSearch(b, ms[n - 1], maxDepth, ai, pruning).nodes
  }

  /** pruneCount after findBestMove has tried the first `n` of the moves `ms`: the cutoffs of their root searches. */
  function RootPrunes(b: Grid, ms: seq<Point>, n: nat, maxDepth: int, ai: Player, pruning: bool): (r: nat)
    requires n <= |ms| && forall i | 0 <= i < |ms| :: OnBoard(ms[i])
    ensures !pruning ==> r == 0
  {
    if n == 0 then 0
    else RootPrunes(b, ms, n - 1, maxDepth, ai, pruning) + RootSearch(b, ms[n - 1], maxDepth, ai, pruning).prunes
  }

  /** The scores findBestMove computes for the moves `ms`, in order. */
  function RootScores(b: Grid, ms: seq<Point>, maxDepth: int, ai: Player): seq<int>
    requires forall i | 0 <= i < |ms| :: OnBoard(ms[i])
  {
    seq(|ms|, k requires 0 <= k < |ms| => RootScore(b, ms[k], maxDepth, ai))
  }

  /** findBestMove's bestScore after the first `n` scores: it starts at Integer.MIN_VALUE and only grows. */
  function BestScore(scores: seq<int>, n: nat): (r: int)
    requires n <= |scores|
    ensures r >= MinValue
    ensures forall k | 0 <= k < n :: scores[k] <= r
  {
    if n == 0 then MinValue
    else Max(BestScore(scores, n - 1), scores[n - 1])
  }

  /** findBestMove's bestMove after the first `n` moves: a later move replaces it only with a strictly larger score. */
  function BestMove(ms: seq<Point>, scores: seq<int>, n: nat): (r: Option<Point>)
    requires n <= |ms| == |scores|
    ensures r.None? <==> BestScore(scores, n) == MinValue
  {
    if n == 0 then None
    else if scores[n - 1] > BestScore(scores, n - 1) then Some(ms[n - 1])
    else BestMove(ms, scores, n - 1)
  }
}
