/**
 * The tic-tac-toe board and the read-only helpers that the search engine
 * shares between its two minimax variants: win detection, the full-board
 * test, move enumeration and the positional static evaluation.
 *
 * A board is the 3x3 grid flattened in row-major order, so the cell in
 * row `row` and column `col` is element `3 * row + col`.  A cell holds 0
 * (empty), 1 (X) or 2 (O); the helpers accept any integer, as the Java
 * code does, and treat every non-zero value other than the AI's symbol as
 * the opponent's.
 */
module Rules {

  const Empty: int := 0

  /** The symbol a player writes: 1 for X, 2 for O. */
  type Player = p: int | p == 1 || p == 2 witness 1

  type Grid = b: seq<int> | |b| == 9 witness [0, 0, 0, 0, 0, 0, 0, 0, 0]

  /** A move, as java.awt.Point: `x` is the column and `y` the row. */
  datatype Point = Point(x: int, y: int)

  function Opponent(p: Player): (q: Player)
    ensures q != p
  {
    if p == 1 then 2 else 1
  }

  /** The cell in row `row`, column `col`. */
  function At(b: Grid, row: int, col: int): int
    requires 0 <= row < 3 && 0 <= col < 3
  {
    b[3 * row + col]
  }

  predicate OnBoard(m: Point) {
    0 <= m.x < 3 && 0 <= m.y < 3
  }

  /** Position of a move in the row-major order. */
  function Index(m: Point): (k: int)
    ensures OnBoard(m) ==> 0 <= k < 9
  {
    3 * m.y + m.x
  }

  /** The row of the k-th cell in row-major order: k / 3 for 0 <= k < 9. */
  function RowOf(k: int): int {
    if k < 3 then 0 else if k < 6 then 1 else 2
  }

  /** The column of the k-th cell in row-major order: k % 3 for 0 <= k < 9. */
  function ColOf(k: int): int {
    k - 3 * RowOf(k)
  }

  /** The move for the k-th cell in row-major order. */
  function CellAt(k: nat): (m: Point)
    requires k < 9
    ensures OnBoard(m) && 3 * m.y + m.x == k
  {
    Point(ColOf(k), RowOf(k))
  }

  /** CellAt inverts Index on the board. */
  lemma IndexCellAt(m: Point)
    requires OnBoard(m)
    ensures CellAt(Index(m)) == m
  {
  }

  predicate IsFree(b: Grid, m: Point) {
    OnBoard(m) && b[Index(m)] == Empty
  }

  /** The number of empty cells among the first `n` in row-major order. */
  function EmptyUpTo(b: Grid, n: nat): (c: nat)
    requires n <= 9
    ensures c <= n
  {
    if n == 0 then 0 else EmptyUpTo(b, n - 1) + (if b[n - 1] == Empty then 1 else 0)
  }

  /** The number of empty cells: the measure that every trial placement decreases. */
  function EmptyCount(b: Grid): nat {
    EmptyUpTo(b, |b|)
  }

  /** Filling the free cell `k` removes it from the count of every prefix that contains it. */
  lemma {:induction false} FillUpTo(b: Grid, k: nat, v: int, n: nat)
    requires k < 9 && n <= 9
    ensures b[k] == Empty && v != Empty ==> EmptyUpTo(b[k := v], n) == EmptyUpTo(b, n) - (if k < n then 1 else 0)
  {
    if n > 0 {
      FillUpTo(b, k, v, n - 1);
    }
  }

  /** The board with `v` written into the cell of `m`, as `board[m.y][m.x] = v`. */
  function Place(b: Grid, m: Point, v: int): (r: Grid)
    requires OnBoard(m)
    ensures r[Index(m)] == v
    ensures forall k | 0 <= k < 9 && k != Index(m) :: r[k] == b[k]
    ensures IsFree(b, m) && v != Empty ==> EmptyCount(r) == EmptyCount(b) - 1
  {
    FillUpTo(b, Index(m), v, |b|);
    b[Index(m) := v]
  }

  /** Resetting a cell that was free before the trial placement gives back the board. */
  lemma UndoPlace(b: Grid, m: Point, v: int)
    requires IsFree(b, m)
    ensures Place(Place(b, m, v), m, Empty) == b
  {
    assert forall k | 0 <= k < 9 :: Place(Place(b, m, v), m, Empty)[k] == b[k];
  }

  // ---------------------------------------------------------------------
  // Win detection

  /** All three cells of row `row` hold `p`. */
  predicate RowFull(b: Grid, p: int, row: int)
    requires 0 <= row < 3
  {
    At(b, row, 0) == p && At(b, row, 1) == p && At(b, row, 2) == p
  }

  /** All three cells of column `col` hold `p`. */
  predicate ColumnFull(b: Grid, p: int, col: int)
    requires 0 <= col < 3
  {
    At(b, 0, col) == p && At(b, 1, col) == p && At(b, 2, col) == p
  }

  predicate MainDiagonalFull(b: Grid, p: int) {
    At(b, 0, 0) == p && At(b, 1, 1) == p && At(b, 2, 2) == p
  }

  predicate AntiDiagonalFull(b: Grid, p: int) {
    At(b, 0, 2) == p && At(b, 1, 1) == p && At(b, 2, 0) == p
  }

  /** checkWinner's first loop, from row `i` on: some row is full of `p`. */
  predicate RowWinFrom(b: Grid, p: int, i: nat)
    requires i <= 3
    decreases 3 - i
  {
    i < 3 && (RowFull(b, p, i) || RowWinFrom(b, p, i + 1))
  }

  /** checkWinner's second loop, from column `i` on: some column is full of `p`. */
  predicate ColumnWinFrom(b: Grid, p: int, i: nat)
    requires i <= 3
    decreases 3 - i
  {
    i < 3 && (ColumnFull(b, p, i) || ColumnWinFrom(b, p, i + 1))
  }

  /**
   * checkWinner: the rows, then the columns, then the two diagonals.  A
   * winner holds at least one cell; CheckWinnerIffLine shows that the
   * test reports exactly the boards on which `p` owns a whole line.
   */
  predicate CheckWinner(b: Grid, p: int)
    ensures CheckWinner(b, p) ==> p in b
  {
    || RowWinFrom(b, p, 0)
    || ColumnWinFrom(b, p, 0)
    || MainDiagonalFull(b, p)
    || AntiDiagonalFull(b, p)
  }

  ghost predicate OwnsRow(b: Grid, p: int, row: int)
    requires 0 <= row < 3
  {
    forall col | 0 <= col < 3 :: At(b, row, col) == p
  }

  ghost predicate OwnsColumn(b: Grid, p: int, col: int)
    requires 0 <= col < 3
  {
    forall row | 0 <= row < 3 :: At(b, row, col) == p
  }

  ghost predicate OwnsMainDiagonal(b: Grid, p: int) {
    forall i | 0 <= i < 3 :: At(b, i, i) == p
  }

  /** The cell of row `i` on the diagonal from the top-right corner to the bottom-left one. */
  function AntiDiagonalAt(b: Grid, i: int): int
    requires 0 <= i < 3
  {
    At(b, i, 2 - i)
  }

  ghost predicate OwnsAntiDiagonal(b: Grid, p: int) {
    forall i | 0 <= i < 3 :: AntiDiagonalAt(b, i) == p
  }

  /** `p` holds all three cells of some row, some column or one of the two diagonals. */
  ghost predicate OwnsALine(b: Grid, p: int) {
    || (exists row | 0 <= row < 3 :: OwnsRow(b, p, row))
    || (exists col | 0 <= col < 3 :: OwnsColumn(b, p, col))
    || OwnsMainDiagonal(b, p)
    || OwnsAntiDiagonal(b, p)
  }

  lemma {:induction false} RowWinFromIff(b: Grid, p: int, i: nat)
    requires i <= 3
    ensures RowWinFrom(b, p, i) <==> exists row | i <= row < 3 :: OwnsRow(b, p, row)
    decreases 3 - i
  {
    if i < 3 {
      RowWinFromIff(b, p, i + 1);
      if RowFull(b, p, i) {
        assert OwnsRow(b, p, i);
      }
      if exists row | i <= row < 3 :: OwnsRow(b, p, row) {
        var row :| i <= row < 3 && OwnsRow(b, p, row);
        if row == i {
          assert At(b, i, 0) == p && At(b, i, 1) == p && At(b, i, 2) == p;
        } else {
          assert exists r | i + 1 <= r < 3 :: OwnsRow(b, p, r);
        }
      }
    }
  }

  lemma {:induction false} ColumnWinFromIff(b: Grid, p: int, i: nat)
    requires i <= 3
    ensures ColumnWinFrom(b, p, i) <==> exists col | i <= col < 3 :: OwnsColumn(b, p, col)
    decreases 3 - i
  {
    if i < 3 {
      ColumnWinFromIff(b, p, i + 1);
      if ColumnFull(b, p, i) {
        assert OwnsColumn(b, p, i);
      }
      if exists col | i <= col < 3 :: OwnsColumn(b, p, col) {
        var col :| i <= col < 3 && OwnsColumn(b, p, col);
        if col == i {
          assert At(b, 0, i) == p && At(b, 1, i) == p && At(b, 2, i) == p;
        } else {
          assert exists c | i + 1 <= c < 3 :: OwnsColumn(b, p, c);
        }
      }
    }
  }

  /** checkWinner reports exactly the boards on which `p` owns a whole line. */
  lemma CheckWinnerIffLine(b: Grid, p: int)
    ensures CheckWinner(b, p) <==> OwnsALine(b, p)
  {
    RowWinFromIff(b, p, 0);
    ColumnWinFromIff(b, p, 0);
    if OwnsMainDiagonal(b, p) {
      assert At(b, 0, 0) == p && At(b, 1, 1) == p && At(b, 2, 2) == p;
    }
    if OwnsAntiDiagonal(b, p) || AntiDiagonalFull(b, p) {
      assert AntiDiagonalAt(b, 0) == At(b, 0, 2) && AntiDiagonalAt(b, 1) == At(b, 1, 1);
      assert AntiDiagonalAt(b, 2) == At(b, 2, 0);
    }
  }

  // ---------------------------------------------------------------------
  // Move enumeration and the full-board test

  /**
   * The empty cells among the first `n` in row-major order, as
   * getAvailableMoves appends them: one move per empty cell.
   */
  function MovesUpTo(b: Grid, n: nat): (ms: seq<Point>)
    requires n <= 9
    ensures |ms| == EmptyUpTo(b, n)
  {
    if n == 0 then []
    else MovesUpTo(b, n - 1) + (if b[n - 1] == Empty then [CellAt(n - 1)] else [])
  }

  /**
   * The moves among the first `n` cells are at most `n`, are free cells
   * before position `n`, include every such cell and strictly increase in
   * row-major order.
   */
  lemma {:induction false} MovesUpToSpec(b: Grid, n: nat)
    requires n <= 9
    ensures var ms := MovesUpTo(b, n);
            && |ms| <= n
            && (forall i | 0 <= i < |ms| :: IsFree(b, ms[i]) && Index(ms[i]) < n)
            && (forall k | 0 <= k < n && b[k] == Empty :: CellAt(k) in ms)
            && (forall i, j | 0 <= i < j < |ms| :: Index(ms[i]) < Index(ms[j]))
  {
    if n > 0 {
      MovesUpToSpec(b, n - 1);
    }
  }

  /** The moves getAvailableMoves returns, each of them a free cell. */
  function AvailableMoves(b: Grid): (ms: seq<Point>)
    ensures forall i | 0 <= i < |ms| :: IsFree(b, ms[i])
  {
    MovesUpToSpec(b, |b|);
    MovesUpTo(b, |b|)
  }

  /**
   * getAvailableMoves lists exactly the empty cells, in row-major order and
   * so without duplicates.
   */
  lemma AvailableMovesExact(b: Grid)
    ensures forall m :: IsFree(b, m) <==> m in AvailableMoves(b)
    ensures var ms := AvailableMoves(b);
            forall i, j | 0 <= i < j < |ms| :: Index(ms[i]) < Index(ms[j])
  {
    MovesUpToSpec(b, 9);
    forall m | IsFree(b, m)
      ensures m in AvailableMoves(b)
    {
      IndexCellAt(m);
    }
  }

  /** One move per empty cell. */
  lemma MoveCountIsEmptyCount(b: Grid)
    ensures |AvailableMoves(b)| == EmptyCount(b) <= 9
  {
  }

  lemma {:induction false} NoEmptyUpTo(b: Grid, n: nat)
    requires n <= 9
    ensures EmptyUpTo(b, n) == 0 <==> forall k | 0 <= k < n :: b[k] != Empty
  {
    if n > 0 {
      NoEmptyUpTo(b, n - 1);
    }
  }

  /** isBoardFull: no cell is empty; equivalently, there is no move to make. */
  function IsBoardFull(b: Grid): (r: bool)
    ensures r <==> AvailableMoves(b) == []
    ensures r <==> EmptyCount(b) == 0
  {
    MoveCountIsEmptyCount(b);
    NoEmptyUpTo(b, |b|);
    forall k | 0 <= k < 9 :: b[k] != Empty
  }

  // ---------------------------------------------------------------------
  // Static evaluation

  /** Positional weights: 4 for the centre, 3 for a corner, 2 for an edge. */
  const EvaluationTable: seq<seq<int>> := [[3, 2, 3], [2, 4, 2], [3, 2, 3]]

  function Weight(k: nat): int
    requires k < 9
  {
    EvaluationTable[RowOf(k)][ColOf(k)]
  }

  /** Entry (row, col) of the table is the weight of cell 3 * row + col. */
  lemma WeightAt(row: int, col: int)
    requires 0 <= row < 3 && 0 <= col < 3
    ensures |EvaluationTable| == 3 && |EvaluationTable[row]| == 3
    ensures EvaluationTable[row][col] == Weight(3 * row + col)
  {
  }

  /** What one cell adds to the score: its weight for the AI, minus it for any other symbol. */
  function CellScore(v: int, ai: Player, w: int): (r: int)
    ensures w >= 0 ==> -w <= r <= w
    ensures v == Empty ==> r == 0
  {
    if v == ai then w else if v != Empty then -w else 0
  }

  /** The score of the first `n` cells in row-major order, as evaluate accumulates it. */
  function EvalPrefix(b: Grid, ai: Player, n: nat): int
    requires n <= 9
  {
    if n == 0 then 0 else EvalPrefix(b, ai, n - 1) + CellScore(b[n - 1], ai, Weight(n - 1))
  }

  function WeightPrefix(n: nat): int
    requires n <= 9
  {
    if n == 0 then 0 else WeightPrefix(n - 1) + Weight(n - 1)
  }

  /**
   * evaluate: the sum over all nine cells of their CellScore.  The weights
   * add up to 24, so the evaluation lies in [-24, 24].
   */
  function StaticEval(b: Grid, ai: Player): (r: int)
    ensures -24 <= r <= 24
  {
    EvalPrefixBound(b, ai, 9);
    assert WeightPrefix(9) == 24;
    EvalPrefix(b, ai, |b|)
  }

  lemma {:induction false} EvalPrefixBound(b: Grid, ai: Player, n: nat)
    requires n <= 9
    ensures -WeightPrefix(n) <= EvalPrefix(b, ai, n) <= WeightPrefix(n)
  {
    if n > 0 {
      EvalPrefixBound(b, ai, n - 1);
      assert Weight(n - 1) >= 0;
    }
  }

  lemma {:induction false} EvalPrefixOfEmpty(b: Grid, ai: Player, n: nat)
    requires n <= 9
    requires forall k | 0 <= k < 9 :: b[k] == Empty
    ensures EvalPrefix(b, ai, n) == 0
  {
    if n > 0 {
      EvalPrefixOfEmpty(b, ai, n - 1);
    }
  }

  /** The empty board scores 0. */
  lemma EmptyBoardScoresZero(b: Grid, ai: Player)
    requires forall k | 0 <= k < 9 :: b[k] == Empty
    ensures StaticEval(b, ai) == 0
  {
    EvalPrefixOfEmpty(b, ai, 9);
  }

  lemma {:induction false} EvalPrefixZeroSum(b: Grid, n: nat)
    requires n <= 9
    requires forall k | 0 <= k < 9 :: b[k] == Empty || b[k] == 1 || b[k] == 2
    ensures EvalPrefix(b, 1, n) == -EvalPrefix(b, 2, n)
  {
    if n > 0 {
      EvalPrefixZeroSum(b, n - 1);
    }
  }

  /** On a board of 0, 1 and 2 cells, X's evaluation is the negation of O's. */
  lemma StaticEvalZeroSum(b: Grid)
    requires forall k | 0 <= k < 9 :: b[k] == Empty || b[k] == 1 || b[k] == 2
    ensures StaticEval(b, 1) == -StaticEval(b, 2)
  {
    EvalPrefixZeroSum(b, 9);
  }
}
