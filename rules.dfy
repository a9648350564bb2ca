/** Win detection on a 3x3 board (the `calculateWinner` rules engine). */
module Rules {

  /** The content of one square: empty (`null` in the source), or a player's mark. */
  datatype Mark = Empty | X | O

  /** Index of a square, row-major: index == row * 3 + col. */
  type Cell = i: nat | i < 9

  /** A board is always exactly nine squares. */
  type Board = b: seq<Mark> | |b| == 9 witness [Empty, Empty, Empty, Empty, Empty, Empty, Empty, Empty, Empty]

  const EmptyBoard: Board := [Empty, Empty, Empty, Empty, Empty, Empty, Empty, Empty, Empty]

  /** The eight lines, in the order they are examined: rows, then columns, then diagonals. */
  const Lines: seq<(Cell, Cell, Cell)> := [
    (0, 1, 2), (3, 4, 5), (6, 7, 8),
    (0, 3, 6), (1, 4, 7), (2, 5, 8),
    (0, 4, 8), (2, 4, 6)
  ]

  /** The result of evaluating a board: the winning mark (Empty for none) and its line. */
  datatype WinDetails = WinDetails(winner: Mark, winningLine: seq<Cell>)

  const NoWinner := WinDetails(Empty, [])

  /** The cells of line k, as the array `[a, b, c]` the source returns. */
  function LineCells(k: nat): (cells: seq<Cell>)
    requires k < |Lines|
    ensures |cells| == 3
  {
    [Lines[k].0, Lines[k].1, Lines[k].2]
  }

  /** Line k holds three equal, non-empty marks. */
  predicate LineWins(b: Board, k: nat)
    requires k < |Lines|
  {
    var (p, q, r) := Lines[k];
    b[p] != Empty && b[p] == b[q] && b[p] == b[r]
  }

  /**
   * The evaluation of `b` when lines before k have already been rejected:
   * the first winning line at index k or later, or no winner.
   */
  function EvaluateFrom(b: Board, k: nat): WinDetails
    requires k <= |Lines|
    decreases |Lines| - k
  {
    if k == |Lines| then NoWinner
    else if LineWins(b, k) then WinDetails(b[Lines[k].0], LineCells(k))
    else EvaluateFrom(b, k + 1)
  }

  /** The specification of `calculateWinner`. */
  function Evaluate(b: Board): WinDetails
  {
    EvaluateFrom(b, 0)
  }

  /**
   * `calculateWinner`: scan the line table in order and return on the first line
   * whose three squares hold the same mark; otherwise no winner and an empty line.
   */
  method CalculateWinner(squares: Board) returns (r: WinDetails)
    ensures r == Evaluate(squares)
  {
    var i := 0;
    while i < |Lines|
      invariant 0 <= i <= |Lines|
      invariant EvaluateFrom(squares, i) == Evaluate(squares)
    {
      var (a, b, c) := Lines[i];
      if squares[a] != Empty && squares[a] == squares[b] && squares[a] == squares[c] {
        return WinDetails(squares[a], [a, b, c]);
      }
      i := i + 1;
    }
    return NoWinner;
  }

  /** Line j is the first line, in table order, that holds three equal marks. */
  ghost predicate IsFirstWin(b: Board, j: nat)
  {
    j < |Lines| && LineWins(b, j) && forall i | 0 <= i < j :: !LineWins(b, i)
  }

  lemma {:induction false} FirstWinFrom(b: Board, k: nat, j: nat)
    requires k <= j < |Lines| && LineWins(b, j)
    requires forall i | k <= i < j :: !LineWins(b, i)
    ensures EvaluateFrom(b, k) == WinDetails(b[Lines[j].0], LineCells(j))
    decreases j - k
  {
    if k < j {
      FirstWinFrom(b, k + 1, j);
    }
  }

  lemma {:induction false} NoWinFrom(b: Board, k: nat)
    requires k <= |Lines|
    requires forall i | k <= i < |Lines| :: !LineWins(b, i)
    ensures EvaluateFrom(b, k) == NoWinner
    decreases |Lines| - k
  {
    if k < |Lines| {
      NoWinFrom(b, k + 1);
    }
  }

  /**
   * The winner is the first line in table order that holds three equal marks:
   * its mark and exactly its three cells are reported.
   */
  lemma FirstWinningLineReported(b: Board, j: nat)
    requires IsFirstWin(b, j)
    ensures Evaluate(b) == WinDetails(b[Lines[j].0], LineCells(j))
    ensures Evaluate(b).winner != Empty
  {
    FirstWinFrom(b, 0, j);
  }

  /** With no line of three equal marks there is no winner and the line is empty. */
  lemma NoWinningLineReported(b: Board)
    requires forall i | 0 <= i < |Lines| :: !LineWins(b, i)
    ensures Evaluate(b) == NoWinner
  {
    NoWinFrom(b, 0);
  }

  /**
   * Every board either has a first winning line, which is reported, or has none,
   * and then no winner is reported.
   */
  lemma {:induction false} EvaluateCases(b: Board)
    ensures Evaluate(b).winner != Empty <==> exists j: nat :: IsFirstWin(b, j)
    ensures forall j: nat | IsFirstWin(b, j) :: Evaluate(b) == WinDetails(b[Lines[j].0], LineCells(j))
    ensures Evaluate(b).winner == Empty ==> Evaluate(b).winningLine == []
  {
    var k := 0;
    while k < |Lines| && !LineWins(b, k)
      invariant 0 <= k <= |Lines|
      invariant forall i | 0 <= i < k :: !LineWins(b, i)
    {
      k := k + 1;
    }
    if k < |Lines| {
      assert IsFirstWin(b, k);
      FirstWinningLineReported(b, k);
      forall j: nat | IsFirstWin(b, j) ensures j == k { }
    } else {
      NoWinningLineReported(b);
      forall j: nat | j < |Lines| ensures !IsFirstWin(b, j) {
        assert !LineWins(b, j);
      }
    }
  }

  /** A reported winner owns every one of the three reported cells. */
  lemma WinnerOwnsLine(b: Board)
    ensures Evaluate(b).winner != Empty ==>
              |Evaluate(b).winningLine| == 3 &&
              forall c | c in Evaluate(b).winningLine :: b[c] == Evaluate(b).winner
  {
    EvaluateCases(b);
  }

  /**
   * A full board with no three in a row reports no winner: a draw is just the
   * absence of one. This is the draw case of `NoWinningLineReported`; that the
   * board is full plays no part in the evaluation.
   */
  lemma DrawnBoardHasNoWinner(b: Board)
    requires forall k | 0 <= k < 9 :: b[k] != Empty
    requires forall j | 0 <= j < |Lines| :: !LineWins(b, j)
    ensures Evaluate(b) == NoWinner
  {
    NoWinningLineReported(b);
  }

  /** Drawn boards exist: this full board has no three in a row. */
  lemma DrawExample()
    ensures exists b: Board :: (forall k | 0 <= k < 9 :: b[k] != Empty) && Evaluate(b) == NoWinner
  {
    var b: Board := [X, O, X, X, O, O, O, X, X];
    assert forall k | 0 <= k < 9 :: b[k] != Empty;
    DrawnBoardHasNoWinner(b);
  }
}
