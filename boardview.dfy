/** The board as displayed: nine squares in three rows, winning squares highlighted. */
module BoardView {
  import opened Rules

  /** What one rendered square shows: its mark and whether it is highlighted. */
  datatype SquareView = SquareView(value: Mark, inWinningLine: bool)

  /**
   * The `reduce` of `renderSquare`: how many entries of `line` equal `i`,
   * counted left to right. The count is positive exactly when `i` is one of
   * the line's cells.
   */
  function Occurrences(line: seq<Cell>, i: nat): (n: nat)
    ensures n <= |line|
    ensures n > 0 <==> i in line
    decreases |line|
  {
    if line == [] then 0
    else
      var front := line[..|line| - 1];
      assert line == front + [line[|line| - 1]];
      Occurrences(front, i) + (if line[|line| - 1] == i then 1 else 0)
  }

  /** `Board.renderSquare`: square `i` is highlighted exactly when it is in the winning line. */
  function RenderSquare(squares: Board, winningLine: seq<Cell>, i: Cell): (v: SquareView)
    ensures v.value == squares[i]
    ensures v.inWinningLine <==> i in winningLine
  {
    SquareView(squares[i], Occurrences(winningLine, i) > 0)
  }

  /** `Board.renderRow`: the three squares of row `rowNum`, left to right. */
  method RenderRow(squares: Board, winningLine: seq<Cell>, rowNum: nat) returns (row: seq<SquareView>)
    requires rowNum < 3
    ensures |row| == 3
    ensures forall c | 0 <= c < 3 :: row[c] == RenderSquare(squares, winningLine, rowNum * 3 + c)
  {
    row := [];
    var i := rowNum * 3;
    var m := i + 3;
    while i < m
      invariant rowNum * 3 <= i <= m && m == rowNum * 3 + 3
      invariant |row| == i - rowNum * 3
      invariant forall c | 0 <= c < |row| :: row[c] == RenderSquare(squares, winningLine, rowNum * 3 + c)
    {
      row := row + [RenderSquare(squares, winningLine, i)];
      i := i + 1;
    }
  }

  /**
   * `Board.render`: three rows of three squares; row r, column c shows cell
   * r * 3 + c, highlighted exactly when that cell is in the winning line.
   */
  method Render(squares: Board, winningLine: seq<Cell>) returns (rows: seq<seq<SquareView>>)
    ensures |rows| == 3
    ensures forall r | 0 <= r < 3 :: |rows[r]| == 3
    ensures forall r, c | 0 <= r < 3 && 0 <= c < 3 ::
              && rows[r][c].value == squares[r * 3 + c]
              && (rows[r][c].inWinningLine <==> r * 3 + c in winningLine)
  {
    rows := [];
    var i := 0;
    while i < 3
      invariant 0 <= i <= 3 && |rows| == i
      invariant forall r | 0 <= r < i :: |rows[r]| == 3
      invariant forall r, c | 0 <= r < i && 0 <= c < 3 ::
                  rows[r][c] == RenderSquare(squares, winningLine, r * 3 + c)
    {
      var row := RenderRow(squares, winningLine, i);
      rows := rows + [row];
      i := i + 1;
    }
  }
}
