/**
 * The `Game` component: the session state machine with its move history, the
 * pointer to the viewed entry, the turn flag and the cached winner.
 */
module GameSession {
  import opened Rules
  import opened Moves
  import opened BoardView
  import opened HistoryView

  /** The mark placed by move k (1-based): X on odd moves, O on even ones. */
  function PlayerFor(k: nat): Mark
  {
    if k % 2 == 1 then X else O
  }

  /** The entry that move k, placed at cell i, appends after `prev`. */
  function NextSnapshot(prev: Snapshot, k: nat, i: Cell): Snapshot
  {
    Snapshot(prev.squares[i := PlayerFor(k)], Move(k, PlayerFor(k), i))
  }

  /** `next` is what move k makes of `prev`: one empty square filled with that move's mark. */
  ghost predicate FollowsBy(prev: Snapshot, next: Snapshot, k: nat)
  {
    && next.description.Move?
    && prev.squares[next.description.cell] == Empty
    && next == NextSnapshot(prev, k, next.description.cell)
  }

  /**
   * What every reachable history looks like: it starts with the sentinel, each
   * entry is the previous one plus one move, and only the last entry may hold a
   * win (no move is ever accepted from a won board at the tail).
   */
  ghost predicate WellFormedHistory(h: seq<Snapshot>)
  {
    && |h| >= 1
    && h[0] == StartSnapshot
    && (forall k | 0 < k < |h| :: MoveAt(h, k))
    && (forall k | 0 <= k < |h| - 1 :: NoWinnerAt(h, k))
  }

  /** Entry k of `h` is entry k - 1 plus move k. */
  ghost predicate MoveAt(h: seq<Snapshot>, k: nat)
    requires 0 < k < |h|
  {
    FollowsBy(h[k - 1], h[k], k)
  }

  /** Entry k of `h` has no winner. */
  ghost predicate NoWinnerAt(h: seq<Snapshot>, k: nat)
    requires k < |h|
  {
    Evaluate(h[k].squares).winner == Empty
  }

  /**
   * The invariant of the `Game` state. The cached `winner` is the winner of the
   * LAST entry (it is written only when a move is appended), while `winningLine`
   * belongs to the entry the pointer designates.
   */
  ghost predicate ValidState(h: seq<Snapshot>, stepNumber: nat, winner: Mark, winningLine: seq<Cell>, xIsNext: bool)
  {
    && WellFormedHistory(h)
    && stepNumber < |h|
    && winner == Evaluate(h[|h| - 1].squares).winner
    && winningLine == Evaluate(h[stepNumber].squares).winningLine
    && xIsNext == (stepNumber % 2 == 0)
  }

  /**
   * The guard of `handleClick` as written: refused when a winner is cached and
   * the pointer is at the last entry, or when the square is already taken.
   */
  predicate MoveAccepted(h: seq<Snapshot>, stepNumber: nat, winner: Mark, i: Cell)
    requires stepNumber < |h|
  {
    !(winner != Empty && stepNumber + 1 == |h|) && h[stepNumber].squares[i] == Empty
  }

  /** The status line: the cached winner if there is one, else whose turn it is. */
  datatype GameStatus = Winner(mark: Mark) | NextPlayer(mark: Mark)

  /** The status `render` shows: a winner exactly when one is cached, else the player the turn flag names. */
  function StatusOf(winner: Mark, xIsNext: bool): (st: GameStatus)
    ensures st.Winner? <==> winner != Empty
    ensures st.Winner? ==> st.mark == winner
    ensures st.NextPlayer? ==> (st.mark == X <==> xIsNext) && st.mark != Empty
  {
    if winner != Empty then Winner(winner) else NextPlayer(if xIsNext then X else O)
  }

  /** The status line text: it starts with `Winner: ` exactly for a winner, and ends with the mark's name. */
  function StatusText(s: GameStatus): (t: string)
    ensures |t| >= 8 && (t[..8] == "Winner: " <==> s.Winner?)
    ensures s.mark != Empty ==> t[|t| - 1] == (if s.mark == X then 'X' else 'O')
    ensures s.Winner? ==> t[8..] == MarkName(s.mark)
    ensures s.NextPlayer? ==> |t| >= 13 && t[..13] == "Next player: " && t[13..] == MarkName(s.mark)
  {
    match s
    case Winner(m) => "Winner: " + MarkName(m)
    case NextPlayer(m) =>
      var t := "Next player: " + MarkName(m);
      assert t[..8][0] == 'N';
      t
  }

  /** The status computed afresh from the viewed entry (the status the stored one can differ from). */
  function RecomputedStatus(h: seq<Snapshot>, stepNumber: nat): GameStatus
    requires stepNumber < |h|
  {
    var w := Evaluate(h[stepNumber].squares).winner;
    if w != Empty then Winner(w) else NextPlayer(PlayerFor(stepNumber + 1))
  }

  lemma EmptyBoardHasNoWinner()
    ensures Evaluate(EmptyBoard) == NoWinner
  {
    NoWinningLineReported(EmptyBoard);
  }

  /**
   * An accepted move keeps the history well formed: truncating after the
   * pointer and appending the move's entry yields a history of the same shape.
   */
  lemma AcceptedMoveKeepsHistory(h: seq<Snapshot>, s: nat, i: Cell)
    requires WellFormedHistory(h) && s < |h|
    requires s + 1 < |h| || Evaluate(h[|h| - 1].squares).winner == Empty
    requires h[s].squares[i] == Empty
    ensures WellFormedHistory(h[..s + 1] + [NextSnapshot(h[s], s + 1, i)])
  {
    var h' := h[..s + 1] + [NextSnapshot(h[s], s + 1, i)];
    forall k | 0 < k < |h'| ensures MoveAt(h', k) {
      if k <= s {
        assert MoveAt(h, k);
      }
    }
    forall k | 0 <= k < |h'| - 1 ensures NoWinnerAt(h', k) {
      assert NoWinnerAt(h, k);
    }
  }

  /** An accepted move leads from a valid state to a valid state. */
  lemma AcceptedMoveKeepsState(h: seq<Snapshot>, s: nat, w: Mark, line: seq<Cell>, x: bool, i: Cell)
    requires ValidState(h, s, w, line, x) && MoveAccepted(h, s, w, i)
    ensures var next := NextSnapshot(h[s], s + 1, i);
            ValidState(h[..s + 1] + [next], s + 1, Evaluate(next.squares).winner,
                       Evaluate(next.squares).winningLine, !x)
  {
    AcceptedMoveKeepsHistory(h, s, i);
  }

  /**
   * In every reachable state the guard as written refuses a move exactly when
   * the viewed entry already has a winner or the square is taken: the cached
   * winner never blocks a move from an earlier entry, and an earlier entry never
   * has a winner.
   */
  lemma GuardMeansCurrentWinner(h: seq<Snapshot>, s: nat, w: Mark, line: seq<Cell>, x: bool, i: Cell)
    requires ValidState(h, s, w, line, x)
    ensures MoveAccepted(h, s, w, i) <==>
              Evaluate(h[s].squares).winner == Empty && h[s].squares[i] == Empty
  {
    if s + 1 < |h| {
      assert NoWinnerAt(h, s);
    }
  }

  /** Counting `m` on a board (used to state that marks alternate). */
  function CountMark(s: seq<Mark>, m: Mark): (n: nat)
    ensures n <= |s|
  {
    if s == [] then 0 else CountMark(s[..|s| - 1], m) + (if s[|s| - 1] == m then 1 else 0)
  }

  /** A mark counted zero times occurs nowhere. */
  lemma {:induction false} CountZeroMeansAbsent(s: seq<Mark>, m: Mark)
    requires CountMark(s, m) == 0
    ensures forall k | 0 <= k < |s| :: s[k] != m
    decreases |s|
  {
    if s != [] {
      var front := s[..|s| - 1];
      CountZeroMeansAbsent(front, m);
      forall k | 0 <= k < |s| - 1 ensures s[k] != m {
        assert s[k] == front[k];
      }
    }
  }

  /** On a blank board every square is empty and no mark is placed. */
  lemma {:induction false} CountBlank(s: seq<Mark>, m: Mark)
    requires forall k | 0 <= k < |s| :: s[k] == Empty
    ensures CountMark(s, m) == if m == Empty then |s| else 0
    decreases |s|
  {
    if s != [] {
      CountBlank(s[..|s| - 1], m);
    }
  }

  /** Writing `m` into an empty square adds one `m` and leaves other counts alone. */
  lemma {:induction false} CountAfterPlace(s: seq<Mark>, i: nat, m: Mark, n: Mark)
    requires i < |s| && s[i] == Empty && m != Empty
    ensures CountMark(s[i := m], n) ==
              CountMark(s, n) + (if n == m then 1 else 0) - (if n == Empty then 1 else 0)
    decreases |s|
  {
    var t := s[i := m];
    if i == |s| - 1 {
      assert t[..|t| - 1] == s[..|s| - 1];
    } else {
      assert t[..|t| - 1] == s[..|s| - 1][i := m];
      CountAfterPlace(s[..|s| - 1], i, m, n);
    }
  }

  /** Marks alternate: entry k holds (k+1)/2 crosses, k/2 noughts and 9-k empty squares. */
  lemma {:induction false} MarkCounts(h: seq<Snapshot>, k: nat)
    requires WellFormedHistory(h) && k < |h|
    ensures CountMark(h[k].squares, X) == (k + 1) / 2
    ensures CountMark(h[k].squares, O) == k / 2
    ensures CountMark(h[k].squares, Empty) == 9 - k
  {
    if k == 0 {
      assert h[0].squares == EmptyBoard;
      CountBlank(EmptyBoard, X);
      CountBlank(EmptyBoard, O);
      CountBlank(EmptyBoard, Empty);
    } else {
      MarkCounts(h, k - 1);
      assert MoveAt(h, k);
      var cell := h[k].description.cell;
      CountAfterPlace(h[k - 1].squares, cell, PlayerFor(k), X);
      CountAfterPlace(h[k - 1].squares, cell, PlayerFor(k), O);
      CountAfterPlace(h[k - 1].squares, cell, PlayerFor(k), Empty);
    }
  }

  /**
   * Move k fills exactly one square that was empty at entry k - 1, with X when
   * k is odd and O when k is even, and its description names that move.
   */
  lemma MoveKPlacesAlternateMark(h: seq<Snapshot>, k: nat)
    requires WellFormedHistory(h) && 0 < k < |h|
    ensures h[k].description.Move? && h[k].description.number == k
    ensures h[k].description.player == X <==> k % 2 == 1
    ensures var i := h[k].description.cell;
            h[k - 1].squares[i] == Empty && h[k].squares == h[k - 1].squares[i := h[k].description.player]
  {
    assert MoveAt(h, k);
  }

  /** A history never grows past the ten entries a full board allows. */
  lemma HistoryBounded(h: seq<Snapshot>)
    requires WellFormedHistory(h)
    ensures |h| <= 10
  {
    MarkCounts(h, |h| - 1);
  }

  /**
   * The highlighted squares of the viewed entry are its winning line, and every
   * one of them holds the winning mark.
   */
  lemma HighlightedSquaresHoldWinner(h: seq<Snapshot>, s: nat, w: Mark, line: seq<Cell>, x: bool, c: Cell)
    requires ValidState(h, s, w, line, x)
    requires c in line
    ensures Evaluate(h[s].squares).winner != Empty
    ensures h[s].squares[c] == Evaluate(h[s].squares).winner
  {
    EvaluateCases(h[s].squares);
    WinnerOwnsLine(h[s].squares);
  }

  /**
   * The stored status names a winner exactly when the last entry has one, and
   * otherwise names the player to move at the viewed entry. It differs from the
   * status recomputed from the viewed entry exactly when the last entry is won
   * and the pointer is elsewhere.
   */
  lemma StatusAtLatestEntry(h: seq<Snapshot>, s: nat, w: Mark, line: seq<Cell>, x: bool)
    requires ValidState(h, s, w, line, x)
    ensures StatusOf(w, x).Winner? <==> Evaluate(h[|h| - 1].squares).winner != Empty
    ensures s + 1 == |h| ==> StatusOf(w, x) == RecomputedStatus(h, s)
    ensures Evaluate(h[|h| - 1].squares).winner == Empty ==> StatusOf(w, x) == NextPlayer(PlayerFor(s + 1))
    ensures StatusOf(w, x) != RecomputedStatus(h, s) <==>
              s + 1 < |h| && Evaluate(h[|h| - 1].squares).winner != Empty
  {
    if s + 1 < |h| {
      assert NoWinnerAt(h, s);
    }
  }

  /**
   * Once the board is full (nine moves made) every click is refused, and when
   * the full board has no winner the status still names a next player: O.
   */
  lemma FullBoardRefusesMoves(h: seq<Snapshot>, s: nat, w: Mark, line: seq<Cell>, x: bool, i: Cell)
    requires ValidState(h, s, w, line, x) && s == 9
    ensures !MoveAccepted(h, s, w, i)
    ensures Evaluate(h[s].squares).winner == Empty ==> StatusOf(w, x) == NextPlayer(O)
  {
    MarkCounts(h, s);
    CountZeroMeansAbsent(h[s].squares, Empty);
    HistoryBounded(h);
  }

  class Game {
    var history: seq<Snapshot>
    var stepNumber: nat
    var winner: Mark
    var winningLine: seq<Cell>
    var xIsNext: bool

    ghost predicate Valid()
      reads this
    {
      ValidState(history, stepNumber, winner, winningLine, xIsNext)
    }

    /** The start of a session: the sentinel entry only, X to move. */
    constructor ()
      ensures Valid()
      ensures history == [StartSnapshot] && stepNumber == 0
      ensures winner == Empty && winningLine == [] && xIsNext
    {
      history := [StartSnapshot];
      stepNumber := 0;
      winner := Empty;
      winningLine := [];
      xIsNext := true;
      EmptyBoardHasNoWinner();
    }

    /**
     * `handleClick(i)`: unless refused, discard the entries after the pointer,
     * append the board with square i taken by the player to move, point at it,
     * cache its winner and winning line, and pass the turn.
     */
    method HandleClick(i: Cell)
      requires Valid()
      modifies this
      ensures Valid()
      ensures !MoveAccepted(old(history), old(stepNumber), old(winner), i) ==>
                unchanged(this)
      ensures MoveAccepted(old(history), old(stepNumber), old(winner), i) ==>
                && history == old(history[..stepNumber + 1]) +
                                [NextSnapshot(old(history[stepNumber]), old(stepNumber) + 1, i)]
                && stepNumber == old(stepNumber) + 1
                && winner == Evaluate(history[stepNumber].squares).winner
                && winningLine == Evaluate(history[stepNumber].squares).winningLine
                && xIsNext == !old(xIsNext)
    {
      var step := stepNumber + 1;
      var hist := history[..step];
      var current := hist[step - 1];
      if winner != Empty && step == |history| {
        return;
      }
      var squares := current.squares;
      if squares[i] != Empty {
        return;
      }
      var player := if xIsNext then X else O;
      squares := squares[i := player];
      var winDetails := CalculateWinner(squares);
      var next := Snapshot(squares, Move(step, player, i));
      assert current == history[stepNumber] && hist == history[..stepNumber + 1];
      assert player == PlayerFor(step) by {
        assert xIsNext <==> step % 2 == 1;
      }
      assert next == NextSnapshot(history[stepNumber], stepNumber + 1, i);
      AcceptedMoveKeepsState(history, stepNumber, winner, winningLine, xIsNext, i);
      assert ValidState(hist + [next], step, winDetails.winner, winDetails.winningLine, !xIsNext);
      history, stepNumber, winner, winningLine, xIsNext :=
        hist + [next], step, winDetails.winner, winDetails.winningLine, !xIsNext;
    }

    /**
     * `jumpTo(step)`: point at an existing entry, recompute the highlighted line
     * for it and the turn from its parity. The history and the cached winner
     * are left as they are.
     */
    method JumpTo(step: nat)
      requires Valid() && step < |history|
      modifies this
      ensures Valid()
      ensures history == old(history) && winner == old(winner)
      ensures stepNumber == step
      ensures winningLine == Evaluate(history[step].squares).winningLine
      ensures xIsNext == (step % 2 == 0)
    {
      var winDetails := CalculateWinner(history[step].squares);
      stepNumber, winningLine, xIsNext :=
        step, winDetails.winningLine, if step % 2 == 1 then false else true;
    }

    /**
     * `render`: the viewed board with its winning squares highlighted, the
     * status line, and the move list with the viewed entry selected.
     */
    method Render(list: History) returns (rows: seq<seq<SquareView>>, status: string, items: seq<HistoryItem>)
      requires Valid()
      ensures status == StatusText(StatusOf(winner, xIsNext))
      ensures |rows| == 3 && forall r | 0 <= r < 3 :: |rows[r]| == 3
      ensures forall r, c | 0 <= r < 3 && 0 <= c < 3 ::
                && rows[r][c].value == history[stepNumber].squares[r * 3 + c]
                && (rows[r][c].inWinningLine <==> r * 3 + c in Evaluate(history[stepNumber].squares).winningLine)
      ensures forall r, c | 0 <= r < 3 && 0 <= c < 3 && rows[r][c].inWinningLine ::
                rows[r][c].value == Evaluate(history[stepNumber].squares).winner != Empty
      ensures |items| == |history|
      ensures forall p | 0 <= p < |items| ::
                items[p].move == (if list.sortAscending then p else |history| - 1 - p)
      ensures forall p | 0 <= p < |items| ::
                items[p].move < |history| && items[p].description == history[items[p].move].description
      ensures forall p | 0 <= p < |items| :: items[p].isSelected <==> items[p].move == stepNumber
      ensures forall p, q | 0 <= p < q < |items| :: items[p].move != items[q].move
      ensures exists p | 0 <= p < |items| :: items[p].isSelected
    {
      var current := history[stepNumber];
      status := StatusText(StatusOf(winner, xIsNext));
      rows := BoardView.Render(current.squares, winningLine);
      forall r, c | 0 <= r < 3 && 0 <= c < 3 && rows[r][c].inWinningLine
        ensures rows[r][c].value == Evaluate(history[stepNumber].squares).winner != Empty
      {
        HighlightedSquaresHoldWinner(history, stepNumber, winner, winningLine, xIsNext, r * 3 + c);
      }
      items := list.RenderHistoryItems(history, stepNumber);
    }
  }

  /** The first move of a session: X takes the top-left square and O is next. */
  method FirstMoveScenario()
  {
    var g := new Game();
    g.HandleClick(0);
    assert g.history[1].squares == [X, Empty, Empty, Empty, Empty, Empty, Empty, Empty, Empty];
    assert |g.history| == 2 && g.stepNumber == 1;
    assert StatusText(StatusOf(g.winner, g.xIsNext)) == "Next player: O";
  }

  /**
   * From the end of a game that X won at move 5 down the first column: a
   * further click is refused; jumping back to move 2 clears the highlighted
   * line while the stored status still names the winner; a new move from there
   * discards the winning line of play.
   */
  method JumpBackScenario(g: Game)
    requires g.Valid() && |g.history| == 6 && g.stepNumber == 5
    requires g.history[2].squares == [X, O, Empty, Empty, Empty, Empty, Empty, Empty, Empty]
    requires g.history[5].squares == [X, O, Empty, X, O, Empty, X, Empty, Empty]
    modifies g
  {
    assert g.winner == X && g.winningLine == [0, 3, 6];
    g.HandleClick(8);
    assert |g.history| == 6 && g.stepNumber == 5;
    g.JumpTo(2);
    assert g.winningLine == [];
    assert StatusOf(g.winner, g.xIsNext) == Winner(X);
    assert RecomputedStatus(g.history, 2) == NextPlayer(X);
    g.HandleClick(4);
    assert |g.history| == 4;
    assert g.history[3].squares == [X, O, Empty, Empty, X, Empty, Empty, Empty, Empty];
    assert g.winner == Empty;
  }
}
