# Tic-tac-toe session with time travel — a Dafny model

This project models the rules core of a React tic-tac-toe game (`ttt.js`).
Two players, X and O, take turns on a 3x3 board. Every accepted move appends a
snapshot of the board to a history. The viewer can jump back to any earlier
snapshot. A move made from an earlier snapshot discards the snapshots after it
and starts a new branch.

The model is split into five modules:

- `Rules` (`rules.dfy`): `calculateWinner`. It scans the eight lines (rows, then
  columns, then diagonals) and reports the first one that holds three equal
  marks. `Evaluate` is the specification as a function. `CalculateWinner` is
  the loop with its early return, proved equal to `Evaluate`. The lemmas show
  that the reported line is the first winning line in table order, and that a
  board without such a line reports no winner and an empty line.
- `Moves` (`moves.dfy`): the coordinate labels `(col,row)` and the move
  description `Move k: P to (c,r)`. A description is kept as a structured value
  (move number, player, cell), and `DescriptionText` renders it. The number is
  rendered by `NatToString`, which has a parser as its partner and a round-trip
  lemma.
- `BoardView` (`boardview.dfy`): `renderSquare` counts how often a cell occurs
  in the winning line (the `reduce`), and that count is positive exactly when
  the cell is in the line. `renderRow` and `render` are counting loops that lay
  the board out row by row.
- `HistoryView` (`historyview.dfy`): the `History` component. It holds the sort
  direction, toggles it, and renders the move list. The list is a copy of the
  history, reversed in place when sorted newest-first. Each displayed position
  is mapped back to its step number.
- `GameSession` (`session.dfy`): the `Game` component as a class with the
  source's five state fields (`history`, `stepNumber`, `winner`, `winningLine`,
  `xIsNext`). Each `setState` is one atomic assignment of those fields.
  `Valid()` is the invariant that every method keeps. It says:
  - the history starts with the "Game start" sentinel;
  - entry k is entry k-1 plus move k, which puts X on odd moves and O on even ones;
  - only the last entry may hold a win;
  - `winner` is the winner of the last entry;
  - `winningLine` is the winning line of the viewed entry;
  - `xIsNext` is the parity of `stepNumber`.

  Two scenario methods replay concrete sessions. `FirstMoveScenario` plays the
  first move. `JumpBackScenario` starts after X wins down the first column. It
  checks that a further click is refused, jumps back to move 2, and plays a new
  branch from there.

## Behaviour as written

The model follows the code where it differs from a design that recomputes the
winner from the viewed board on every render:

- `winner` is cached. `handleClick` writes it and `jumpTo` never does.
  `render` shows the cached value. After jumping back from a won game, the
  status still reads "Winner: X", while the board shows the earlier position
  without a highlighted line. `StatusAtLatestEntry` states this. The stored
  status names a winner exactly when the last entry has one, and otherwise names
  the player to move at the viewed entry. It differs from the status recomputed
  from the viewed entry exactly when the last entry is won and the pointer is
  elsewhere.
  `JumpBackScenario` exhibits the stale case.
- The "no moves after a win" guard tests the cached winner and "pointer at the
  last entry". It does not test the viewed board. `GuardMeansCurrentWinner`
  proves that in every reachable state the two tests agree. Only the last entry
  can hold a win, so a move is refused exactly when the viewed board has a
  winner or the clicked square is taken.
- A draw has no status of its own. On a full board without a line,
  `FullBoardRefusesMoves` shows that every click is refused while the status
  reads "Next player: O".
- The sort direction is state of the `History` component, not of the session.
  It is modelled as the field of the class `HistoryView.History`.

## Model

| member | source | states |
|---|---|---|
| `Rules.CalculateWinner` | ttt.js:206-230 | the line scan with early return yields exactly the first-winning-line evaluation of the board |
| `Rules.FirstWinFrom` | ttt.js:217-224 | scanning from line k, the first winning line j at or after k is reported with its mark and cells |
| `Rules.NoWinFrom` | ttt.js:217-229 | scanning from line k when no later line wins yields no winner and an empty line |
| `Rules.FirstWinningLineReported` | ttt.js:217-224 | when line j is the first winning line in table order, the result is the mark of j and exactly j's three cells |
| `Rules.NoWinningLineReported` | ttt.js:226-229 | a board with no line of three equal marks yields winner null and an empty line |
| `Rules.EvaluateCases` | ttt.js:206-230 | a winner is reported if and only if some line wins; it is then the first such line; no winner implies an empty line |
| `Rules.WinnerOwnsLine` | ttt.js:219-223 | a reported line has three cells and each holds the reported mark |
| `Rules.DrawnBoardHasNoWinner` | ttt.js:226-229 | every full board without three in a row reports no winner and an empty line: the draw case of the no-winner result, with no separate signal |
| `Rules.DrawExample` | ttt.js:226-229 | a full board with no winner exists |
| `Moves.NatToString` | ttt.js:149 | the move number renders as a non-empty string of decimal digits; it starts with `0` only for the number 0, which renders as `0` alone |
| `Moves.NatToStringCanonical` | ttt.js:149 | every digit string without a leading zero is the rendering of the number it reads as, so with the round trip the rendering is the unique canonical decimal form |
| `Moves.NatToStringRoundTrip` | ttt.js:149 | the rendered move number reads back as the same number |
| `Moves.CoordinateLabel` | ttt.js:1-5 | entry i of the table `HumanReadableCoordinates` is `(i%3+1,i/3+1)` |
| `Moves.DescriptionText` | ttt.js:122 | the sentinel entry reads `Game start`; a description starts with `Move ` exactly when it describes a move |
| `Moves.MoveText` | ttt.js:149 | a move's description is `Move k: P to (c,r)` with c,r the 1-based column and row of the cell, and k reads back from it |
| `BoardView.Occurrences` | ttt.js:18-21 | the reduce count of a cell in the winning line is at most the line's length, and positive if and only if the cell is in the line |
| `BoardView.RenderSquare` | ttt.js:17-30 | a square shows the cell's mark and is highlighted exactly when the cell is in the winning line |
| `BoardView.RenderRow` | ttt.js:32-42 | row r holds the squares of cells 3r, 3r+1, 3r+2 in order |
| `BoardView.Render` | ttt.js:44-54 | three rows of three; row r, column c shows cell 3r+c with its highlight |
| `HistoryView.Reverse` | ttt.js:79 | reversing in place puts the element from position n-1-k at position k |
| `HistoryView.DisplayStep` | ttt.js:82-83 | the step shown at a display position is an existing history index |
| `HistoryView.DisplayOrderIsOneToOne` | ttt.js:81-90 | in either order, distinct display positions show distinct steps, and the mapping is its own inverse, so every step is shown exactly once |
| `HistoryView.History.constructor` | ttt.js:69-74 | the list starts sorted ascending |
| `HistoryView.History.SortHistory` | ttt.js:94-98 | the sort direction is flipped |
| `HistoryView.History.RenderHistoryItems` | ttt.js:76-92 | in both orders, item p jumps to step p (ascending) or n-1-p (descending) and shows that step's description; exactly the items of the selected step are marked |
| `GameSession.EmptyBoardHasNoWinner` | ttt.js:119-127 | the starting board has no winner and no winning line |
| `GameSession.AcceptedMoveKeepsHistory` | ttt.js:133-151 | truncating after the pointer and appending the move's entry keeps the history well formed (sentinel, one move per entry, no win before the last entry) |
| `GameSession.AcceptedMoveKeepsState` | ttt.js:131-157 | an accepted move leads from a valid session state to a valid one, with the cached winner, line and turn of the new entry |
| `GameSession.GuardMeansCurrentWinner` | ttt.js:132-141 | in every reachable state the guard as written refuses a move exactly when the viewed board has a winner or the square is taken |
| `GameSession.MarkCounts` | ttt.js:142-143 | entry k holds (k+1)/2 X marks, k/2 O marks and 9-k empty squares, so marks alternate starting with X |
| `GameSession.MoveKPlacesAlternateMark` | ttt.js:142-149 | entry k is entry k-1 with one empty square filled, by X exactly when k is odd, and is described as move k |
| `GameSession.HistoryBounded` | ttt.js:138-146 | a history never holds more than ten entries |
| `GameSession.HighlightedSquaresHoldWinner` | ttt.js:183-187 | every highlighted square of the viewed board holds the winning mark of that board |
| `GameSession.StatusOf` | ttt.js:173-178 | the status names a winner exactly when one is cached, and that winner; otherwise it names X when the turn flag is set and O when not |
| `GameSession.StatusText` | ttt.js:175-177 | the text is `Winner: ` followed by the winner's name for a winner, and `Next player: ` followed by the player's name otherwise; the `Winner: ` prefix appears exactly for a winner |
| `GameSession.FullBoardRefusesMoves` | ttt.js:135-141 | once nine moves are made every click is refused; if that board has no winner the status names O as next player |
| `GameSession.StatusAtLatestEntry` | ttt.js:171-178 | the stored status names a winner if and only if the last entry has one, and otherwise names the player to move at the viewed entry; it differs from the status recomputed from the viewed entry exactly when the last entry is won and the pointer is elsewhere |
| `GameSession.Game.constructor` | ttt.js:116-129 | the session starts with the sentinel entry only, pointer 0, no winner, an empty line and X to move |
| `GameSession.Game.HandleClick` | ttt.js:131-157 | a refused click changes nothing; an accepted click truncates after the pointer, appends the board with only cell i set to the player, points at it, caches its winner and line and flips the turn; the invariant is kept |
| `GameSession.Game.JumpTo` | ttt.js:159-166 | only the pointer, the winning line (recomputed for the target entry) and the turn (from parity) change; history and cached winner are untouched |
| `GameSession.Game.Render` | ttt.js:168-198 | the status is built from the cached winner and turn; the board shows the viewed entry, a square is highlighted exactly when it is in that entry's winning line, and every highlighted square holds its winner; item p of the list jumps to step p or n-1-p as the sort direction says, shows that step's description, every step appears once, and exactly the viewed step is marked |

## Left out

- JSX markup, the `Square` and `HistoryItem` components, CSS class names, React `key` props, and the `ReactDOM.render` bootstrap (ttt.js:7-14, 57-66, 100-112, 204, and the markup of 180-198). They are presentation only. `Game.Render` returns the board rows, the status string and the list items instead of markup.
- The text of the sort link ("Sort in descending order" / "Sort in ascending order", ttt.js:101-102). It is presentation only.
- Click handlers and `href` wiring. Clicks are direct calls of `HandleClick`, `JumpTo` and `SortHistory`.
- React's asynchronous `setState` batching and the component lifecycle. Each `setState` is one atomic update of the fields it names.
- `HandleClick`: the board copy written at index i is a sequence update on an immutable value, not an array. The copy is fresh in the source, so no aliasing is lost. Cell indices outside 0..8 are excluded by the `Cell` type; the board only ever passes 0..8.
- `JumpTo`: an index outside the history is a precondition. In the source it would fail on `history[step]`, and the move list only offers existing steps.
- JavaScript truthiness. `null` is the mark `Empty`, and `winner` is `Empty` before any move (the constructor does not set it).
