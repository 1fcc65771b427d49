# Tic-tac-toe game logic in Dafny

This project models the logic of the React tic-tac-toe game in
`tic-tac-toe/src/index.js` and proves properties of that model.

The evaluator:
- `calculateWinner` scans eight fixed triples of squares in a fixed order: the three rows, then the three columns, then the two diagonals.
- `calculateDraw` compares the step count with the square of the border size.

The `Game` component:
- Its state is the history of board snapshots, the step pointer, the turn flag, the sort flag and the selected step.
- Three handlers change that state: `handleClick`, `jumpToMove` and `handleChangeSortOrderClick`.
- `render` derives the current board, the winning trace, the status line and the ordered move list.

Modules:
- `Wrappers`: the `Option` type.
- `Evaluator`: cells, the line table, `Winner` (the specification of `calculateWinner`), the loop method `CalculateWinner`, `CalculateDraw`, and counting the marks on a board.
- `Play`: snapshots and the predicate `Played`, which says a history could have been produced by accepted clicks.
- `MoveList`: the move-list entries, and the order they are shown in.
- `GameState`: the status and the class `Game`, with its handlers and `Render`.
- `Scenarios`: concrete games.

The status test of `render` looks at the draw before the winner
(`tic-tac-toe/src/index.js:136-143`), and the draw test counts steps rather
than looking at the board. So a ninth move that completes a line shows
"Draw", with the line still highlighted: the game 0, 1, 2, 3, 4, 6, 7, 5, 8
ends with X holding the diagonal 0-4-8 and the status Draw
(`Scenarios.LastClickWinShowsDraw`).

`Game.Valid()` is the invariant every handler keeps:
- the history is one that clicks from the start state can produce;
- the pointer is inside the history;
- `xIsNext` is the parity of the pointer;
- a selected step is the current step.

From `Played`, the lemmas prove that:
- snapshot `k` holds exactly `k` marks;
- the history has at most ten snapshots;
- a winner can only be the player who moved last.

## Model

| member | source | states |
|---|---|---|
| Evaluator.WinnerFrom | tic-tac-toe/src/index.js:186-192 | definition: the scan of the line table `Lines` (index.js:176-185) from line `i`, stopping at the first line held by one mark; its meaning is stated by `Evaluator.WinnerFromFirst` |
| Evaluator.Winner | tic-tac-toe/src/index.js:175-193 | definition: the value `calculateWinner` returns, the scan of `Lines` from the first line; its meaning is stated by `Evaluator.WinnerIsFirstWinningLine`, `Evaluator.WinnerNone` and `Evaluator.WinnerSound` |
| Evaluator.CalculateWinner | tic-tac-toe/src/index.js:175-193 | the loop returns the scan's result, and returns null exactly when no line holds three equal non-empty marks |
| Evaluator.WinnerFromFirst | tic-tac-toe/src/index.js:186-192 | the scan from line `i` returns nothing exactly when no line at or after `i` wins; otherwise it returns the result of the first winning line from `i` |
| Evaluator.WinnerIsFirstWinningLine | tic-tac-toe/src/index.js:176-192 | when line `i` is the first winning line in the table's order, the result is `{team: squares[a], trace: line i}` and the team is a mark |
| Evaluator.WinnerNone | tic-tac-toe/src/index.js:186-192 | `calculateWinner` returns null if and only if no line is held by a single mark |
| Evaluator.WinnerSound | tic-tac-toe/src/index.js:187-189 | a returned trace is one of the eight lines, that line wins, and the team is the mark on it |
| Evaluator.CountMarksBound | tic-tac-toe/src/index.js:61 | a board has at most as many marks as squares, and as many exactly when no square is empty |
| Evaluator.CountMarksPlace | tic-tac-toe/src/index.js:84 | writing a mark into an empty square adds exactly one mark |
| Evaluator.EmptyBoard | tic-tac-toe/src/index.js:61 | the start board has nine squares and no mark |
| Evaluator.CalculateDraw | tic-tac-toe/src/index.js:195-197 | definition: the step count equals the border size squared; its meaning on the 3x3 board is stated by `Evaluator.DrawIffFull` |
| Evaluator.DrawIffFull | tic-tac-toe/src/index.js:195-197 | `calculateDraw(stepNumber, 3)` holds exactly at step 9; on a board with as many marks as steps, that is exactly when the board is full |
| Play.Start | tic-tac-toe/src/index.js:59-64 | the start snapshot has nine squares, all empty, so no mark |
| Play.CoordsOf | tic-tac-toe/src/index.js:80-83 | the recorded column and row lie in 0..2 and give back the square as `row * 3 + col` |
| Play.PlayedCounts | tic-tac-toe/src/index.js:73-88 | in a played history, snapshot `k` has nine squares and exactly `k` marks |
| Play.PlayedLength | tic-tac-toe/src/index.js:76-79 | a played history never holds more than ten snapshots |
| Play.ClickKeepsPlayed | tic-tac-toe/src/index.js:73-90 | cutting a played history after step `k` and appending the accepted click's snapshot gives a played history |
| Play.WinnerIsLastMover | tic-tac-toe/src/index.js:77-84 | in a played history, the winner of snapshot `k` is the player who made move `k - 1`, and the start board has no winner |
| MoveList.Entries | tic-tac-toe/src/index.js:114-130 | definition: one entry per snapshot with its move number, coordinates and highlight; what the shown list holds is stated by `MoveList.DescendingMoveNumbers` and `MoveList.OrderedEntriesSelected` |
| MoveList.Ordered | tic-tac-toe/src/index.js:132-134 | definition: the built list, or entry 0 followed by the reversed tail; its meaning is stated by `MoveList.OrderedShape` and `MoveList.OrderedDescendingTwice` |
| MoveList.Reversed | tic-tac-toe/src/index.js:133 | reversing keeps the length |
| MoveList.ReversedAt | tic-tac-toe/src/index.js:133 | position `k` of the reversal holds element `n - 1 - k` |
| MoveList.ReversedMultiset | tic-tac-toe/src/index.js:133 | reversing is a permutation |
| MoveList.ReversedTwice | tic-tac-toe/src/index.js:133 | reversing twice gives back the list |
| MoveList.OrderedShape | tic-tac-toe/src/index.js:132-134 | the shown list is a permutation of the built list, with "game start" first. Ascending it is the built list; descending, position `k >= 1` holds entry `n - k` |
| MoveList.OrderedDescendingTwice | tic-tac-toe/src/index.js:132-134 | the descending rearrangement applied twice restores the ascending list |
| MoveList.DescendingMoveNumbers | tic-tac-toe/src/index.js:114-134 | descending, the list shows move 0 and then the moves from the last one down to 1 |
| MoveList.OrderedEntriesSelected | tic-tac-toe/src/index.js:114-134 | in either order, an entry is highlighted exactly when its move number is the selected step |
| GameState.StatusOf | tic-tac-toe/src/index.js:136-143 | definition: Draw if the draw test holds, else the winner's team, else the player from `xIsNext`; its meaning on a played history is stated by `GameState.StatusOfPlayed` |
| GameState.Accepts | tic-tac-toe/src/index.js:77 | definition: the guard of `handleClick` lets the click through; when it does is stated by `GameState.NextIffMovePossible` and used by `GameState.Game.HandleClick` |
| GameState.TraceOf | tic-tac-toe/src/index.js:150 | definition: the winning line's indices, or the empty list; `GameState.Game.Render` and the scenarios state it on concrete boards |
| GameState.StatusOfPlayed | tic-tac-toe/src/index.js:136-143 | on a played history the status is Draw exactly at step 9, which is exactly when the board is full, even if a line is also won. A shown winner is the player who moved last, and otherwise the next player is X on even steps and O on odd ones |
| GameState.NextIffMovePossible | tic-tac-toe/src/index.js:72-79 | on a played history the status is "Next player" exactly when some click would be accepted, and then every empty square is accepted |
| GameState.Game.constructor | tic-tac-toe/src/index.js:55-69 | one empty snapshot with coordinates (-1, -1), step 0, X to move, ascending, nothing selected; the invariant holds |
| GameState.Game.HandleClick | tic-tac-toe/src/index.js:71-91 | a click on a won board, at step 9 or on a marked square changes nothing. Otherwise it cuts the history after the current step and appends the board with square `i` marked by the player to move and coordinates `(i % 3, i / 3)`. It advances the step to the new last index, flips the turn, clears the selection, keeps the sort flag, and keeps the invariant |
| GameState.Game.HandleChangeSortOrderClick | tic-tac-toe/src/index.js:93-97 | the sort flag becomes the negation of its argument and nothing else changes |
| GameState.Game.JumpToMove | tic-tac-toe/src/index.js:99-105 | the step becomes `step`, the turn is X exactly on even steps, and the step is selected. History and the sort flag stay, and so does the invariant |
| GameState.Game.Render | tic-tac-toe/src/index.js:107-150 | the shown board is the current snapshot, the trace is the winning line or nothing, and the status tests draw, then winner, then turn. The list is the ordered entries, one per snapshot, with "game start" first and the highlight on the selected step. Draw holds exactly at step 9 and on a full board; a winner is the last mover, and the next player matches the parity |
| Scenarios.CentreThenRepeat | tic-tac-toe/src/index.js:71-91 | after X takes the centre, a second click there is ignored, O is next and the list has two entries |
| Scenarios.JumpBackThenClick | tic-tac-toe/src/index.js:73-105 | a jump back to the start followed by a click drops the later snapshot and clears the selection |
| Scenarios.Takes | tic-tac-toe/src/index.js:72-84 | definition: a click at a step passes the guard of `handleClick` and turns the board into the given one |
| Scenarios.TopRowWin | tic-tac-toe/src/index.js:71-143 | from the empty board, clicks 0, 4, 1, 5, 2 are each accepted and produce the board `X X X / _ O O / _ _ _`. On it the status is "Winner is X", the top row is the trace, and square 3 is refused |
| Scenarios.LastClickWinShowsDraw | tic-tac-toe/src/index.js:71-143 | from the empty board, clicks 0, 1, 2, 3, 4, 6, 7, 5, 8 are each accepted, since no earlier board has a winner. The last one completes X's diagonal 0-4-8, yet the status is Draw with that diagonal highlighted |

## Left out

- React rendering is not modelled: `Square`, `ChangeSortOrder`, the nested row and column loops of `Board.render`, and the `<li>`/`<button>` elements and their CSS class names are presentation only. `Render` returns the values they display.
- `ReactDOM.render` and the `index.css` import are not modelled. They are DOM and bundler I/O.
- `setState` is modelled as one synchronous, atomic update of the named fields. Its asynchronous batching is not modelled.
- Label strings are not modelled: "Go to move #k at col:row", "Sort ASC"/"Sort DESC", "Winner is X" and the draw placeholder text. Each list entry carries its move number, coordinates and highlight, and the status is a datatype.
- GameState.Game.HandleClick: the square index is a `CellIndex` (0..8). JavaScript would write past the board for `i >= 9`, but the board only ever passes 0..8.
- GameState.Game.JumpToMove: requires `step < |history|` because the list buttons only pass indices of the history.
- GameState.Game.HandleClick: the JavaScript copies the squares array and writes one cell of the copy. The model builds the new board as a sequence value, so array aliasing is not modelled.
- `selectedStepNumber` starts out undefined and is later set to null. Both are `None` in the model.
- The long concrete games are stated click by click on the board values: each click's guard and the board it produces. Only the short games in `Scenarios` call the class handlers.
