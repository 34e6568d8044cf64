# Sudoku engine

A Dafny model of the game logic in `js/app.js` of a browser Sudoku game. The
model covers everything in that file that is not DOM code:

- the placement check `isValid`;
- the randomised backtracking generator `generateCompleteBoard` / `fillBoard` and its Fisher–Yates `shuffle`;
- the puzzle carver `removeNumbers`;
- the game state that `initGame` builds (the three boards `solution`, `initialBoard` and `currentBoard`, plus the difficulty-to-removal-count table);
- the board update of `fillCell`;
- the counting pass of `checkSolution`;
- `isBoardFull`;
- the naked-single scan and the reveal fallback of `provideHint`.

Boards are flat `array<int>` of 81 cells in row-major order. Cell (row, col) is at
`9 * row + col`, the cell index the game itself uses. 0 marks an empty cell. The
source indexes its nested 9x9 arrays by `[row][col]`; where it flattens them
(`isBoardFull` at js/app.js:248, the hint fallback at js/app.js:286, which turns
the flat index back into `(randIdx / 9, randIdx % 9)` at js/app.js:292-293),
`.flat()` lists the cells row by row, so the flat index is the same row-major
`9 * row + col`, and the flat layout changes no behaviour. Specifications are stated on the value
`board[..]`.

Modules, one per file:

- `Board` (`board.dfy`) defines the grid and these predicates:
  - `Allowed`: the row, column and box rule of `isValid`;
  - `Consistent` and `Solved`: a valid (complete) Sudoku;
  - `Extends`: keeps every filled cell;
  - `IsCompletionOf`: a solution of a puzzle.
- `Validator` (`validator.dfy`): `isValid` as a method with the source's single nine-step loop, proved equal to `Allowed`.
- `Shuffle` (`shuffle.dfy`): the in-place Fisher–Yates shuffle.
- `Generator` (`generator.dfy`): `fillBoard` as the in-place place-and-undo recursion, and `generateCompleteBoard`.
- `Carver` (`carver.dfy`): `removeNumbers`.
- `Hints` (`hints.dfy`): the candidate list that `provideHint` builds, and the naked-single rule.
- `Session` (`session.dfy`): class `Game` with the three boards as fields.
  - Its invariant `Valid` says:
    - the solution is a solved grid;
    - the puzzle agrees with the solution on its fixed cells;
    - the player's board agrees with the puzzle on the fixed cells.
  - `initGame`, `fillCell`, `checkSolution` and `provideHint` are its constructor and methods.

`Math.random` has no counterpart. Every random draw is an arbitrary choice (`:|`) in the range the code draws from, so each result is proved for every possible draw:

- the swap partner in `shuffle`;
- the cell emptied by `removeNumbers`;
- the cell revealed by the hint fallback.

Beyond the promised outcomes of `fillBoard`, the model proves two more facts:

- The search is exhaustive. When `fillBoard` returns false, the board has no solution at all.
- An empty board has a solution: a fixed shifted-row pattern grid is one. So `generateCompleteBoard` always returns a valid complete Sudoku.

## Model

| member | source | states |
|---|---|---|
| Validator.IsValid | js/app.js:426-438 | returns true exactly when `num` occurs in none of the row, the column and the 3x3 box of (row, col); the cell's own value is not exempted (that every index read is in range is checked by verification of the body, not stated in the contract) |
| Validator.BoxScanCoversBox | js/app.js:432-435 | the nine box steps `(3*floor(row/3) + i/3, 3*floor(col/3) + i%3)` visit every cell of the box |
| Board.AllowedIffNoPeer | js/app.js:426-438 | the check passes exactly when no cell sharing a row, column or box with (row, col) holds the digit |
| Validator.SolvedCellAllowsOnlyItsValue | js/app.js:426-438 | on a solved grid with one cell cleared, exactly that cell's original digit passes the check there |
| Board.PlaceAllowedKeepsConsistent | js/app.js:400-401 | placing a digit the check accepts into an empty cell keeps a conflict-free board conflict-free |
| Board.DisallowedExcluded | js/app.js:400 | a digit the check rejects at a cell is not in any solution of the board at that cell |
| Board.Copy | js/app.js:92 | a fresh array with the same contents as the source (the deep copies at lines 92 and 96) |
| Board.IsBoardFull | js/app.js:247-249 | a board is full exactly when it holds no 0 |
| Shuffle.Shuffle | js/app.js:440-446 | the array afterwards is a permutation of its old contents (same multiset) |
| Generator.FillBoard | js/app.js:394-411 | true: board full, every entry cell kept, a valid Sudoku when the entry board had no conflict; false: board exactly as on entry and no solution of it exists |
| Generator.TryDigits | js/app.js:397-406 | the shuffled candidate loop at the first empty cell: the same two outcomes as fillBoard |
| Generator.TryDigit | js/app.js:400-404 | one candidate: on failure the cell is reset (board as on entry) and no solution holds that digit there |
| Generator.DigitsExhausted | js/app.js:399-406 | when all nine digits are ruled out at one cell, the board has no solution |
| Generator.ShuffledDigitsCoverAll | js/app.js:398 | the shuffled list still holds every digit 1..9 |
| Generator.GenerateCompleteBoard | js/app.js:388-392 | the board built from an all-zero grid is a valid complete Sudoku |
| Generator.PatternIsSolved | js/app.js:388-392 | an empty grid has a solution: the fixed pattern grid is a valid complete Sudoku |
| Carver.RemoveNumbers | js/app.js:413-424 | with attempts at most the filled-cell count, exactly `attempts` more cells are 0 (none for attempts <= 0); every cell is either emptied or keeps its value; empty cells stay empty |
| Carver.FilledCellExists | js/app.js:417-420 | while fewer cells are empty than exist, a filled cell is there to pick |
| Session.RemovalCount | js/app.js:89 | 'easy' gives 30, 'medium' 45, anything else 55; always fewer than the 81 cells |
| Session.Game.constructor | js/app.js:83-96 | the solution is a valid complete Sudoku; the puzzle is a copy of it with exactly RemovalCount(difficulty) cells emptied; the player's board starts equal to the puzzle; the three boards are distinct arrays |
| Session.Game.FillCell | js/app.js:154-170 | a fixed cell leaves the board unchanged; otherwise only that cell changes, to the value, 0 clearing it; the invariant is kept |
| Session.Game.CheckSolution | js/app.js:186-207 | emptyCells is the number of 0 cells; the flagged cells are exactly the open, filled cells that differ from the solution; isCorrect is true exactly when every open filled cell matches the solution |
| Session.NoMistakesMeansAgreement | js/app.js:199-205 | nothing is flagged exactly when every open filled cell holds the solution's digit |
| Session.SolutionFillHasNoMistakes | js/app.js:195-205 | a board equal to the solution has no empty cell and nothing flagged |
| Session.OneWrongEntryIsFlagged | js/app.js:199-205 | writing one wrong digit into an open cell of an unflagged board flags exactly that cell |
| Session.ZeroCountStep | js/app.js:195 | the empty count grows by one exactly on an empty cell |
| Session.MistakesBeforeStep | js/app.js:200-204 | the flagged set grows by the current cell exactly when it is open, filled and wrong |
| Hints.Possibilities | js/app.js:261-266 | the list holds exactly the digits 1..9 that the check accepts, in increasing order |
| Hints.InOrderSpec | js/app.js:262-265 | the candidate list holds exactly the accepted digits and is strictly increasing |
| Hints.InOrderSingleton | js/app.js:268 | the candidate list has length one exactly when exactly one digit is accepted |
| Hints.NakedSingleIffUniqueCandidate | js/app.js:260-268 | a cell triggers the logical hint exactly when it is empty and exactly one digit 1..9 passes the check |
| Session.Game.ProvideHint | js/app.js:251-302 | a logical hint is given exactly when some empty cell has one candidate: the first such cell in row-major order gets the solution's digit; otherwise, if any cell is empty, some empty cell gets its solution digit; the board is left unchanged exactly when it was already full; only the hinted cell changes; the invariant is kept |

## Left out

- The DOM and the UI are not modelled: `renderBoard`, the highlighting in `selectCell`, `showFeedback`, the modals, the event listeners and the timer. They carry no board invariant.
- The automatic `checkSolution` that `fillCell` schedules with `setTimeout` is not modelled. It is UI timing.
- The messages that `checkSolution` and `provideHint` show are not modelled. The hint messages print 1-based rows and columns; `Hint` records the 0-based ones.
- `moveSelection` is not modelled. It is keyboard navigation.
- The service worker `sw.js` is not part of this model. It only caches assets.
- Session.Game.FillCell: the selected cell comes in as `(row, col)` rather than through `selectedCellIndex`. The early return when no cell is selected is left out.
- Session.Game.FillCell: the key string is taken as its digit value 0..9. `'0'` and the number 0 both clear the cell.
- Session.Game.CheckSolution: the `error` CSS class added to wrong cells is modelled as the returned set `errors` of their indices. The rest of the function after line 207 (modals and messages) is UI and is left out.
- Session.Game.ProvideHint: the naked-single digit is not claimed to equal the solution's digit. The game writes the solution's digit regardless, and wrong player entries can make the two differ.
- `Math.random` is not modelled. Each draw is an arbitrary choice, so nothing about the distribution (uniform shuffles, uniform cells) is claimed.
- Carver.RemoveNumbers: the rejection-sampling loop at lines 417-420 is modelled as one choice among the filled cells. The precondition that `attempts` does not exceed the filled cells is the caller's duty in the source too: with more attempts the sampling never ends.
- Generator.FillBoard: the loop body of `fillBoard` is split into the methods `TryDigits` (the candidate loop) and `TryDigit` (one candidate). The recursion and the order of effects are the same.
- Carving does not check that the puzzle has a unique solution. The code never checks it either.
- The `JSON.parse(JSON.stringify(...))` deep copies are modelled as fresh array copies (`Board.Copy`).
- `startNewGame` and the difficulty selector are not modelled. A new game is a new `Game` object.
