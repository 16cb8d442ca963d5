# Sudoku game engine, in Dafny

This project models the engine of a browser Sudoku game: the `SudokuGame`
class of `sudoku.js`. A game object holds two 9x9 integer grids, `board` (what
the player sees and edits) and `solution` (the grid the puzzle was carved
from), where 0 marks an empty cell. It also holds the set of fixed (given)
cells, a mistake counter and a difficulty name.

The model has three parts:

- **Generation.** Three diagonal 3x3 boxes are seeded with shuffled 1..9, and a
  backtracking solver completes the grid. It is built from a Fisher-Yates
  shuffle, a first-empty-cell search and a row/column/box check.
- **Carving.** The board is copied from the solution, then the first K cells of
  a shuffled list of all 81 coordinates are cleared, and every cell still filled
  is fixed. K depends on the difficulty.
- **Player commands.** These are placing a number, clearing a cell, revealing a
  hint, and the partial check and the two full checks.

Files:

- `sequences.dfy` (module `Sequences`): facts about repeat-free sequences: their
  permutations, how many values they hold, and the pigeonhole principle.
- `grid.dfy` (module `Grid`):
  - the vocabulary of the grid: cells, units (rows, columns, boxes), the
    placement check `ValidMove`, `Consistent` (no repeated digit) and
    `IsSudokuSolution`;
  - the lemmas that connect them.
- `game.dfy` (module `Sudoku`): the class `SudokuGame`. Its fields are the
  five engine fields of the source (`board`, `solution`, `fixedCells`,
  `mistakes`, `difficulty`); `selectedCell`, `timer` and `timerInterval` are
  not fields (see "Left out"). Each modelled method of the source is a method
  with the same loops, early returns and in-place writes, except
  `getCellsToRemove`, which is modelled as the module-level function
  `CellsToRemove` of the difficulty: it takes the difficulty as a parameter
  instead of reading the field, and an if-chain stands for the switch's early
  returns. Five helper methods
  (`ShuffledDigits`, `PlaceDigit`, `CopySolution`, `AllCells`,
  `FixFilledCells`) hold code the source writes inline. Some methods return a
  result the source does not: `GenerateNewGame`, `ChangeDifficulty` and
  `GenerateSolution` return the solver's success flag, `GiveHint` the cell it
  revealed, `PlaceNumber` whether the game is won, and `CheckSolution` its
  outcome instead of a message.

Randomness is not modelled as a distribution. Each random index is an arbitrary
choice in the range the source draws from: `j` in `[0, i]` for the shuffle, and
an index into the candidate list for a hint. Every property below therefore
holds for every possible outcome of the random source.

The selected DOM cell of `placeNumber` and `clearCell` is passed in as an
`Option<(int, int)>`, with `None` for no selection. The `"row-col"` string keys
of `fixedCells` become `(row, col)` pairs; those keys are injective on 0..8.

## Model

| member | source | states |
|---|---|---|
| Sudoku.CellsToRemove | sudoku.js:295-306 | the number of cells to clear is always one of 30, 45 and 55 |
| Sudoku.GivenCellsByDifficulty | sudoku.js:295-306 | easy, medium and hard puzzles keep 51, 36 and 26 given cells (30, 45 and 55 cleared); any other difficulty name clears as many as medium |
| Sudoku.WonIsCorrect | sudoku.js:379-386 | when every fixed cell agrees with the solution, a full board with no wrong entry equals the solution: the check button's win implies the full correctness check of lines 399-408 |
| Sudoku.CorrectIsWon | sudoku.js:133-135 | conversely, a board equal to a full solution has no wrong entry and is full, so the win seen by `placeNumber` is also a win for the check button |
| Sudoku.SudokuGame.constructor | sudoku.js:2-13 | a new game object is at medium difficulty with no mistakes, and its first game is generated: the fixed-cell invariant holds, the fixed cells are exactly the filled cells, every cell is empty or shows its solution value; a full solution is a finished Sudoku, and then the board has 45 empty and 36 fixed cells |
| Sudoku.SudokuGame.ResetGame | sudoku.js:164-176 | two fresh all-zero grids, no fixed cells, no mistakes, difficulty unchanged |
| Sudoku.SudokuGame.GenerateNewGame | sudoku.js:156-162 | reset, generate, carve: the invariant holds; mistakes are 0 and the difficulty is kept; the fixed cells are exactly the filled cells; every cell is empty or shows its solution value; the solver succeeds exactly when the solution is full; a full solution is a finished Sudoku, and then the board has exactly K empty cells and 81 - K fixed cells |
| Sudoku.SudokuGame.ChangeDifficulty | sudoku.js:67-75 | the difficulty is set, then a new game starts at that difficulty: the invariant holds, mistakes are 0, the fixed cells are exactly the filled cells and every cell is empty or shows its solution value; the solver succeeds exactly when the solution is full; a full solution is a finished Sudoku, and then the board has K empty and 81 - K fixed cells for the new difficulty |
| Sudoku.SudokuGame.GenerateSolution | sudoku.js:178-181 | if the solver succeeds, the solution is full; if it started all zero, the solver succeeds exactly when the solution ends full, and then every row, column and box holds 1..9 exactly once |
| Sudoku.SudokuGame.FillDiagonalBoxes | sudoku.js:183-187 | the boxes at (0,0), (3,3) and (6,6) each hold a permutation of 1..9; no cell outside them changes |
| Sudoku.SudokuGame.FillBox | sudoku.js:189-199 | the box at (row, col) holds a permutation of 1..9, written row-major; no other cell changes |
| Sudoku.SudokuGame.ShuffledDigits | sudoku.js:190-191 | the array [1..9] after shuffling holds every digit exactly once |
| Sudoku.SudokuGame.ShuffleArray | sudoku.js:201-206 | for every choice of j in [0, i] the result is a permutation of the input; arrays of length 0 or 1 are unchanged |
| Sudoku.SudokuGame.SolveSudoku | sudoku.js:208-229 | on success the board is full, cells filled on entry are unchanged, and a board with no repeated digit on entry still has none; on failure the board is as on entry; it terminates because each recursive call has one empty cell fewer |
| Sudoku.SudokuGame.PlaceDigit | sudoku.js:217-218 | writing a digit that passes the check into an empty cell changes only that cell, removes one empty cell and keeps a repeat-free grid repeat-free |
| Sudoku.SudokuGame.FindEmptyCell | sudoku.js:231-240 | null exactly when no cell is 0; otherwise the cell returned is 0 and every cell before it in row-major order is filled |
| Sudoku.SudokuGame.IsValidMove | sudoku.js:242-261 | true exactly when `num` appears neither in the row, nor in the column, nor in the 3x3 box starting at (3*(row/3), 3*(col/3)) |
| Sudoku.SudokuGame.CreatePuzzle | sudoku.js:263-293 | exactly K cells, all on the grid, are cleared, and the rest equal the solution; the fixed cells are exactly the non-zero cells and agree with the solution; with a full solution, the empty cells are exactly the cleared ones and 81 - K cells are fixed |
| Sudoku.SudokuGame.CopySolution | sudoku.js:264-268 | the board equals the solution cell for cell |
| Sudoku.SudokuGame.AllCells | sudoku.js:271-277 | the list holds the 81 coordinates in row-major order |
| Sudoku.SudokuGame.FixFilledCells | sudoku.js:286-291 | the fixed cells grow by exactly the board's non-zero cells |
| Sudoku.SudokuGame.GiveHint | sudoku.js:325-358 | with no non-fixed empty cell, nothing changes; otherwise exactly one such cell gets its solution value and becomes fixed, and nothing else changes; the fixed-cell invariant is kept |
| Sudoku.SudokuGame.PlaceNumber | sudoku.js:113-136 | with no selection or a fixed cell, nothing changes; otherwise only the selected cell changes, to the number; mistakes grow by 1 exactly when the number differs from the solution; the result is true exactly when the board is full and correct; the fixed-cell invariant is kept |
| Sudoku.SudokuGame.ClearCell | sudoku.js:138-150 | with no selection or a fixed cell, nothing changes; otherwise only the selected cell changes, to 0; the fixed-cell invariant is kept |
| Sudoku.SudokuGame.CheckSolution | sudoku.js:360-386 | errors are reported exactly when some non-fixed, non-zero cell differs from the solution; a win exactly when there is no such cell and the board is full; a win implies the board equals the solution |
| Sudoku.SudokuGame.IsBoardComplete | sudoku.js:388-397 | true exactly when no cell is 0 |
| Sudoku.SudokuGame.IsBoardCorrect | sudoku.js:399-408 | true exactly when the board equals the solution in every cell |
| Grid.ValidMoveAvoidsPeers | sudoku.js:242-261 | a digit that passes the check differs from every cell sharing a row, column or box with the target cell |
| Grid.SameCells | sudoku.js:224 | a grid whose 81 cells are as before has the same empty cells and the same consistency, so undoing a placement restores both |
| Grid.ConsistentFullIsSolution | sudoku.js:216-221 | a full grid with no repeated digit in any row, column or box holds 1..9 exactly once in every unit |
| Grid.SolutionIsConsistentFull | sudoku.js:208-229 | conversely, a finished Sudoku is full and has no repeated digit, so the solver's success condition is exactly that |
| Grid.DiagonalSeedConsistent | sudoku.js:183-199 | permutations written into the three diagonal boxes of an otherwise empty grid never repeat a digit in a row, column or box |
| Grid.BlockOfPermutation | sudoku.js:189-199 | a box holding a permutation of 1..9 holds nine different digits, each in 1..9 |
| Grid.BoxValuesIffCells | sudoku.js:193-198 | writing nine values into a box row by row makes the box's row-major values that sequence, and only that one |
| Grid.ReorderedDigits | sudoku.js:190-191 | any reordering of [1..9] holds nine different digits in 1..9 |
| Grid.DigitPermutationReorders | sudoku.js:190-191 | conversely, nine different digits in 1..9 are a reordering of [1..9] |
| Grid.ReorderedCells | sudoku.js:279-283 | a shuffled list of the 81 coordinates has 81 entries, each a cell of the grid |
| Grid.ShuffledCells | sudoku.js:279-284 | a shuffled list of the 81 coordinates lists each cell once, so its first K entries are K different cells and the rest are the other 81 - K |
| Grid.CarvedGrid | sudoku.js:281-291 | a grid carved by clearing the first K shuffled cells agrees with the solution on its filled cells; with a full solution, exactly those K cells are empty and 81 - K are filled |

## Left out

- DOM rendering and styling are not modelled: `renderBoard`, `displayBoard`, `updateCell`, `selectCell` and its highlighting, and the `error`/`fixed` class toggles in `placeNumber`, `giveHint` and `checkSolution`. None of them changes engine state.
- Event wiring (`attachEventListeners`, `init`, the `DOMContentLoaded` bootstrap) is input plumbing. Its only state change, setting the difficulty and starting a new game on a difficulty button (lines 67-75), is `ChangeDifficulty`.
- Timers and messages are not modelled: `startTimer`, `updateTimerDisplay`, `showMessage`, `gameWon`, and the timer and message lines of `resetGame`. They are asynchronous and presentation-only. `CheckSolution` returns its outcome instead of showing a message.
- `Math.random` and its floating-point arithmetic are replaced by an arbitrary index in the same range. Uniformity of the shuffle or the hint choice is not claimed.
- Uniqueness of the carved puzzle's solution is not claimed; the source never checks it.
- Sudoku.SudokuGame.SolveSudoku: the model does not prove completeness, that is, that the solver succeeds on every diagonal-seeded grid, nor that a false result means the grid has no completion. It states only what holds on success and on failure.
- Sudoku.SudokuGame.GenerateSolution: because solver completeness is not proved, the solution is stated full and a finished Sudoku only when the solver reports success (which, from an all-zero start, is exactly when the solution ends full); that it always succeeds is not stated.
- Sudoku.SudokuGame.GenerateNewGame: for the same reason, "the solution is a finished Sudoku" and the K empty and 81 - K fixed cells are stated on the condition that the solution is full, which holds exactly when the solver succeeds; that it always does is not stated.
- Sudoku.SudokuGame.ChangeDifficulty: likewise, "the solution is a finished Sudoku" and the K empty and 81 - K fixed cells for the new difficulty are stated on the condition that the solution is full, which holds exactly when the solver succeeds.
- Sudoku.SudokuGame.constructor: "the first game's solution is a finished Sudoku" and its 45 empty and 36 fixed cells are stated on the condition that the solution is full, for the same reason; the solver's success flag is not kept.
- Sudoku.SudokuGame.CreatePuzzle: it states "exactly K empty cells" on the condition that the solution is full (`Full(solution) ==> ...`). It does not require a full solution. Without one, the cleared cells still number K and every other cell still equals the solution.
- `ShuffledDigits`, `PlaceDigit`, `CopySolution`, `AllCells` and `FixFilledCells` are factored out of the methods whose lines they cite; the source writes their code inline.
- `selectedCell` is a parameter of `PlaceNumber` and `ClearCell` rather than a field. Clearing it in `resetGame` is therefore not modelled.
