# Sudoku game: play engine and solver, modelled in Dafny

This project models two parts of a small browser Sudoku game and proves properties of each.

The first part is the play engine in `static/app.js`. It covers:

- the per-cell input state machine of the key handler (empty, a committed value, or visible pencil marks);
- the pause and selection gates around it;
- loading a puzzle into the 81 cells;
- the check of the grid against the server's solution (incomplete, correct, incorrect);
- the pausable second counter and its `mm:ss` formatter.

The page keeps each cell's state in DOM nodes. The model keeps it in a `Cell` value: the pre-filled flag, the final value (0 for empty text) and the set of visible pencil marks. The grid is an `array<Cell>` of 81 cells inside the class `PlayEngine.Game`. The game's shared `state` object becomes that class's fields. Each handler is a method that changes those fields in place. Pure functions (`Press`, `Erase`, `Loaded`, `Evaluate`) state what the methods do, and lemmas about them state the rules of the game. The input states and their transition table are written separately as `Mode` and `Step`. `Press` is proved to implement `Step` on every reachable cell.

The second part is the deterministic logic of `internal/sudoku/sudoku.go`. It covers:

- the placement test `isSafe`, modelled as a loop method proved equal to the predicate "the number is absent from the row, the column and the 3x3 box";
- the recursive backtracking solver `solveSudoku`, which works in place on a 9x9 `array2<int>`;
- the difficulty-to-holes switch of `GenerateSudoku`, with the value of `rand.Intn` passed in as a parameter.

The solver terminates because the number of empty cells decreases by one at each recursive call. It never changes a given cell and writes only digits 1..9. When it fails, the board is restored. When it succeeds, no cell is empty and every cell it filled differs from every other cell in its row, column and box.

The Go function does the whole search in one body. The model splits it into the same steps: `FindEmpty` is the row-major scan for the first empty cell, and `TryDigit` is one write-recurse-undo trial. `SolveSudoku` and `TryDigit` call each other.

Where the code and the usual description of the game differ, the model follows the code:

- A second new game does not clear the selected cell.
- Toggling the only visible mark twice does not restore it: the first toggle empties the cell, and the second commits the digit as a value.
- Checking before any solution has arrived raises a `TypeError` in the page. The model reports this as `Aborted`.
- `timer.stop` cancels the interval but keeps its handle. The next `timer.start` then clears that stale handle, which does no harm.

Files: `common.dfy` (module `Common`), `time_format.dfy` (module `TimeFormat`), `play_engine.dfy` (module `PlayEngine`), `sudoku.dfy` (module `Sudoku`).

## Model

| member | source | states |
|---|---|---|
| PlayEngine.Step | static/app.js:87-101 | the designed transition table keeps states well-formed: a value stays a digit 1..9, candidates stay a non-empty set of digits |
| PlayEngine.Press | static/app.js:87-101 | a digit on a well-formed player cell gives a well-formed cell (never a value together with a visible mark), and its input state moves exactly as `Step` prescribes; the pre-filled flag is kept |
| PlayEngine.PressEmptyCommits | static/app.js:99-100 | a digit typed into a cell with no value and no visible mark becomes its value |
| PlayEngine.PressSameValueKeeps | static/app.js:93-94 | typing the digit a cell already holds changes nothing |
| PlayEngine.PressOtherValueSplits | static/app.js:93-98 | typing a different digit clears the value and shows exactly the two marks, the old value and the new digit |
| PlayEngine.PressTogglesMark | static/app.js:88-92 | with marks visible, the value is untouched and only the typed digit's mark flips |
| PlayEngine.PressTwiceRestoresMarks | static/app.js:90-92 | toggling a mark twice restores the cell whenever the first toggle leaves some mark visible |
| PlayEngine.PressLastMarkEmpties | static/app.js:90-92 | toggling off the last visible mark leaves the player cell empty |
| PlayEngine.PressScenario | static/app.js:87-101 | typing 4, 6, 4, 6 into an empty cell gives the value 4, then candidates {4, 6}, then {6}, then empty |
| PlayEngine.Erase | static/app.js:102-105 | Backspace/Delete leaves the cell empty with the same pre-filled flag, and a well-formed player cell |
| PlayEngine.EraseIdempotent | static/app.js:102-105 | clearing twice is the same as clearing once |
| PlayEngine.Loaded | static/app.js:142-146 | the cell loaded from puzzle entry v is given iff v is not 0, shows v (empty for 0) and has no visible marks |
| PlayEngine.FilledByRows | static/app.js:179-184 | the row-and-column scan visits every one of the 81 cells: the grid is filled iff every (row, column) holds a value |
| PlayEngine.Evaluate | static/app.js:189-200 | no ensures of its own; EvaluateIncompleteIff and EvaluateCorrectIff state both directions of each verdict, and EvaluateOneOpenCell a concrete case |
| PlayEngine.EvaluateIncompleteIff | static/app.js:184-191 | the verdict is Incomplete exactly when some cell is empty or shows only pencil marks, whatever the other cells hold |
| PlayEngine.EvaluateCorrectIff | static/app.js:184-196 | the verdict is Correct exactly when every cell holds a value and every cell with a non-zero solution entry holds that entry |
| PlayEngine.EvaluateOneOpenCell | static/app.js:173-200 | with one open cell whose solution is 7, entering 7 is Correct, entering 3 is Incorrect, and leaving it empty is Incomplete |
| PlayEngine.Game.constructor | static/app.js:17-23 | the initial state: 81 empty player cells, no solution, no selection, not paused, counter 0, no interval |
| PlayEngine.Game.Start | static/app.js:45-53 | the previous interval is cancelled and exactly one fresh interval is scheduled: at most one is ever active |
| PlayEngine.Game.Stop | static/app.js:54-56 | afterwards no interval is scheduled |
| PlayEngine.Game.Reset | static/app.js:57-60 | the counter is 0 |
| PlayEngine.Game.Tick | static/app.js:47-52 | one second passing adds 1 to the counter exactly when an interval is scheduled and the game is not paused |
| PlayEngine.Game.TogglePause | static/app.js:64-69 | the pause flag flips |
| PlayEngine.Game.Select | static/app.js:72-79 | while paused, or for a click outside every cell, the selection is unchanged; otherwise the clicked cell replaces it |
| PlayEngine.Game.KeyIgnored | static/app.js:81 | no ensures of its own; HandleKeyPress states that while it holds no cell changes, and that otherwise the selected player cell changes as the key says |
| PlayEngine.Game.HandleKeyPress | static/app.js:81-106 | paused, nothing selected or a given cell selected: no cell changes; otherwise only the selected cell changes, by `Press` for a digit and `Erase` for Backspace/Delete; other keys change nothing; given cells never change |
| PlayEngine.Game.ApplyDigit | static/app.js:87-101 | the selected cell becomes `Press` of its old state, every other cell is unchanged |
| PlayEngine.Game.ClearCell | static/app.js:102-105 | the selected cell becomes `Erase` of its old state, every other cell is unchanged |
| PlayEngine.Game.ClearPencilMarks | static/app.js:109-111 | the loop over the nine marks leaves the cell with no visible mark and nothing else changed |
| PlayEngine.Game.PopulateGrid | static/app.js:136-149 | cell r*9+c becomes `Loaded(puzzle[r][c])` for every row and column |
| PlayEngine.Game.ReceiveGame | static/app.js:164-165 | the solution is replaced and the puzzle loaded |
| PlayEngine.Game.NewGame | static/app.js:153-156 | unpaused, counter 0, and a fresh interval is the only active one |
| PlayEngine.Game.Scan | static/app.js:176-187 | the nested loop's two flags are exactly "every cell holds a value" and "every constrained cell matches the solution" |
| PlayEngine.Game.CheckSolution | static/app.js:173-201 | nothing while paused; Aborted while no solution has arrived; otherwise the `Evaluate` verdict; on Correct the interval is stopped and the report carries the elapsed seconds, which the message shows through `TimeFormat.FormatTime`; otherwise no time is reported and the timer is untouched |
| TimeFormat.Decimal | static/app.js:41-42 | `toString` of a non-negative integer: at least one decimal digit, no leading zero, one digit below 10 and two below 100 |
| TimeFormat.PadStart | static/app.js:41-42 | `padStart`: the result is the width long (or the input if longer), ends with the input, and is filled with the fill character before it |
| TimeFormat.ParseDecimalOfDecimal | static/app.js:41-42 | reading back the decimal digits gives the number |
| TimeFormat.ParsePadded | static/app.js:41-42 | '0' padding does not change the value of a digit string |
| TimeFormat.JoinFields | static/app.js:43 | the minutes and seconds fields joined by ':' have at least five characters, with ':' third from last |
| TimeFormat.FormatTime | static/app.js:40-44 | no ensures of its own; FormatTimeRoundTrip and FormatTimeWidth state what it produces |
| TimeFormat.FormatTimeRoundTrip | static/app.js:40-44 | the display reads back as the same number of seconds: floor(s/60) minutes and s%60 seconds, nothing lost |
| TimeFormat.FormatTimeWidth | static/app.js:40-44 | the display is exactly five characters ("mm:ss") iff the time is under 100 minutes |
| Sudoku.BoxOrigin | internal/sudoku/sudoku.go:60-61 | `x - x%3` is the multiple of 3 at or below x, so the box scan reads rows and columns origin..origin+2, all within 0..8 |
| Sudoku.IsSafe | internal/sudoku/sudoku.go:46-70 | true iff num appears nowhere in the row, nowhere in the column and nowhere in the 3x3 box of (row, col) |
| Sudoku.ZeroCountFill | internal/sudoku/sudoku.go:76-80 | writing a non-zero number into an empty cell removes exactly one empty cell: the solver's termination measure decreases |
| Sudoku.FindEmpty | internal/sudoku/sudoku.go:74-76 | the row-major scan finds an empty cell with every earlier cell filled, or reports that no cell is empty |
| Sudoku.FlattenWrite | internal/sudoku/sudoku.go:79 | writing one cell changes the row-by-row view of the board at position i*9+j and nowhere else |
| Sudoku.TryDigit | internal/sudoku/sudoku.go:78-84 | one trial of a safe digit in an empty cell: on failure the board is restored; on success the same guarantees as the solver, including that the tried cell is distinct from its units |
| Sudoku.SolveSudoku | internal/sudoku/sudoku.go:73-91 | terminates; never changes a non-zero cell; writes only 1..9; on false the board is as it was; on true no cell is empty and every cell the solver filled differs from every other cell of its row, column and box (clashing givens are not checked: a full board is accepted as it is) |
| Sudoku.SuccessDistinct | internal/sudoku/sudoku.go:77-82 | a digit that passed `isSafe` before the recursive call stays distinct from its row, column and box once that call succeeds |
| Sudoku.Holes | internal/sudoku/sudoku.go:25-39 | for a roll that `rand.Intn` may return, holes is 30..34, 40..44, 48..52, 53..56 or 57..59 for beginner, easy, medium, hard and expert, and exactly 48 otherwise |
| Sudoku.HolesCoverRange | internal/sudoku/sudoku.go:25-39 | every count in a difficulty's range is produced by some allowed roll |

## Left out

- `fetchNewGame` (static/app.js:152-171) is only partly modelled. `NewGame` covers its synchronous start. `ReceiveGame` covers a successful response. The request, a failed response (which leaves the old solution and grid in place) and the race between two overlapping requests are asynchronous network behaviour.
- `saveStats` and `fetchAndDisplayStats` (static/app.js:204-243) are network calls and HTML building. The `saveStats` call that follows a Correct check is not modelled.
- `createGrid` (static/app.js:113-134) and all class and text changes on DOM nodes are presentation. The constructor starts from the grid that `createGrid` leaves: 81 empty player cells. The message texts and the timer display text are not modelled.
- Player-name storage in `localStorage` (static/app.js:28-36) is browser storage.
- Real time is not modelled. `setInterval`/`clearInterval` become a handle counter and the set of active intervals. `Tick` stands for one second passing.
- Key strings are not modelled. The key handler's string comparison `key >= '1' && key <= '9'` becomes the `Key` datatype (a digit 1..9, Backspace, Delete, any other key).
- PlayEngine.Game.Tick: a tick with no active interval is a no-op. It stands for a second in which no callback fires.
- TimeFormat.Decimal: toString's exponent notation for numbers of 10^21 and above is not modelled.
- PlayEngine.Game.ReceiveGame: requires a 9x9 puzzle and solution, the shape of the server's fixed-size board type. A malformed response is not modelled.
- `fillBox`, `fillDiagonal`, `removeDigits` and the composition in `GenerateSudoku` (internal/sudoku/sudoku.go:17-24, 40-42, 93-127) depend on `rand.Intn`, and their retry loops end only with probability 1. Also, `fillBox` passes the box origin to `isSafe`, not the cell being filled (internal/sudoku/sudoku.go:107). The model does not change this.
- internal/handlers/handlers.go, internal/db/db.go and cmd/main.go are HTTP handling, SQL and server startup. They are not part of this model.
