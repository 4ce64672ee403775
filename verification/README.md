# Sudoku solver engine — a Dafny model

This project models the `SudokuSolver` class of a small Sudoku web service. The
class works on a 9x9 grid encoded as an 81-character, row-major string
(`index = row * 9 + column`), with `.` marking a blank cell. It offers:

- `validate`: checks the length first (exactly 81), then the character class
  `[0-9.]`, and returns `true` or an object holding one of two error messages;
- `checkRowPlacement`, `checkColPlacement`, `checkRegionPlacement`: may
  `value` go at `(row, column)`, judged against one house (row, column or 3x3
  region);
- `solve`: single-candidate propagation. Each pass keeps filled cells and
  fills a blank only when exactly one digit 1-9 passes all three checks on the
  grid as it stood before the pass; the rebuilt string is fed back into
  `solve`. The field `actualPuzzle` remembers the last unsolved string
  attempted, and a call repeating it returns `false`. That guard is what stops a
  pass that made no progress. With `isUnique` supplied, a grid without blanks
  is returned when its rows and columns each hold distinct characters.

Layout:

- `Grid.dfy` (module `Grid`): the encoding, the houses (`Row`, `Column`,
  `Region`, and `Box` as the solved-grid check numbers regions), the verdict of
  each house (`RowAdmits`, `ColumnAdmits`, `RegionAdmits`), the blank count
  and pairwise distinctness (`IsUnique`).
- `Solver.dfy` (module `Solver`): the class `SudokuSolver` with its field
  `actualPuzzle` and its invariant `Invariant` (the field holds `""` or a
  valid string with a blank). The stateless operations are `static` members: `Validate`,
  the three checks, and the pass and the solved-grid check split out of
  `solve`. `Solve` is the instance method that changes `actualPuzzle`. It is
  proved against the function `Solution`, which gives the result and the new
  `actualPuzzle` for a given old one. `Pass` specifies one propagation pass.
- `Fixtures.dfy` (module `Fixtures`): the unit-test fixtures, the grids that
  exhibit the two findings below, and two client methods that drive a solver
  object.

Decisions where the code is odd:

- The region check returns `true` on every path: the branch meant to report a
  conflict returns `true`, and the guard after it can never fire. The model
  keeps that as `CheckRegionPlacement` and proves its result constant. The
  solver's candidate computation calls this as-written check, as the code
  does. So in the model, as in the code, only the row and the column decide a
  candidate (`SolverAccepts`). The corrected check,
  `CheckRegionPlacementCorrected`, stands beside it and is used only in the
  statements about the fixtures and in the corrected candidate test
  (`CorrectedAccepts`, `CorrectedCandidates`, `CorrectedPass`).
- The guards `!checkedRow[column] === "."` (and the same for the column and
  the region) compare a boolean with a string, so they never fire. The model
  leaves them out and says so where they stand.
- `isUnique` is called but the class does not define it. It is supplied as
  `IsUnique`: the characters are pairwise distinct, as the comments beside the
  calls say.
- The region loop of the solved-grid check has the bound `reg < 0` and never
  runs. `CheckSolved` and `Solve` follow the code, so they check rows and
  columns only. `CheckSolvedCorrected` runs the loop over all nine regions.
- `validate` admits `0` (the class is `[0-9.]`), and the solver treats a `0`
  as a filled cell. The model follows the code, which accepts `0` in a filled
  cell.
- Resubmission: the guard compares with the LAST unsolved string of the
  recursion, not with the string the caller passed. Re-submitting a puzzle is
  therefore refused only when that string is what the previous call left
  behind. That holds when the first pass made no progress
  (`EmptyGridIsStuck`, `SolveEmptyGridTwice`), and when the first pass
  completed the puzzle. A puzzle that needed several passes can be solved
  again. A caller might expect every repeat to be refused; the code refuses
  only the string the previous call left in `actualPuzzle`, and the model
  follows the code.

## Model

| member | source | states |
|---|---|---|
| Grid.Row | controllers/sudoku-solver.js:21 | row `r` is the cells `r * 9 + k`, k in 0..8, in order |
| Grid.RowIsSlice | controllers/sudoku-solver.js:21 | row `r` is exactly the slice `puzzle.slice(row * 9, row * 9 + 9)` (and the `substr(i * 9, 9)` of line 146) |
| Grid.Column | controllers/sudoku-solver.js:41-43 | column `c` is the cells `k * 9 + c`, k in 0..8, in order, as the loops at lines 41-43 and 154-157 build it |
| Grid.Region | controllers/sudoku-solver.js:69-73 | the region of `(r, c)` is the cells `(3 * (r / 3) + i) * 9 + 3 * (c / 3) + j`, i and j in 0..2, row by row, as the nested loop builds `checkedRegion` |
| Grid.Box | controllers/sudoku-solver.js:166-171 | box `b` is the cells `(b / 3) * 27 + i * 9 + (b % 3) * 3 + j`, i and j in 0..2, as the region loop of the solved-grid check builds `box` |
| Grid.IsUnique | controllers/sudoku-solver.js:146 | pairwise distinct characters, supplied for the undefined `isUnique` that lines 146 and 158 call |
| Grid.RegionPositionOfCell | controllers/sudoku-solver.js:69-86 | position `(row % 3) * 3 + column % 3` of the region string is the cell `puzzle[row * 9 + column]` |
| Grid.RegionIsBox | controllers/sudoku-solver.js:165-171 | the box that the solved-grid loop reads as number `(row / 3) * 3 + column / 3` is, cell for cell, the region that the placement check builds for `(row, column)` |
| Grid.VerdictInDistinctHouse | controllers/sudoku-solver.js:23-36 | in a house without repeats, the checkers' verdict (the cell holds `value`, or the house lacks it) is exactly "no other cell of the house holds `value`" |
| Grid.FillingShrinks | controllers/sudoku-solver.js:111-139 | a rebuild that keeps every filled cell and only turns blanks into other characters never adds a blank; if the blank count stays the same, the string is unchanged |
| Solver.MatchesPattern | controllers/sudoku-solver.js:12-13 | the anchored regular expression `/^[0-9.]{n}$/`: `n` characters of the class `[0-9.]`, then the end of the string |
| Solver.MatchesPatternExactly | controllers/sudoku-solver.js:12-13 | the regular expression `/^[0-9.]{n}$/` matches exactly the strings of length `n` whose every character is in `[0-9.]` |
| Solver.Digit | controllers/sudoku-solver.js:118-123 | `j.toString()` for `j` in 0..9 is the decimal digit character of `j` |
| Solver.SolverAccepts | controllers/sudoku-solver.js:120-122 | the candidate condition as it evaluates: the row check and the column check accept the digit; the region check accepts every digit, so it adds nothing |
| Solver.CandidatesUpTo | controllers/sudoku-solver.js:117-125 | `possibleVals` after trying 1..n holds exactly the digits up to `n` that the checks accept at the cell, each once, in ascending order |
| Solver.TempEntry | controllers/sudoku-solver.js:113-127 | the entry the first loop pushes for cell `i`: the one-character string of a filled cell, the candidate list of a blank |
| Solver.Settle | controllers/sudoku-solver.js:132-136 | the second loop's replacement of an entry: its one character when it has exactly one, `.` otherwise |
| Solver.PassCell | controllers/sudoku-solver.js:130-136 | a filled cell keeps its character; the new character is a blank, the old one, or a digit 1-9 |
| Solver.PassCellForced | controllers/sudoku-solver.js:117-136 | a blank gets digit `d` only when `d` is the one digit 1-9 accepted there; it stays blank only when no digit is uniquely accepted |
| Solver.Pass | controllers/sudoku-solver.js:111-139 | one pass keeps length 81 and every filled cell, never creates a blank, and writes only blanks, the old characters or digits 1-9 |
| Solver.PassKeepsFormat | controllers/sudoku-solver.js:111-140 | the string a pass hands to the recursive call passes `validate` whenever the input did |
| Solver.PassFillsForcedCells | controllers/sudoku-solver.js:111-139 | every blank the pass fills gets the one digit 1-9 that the checks accept there, and no other digit is accepted |
| Solver.PassProgress | controllers/sudoku-solver.js:107-140 | the pass output has at most as many blanks as its input, and the same number only when it is the identical string, so the recursion either shrinks the blank count or meets the guard |
| Solver.Join | controllers/sudoku-solver.js:139 | `tempSolution.join("")`: the entries concatenated in order |
| Solver.JoinSingletons | controllers/sudoku-solver.js:139 | joining 81 one-character strings gives the 81-character string of those characters, in order |
| Solver.Solution | controllers/sudoku-solver.js:93-181 | a malformed puzzle, or one equal to the stored `actualPuzzle`, gives `false` and leaves the field alone; a returned grid has length 81, no blank, passes `validate`, has distinct rows and columns and agrees with the input on every filled cell; the field only ever takes valid strings with a blank |
| Solver.SolvedGridIsReturned | controllers/sudoku-solver.js:141-179 | a valid grid without blanks comes back unchanged exactly when its rows and columns are distinct, `false` otherwise, and the field is untouched |
| Solver.SolutionIsStable | controllers/sudoku-solver.js:100-109 | solving a returned solution again, after the first call, returns it again |
| Solver.StuckPassFails | controllers/sudoku-solver.js:100-140 | a pass that fills nothing ends the run with `false`, with the puzzle left in `actualPuzzle` |
| Solver.CorrectedCandidates | controllers/sudoku-solver.js:117-125 | with the region check answering `false` on a conflict, `possibleVals` is exactly the digits 1-9 that the row, the column and the region admit, ascending |
| Solver.RegionFilter | controllers/sudoku-solver.js:120-122 | keeping the candidates the region admits gives exactly those, still ascending |
| Solver.CorrectedPass | controllers/sudoku-solver.js:111-139 | the pass with the corrected candidate test keeps length 81 and every filled cell |
| Solver.CorrectedPassFillsForcedCells | controllers/sudoku-solver.js:111-139 | a blank the corrected pass fills gets the one digit that row, column and region all admit, and that digit occurs in none of the three houses |
| Solver.SudokuSolver.constructor | controllers/sudoku-solver.js:2-4 | a new solver has `actualPuzzle == ""`, so the invariant holds |
| Solver.SudokuSolver.Validate | controllers/sudoku-solver.js:5-18 | any length other than 81 gives the length error, whatever the characters; at length 81, `true` exactly when every character is in `[0-9.]`, the invalid-characters error otherwise |
| Solver.SudokuSolver.CheckRowPlacement | controllers/sudoku-solver.js:20-37 | `true` exactly when the cell already holds `value` or `value` occurs nowhere in `puzzle[row*9 .. row*9+8]` |
| Solver.SudokuSolver.CheckColPlacement | controllers/sudoku-solver.js:39-59 | `true` exactly when the cell already holds `value` or `value` occurs nowhere among `puzzle[i*9+column]`, i in 0..8 |
| Solver.SudokuSolver.CheckRegionPlacement | controllers/sudoku-solver.js:61-91 | as written, the check returns `true` for every puzzle, cell and value |
| Solver.SudokuSolver.CheckRegionPlacementCorrected | controllers/sudoku-solver.js:82-84 | with the conflict branch returning `false`: `true` exactly when the cell already holds `value` or `value` occurs nowhere in the cell's 3x3 region |
| Solver.SudokuSolver.PossibleValues | controllers/sudoku-solver.js:117-125 | the candidate list of a cell is every digit 1-9 that passes the row, column and region checks, ascending |
| Solver.SudokuSolver.PropagationPass | controllers/sudoku-solver.js:111-139 | the two loops over `tempSolution` and the join compute exactly the pass `Pass` |
| Solver.SudokuSolver.CheckSolved | controllers/sudoku-solver.js:144-177 | `true` exactly when every row and every column holds distinct characters; regions are not checked |
| Solver.SudokuSolver.CheckSolvedCorrected | controllers/sudoku-solver.js:165-177 | with the loop over all nine regions: `true` exactly when every row, column and region holds distinct characters |
| Solver.SudokuSolver.Solve | controllers/sudoku-solver.js:93-181 | the result and the new `actualPuzzle` are those of `Solution` applied to the puzzle and the old `actualPuzzle`; the field keeps its invariant (`""` or a valid string with a blank) |
| Fixtures.ValidateFixtures | tests/1_unit-tests.js:8-23 | the valid fixture passes, the `x` fixture gets the invalid-characters error, the 80-character fixture gets the length error |
| Fixtures.RowPlacementFixtures | tests/1_unit-tests.js:25-41 | at row 0, column 1, `3` is accepted and `5` rejected by the row check |
| Fixtures.ColumnPlacementFixtures | tests/1_unit-tests.js:43-59 | at row 0, column 1, `3` is accepted and `2` rejected by the column check |
| Fixtures.RegionPlacementFixtures | tests/1_unit-tests.js:61-77 | at row 0, column 1, the corrected region check accepts `3` and rejects `6`, as the tests expect |
| Fixtures.ShiftedRowsRowsDistinct | controllers/sudoku-solver.js:144-150 | every row of the rotated grid holds distinct digits |
| Fixtures.ShiftedRowsColumnsDistinct | controllers/sudoku-solver.js:152-162 | every column of the rotated grid holds distinct digits |
| Fixtures.ShiftedRowsIsReturned | controllers/sudoku-solver.js:141-179 | the rotated grid is valid and complete, its rows and columns are distinct but its regions are not, and `solve` returns it as a solution |
| Fixtures.RegionBlindCandidates | controllers/sudoku-solver.js:117-125 | on the region-blind grid, the candidates of cell (0, 0) after trying 1..n are `["1"]`: the row holds 2..9 |
| Fixtures.RegionBlindCorrectedCandidates | controllers/sudoku-solver.js:82-84 | with the corrected region check, cell (0, 0) of the region-blind grid has no candidate, because its region holds `1` |
| Fixtures.RegionBlindGridValid | controllers/sudoku-solver.js:5-18 | the region-blind grid passes `validate` |
| Fixtures.RegionBlindPassRepeats | controllers/sudoku-solver.js:111-139 | the pass as written writes `1` at (0, 0) although (1, 1) holds `1`, so the region of the result repeats a digit |
| Fixtures.RegionBlindCorrectedBlank | controllers/sudoku-solver.js:111-139 | the corrected pass leaves cell (0, 0) of the region-blind grid blank |
| Fixtures.EmptyGridIsStuck | controllers/sudoku-solver.js:100-140 | on the all-blank grid every digit is accepted everywhere, so the first pass fills nothing and the run ends with `false` |
| Fixtures.SolveShiftedRowsTwice | controllers/sudoku-solver.js:141-179 | a fresh solver returns the rotated grid, twice in a row |
| Fixtures.SolveEmptyGridTwice | controllers/sudoku-solver.js:100-109 | a fresh solver fails on the empty grid, remembers it, and refuses it when it is submitted again |

## Left out

- Diagnostic `console.log` output is not modelled.
- JavaScript type coercion is not modelled: `value` is a character. The unit tests pass numbers, which `includes` coerces and `===` does not.
- Solver.SudokuSolver.CheckRowPlacement, CheckColPlacement, CheckRegionPlacement and CheckRegionPlacementCorrected require a puzzle of length 81 and a row and column in 0..8. Their callers validate these first; what the code does on other arguments (reads of `undefined`) is not modelled.
- The HTTP routes that use the class are not part of this model. Their coordinate parsing, missing-field and value-range errors, and the list of conflicting houses they report are not visible.
- The end-to-end unit tests that solve two concrete puzzles (tests/1_unit-tests.js:80-83 and :90-93) are not restated as lemmas: unfolding several passes of 81 x 9 checks is beyond the verifier. As written, candidates ignore the region (see the third finding). Under the model's `Pass` the first puzzle reaches a fixpoint with 34 blanks and the second with 20, so `solve` returns `false` on both; with `CorrectedPass` both reach the expected strings. Neither outcome is proved.
- Solver.SudokuSolver.Validate: a Dafny `string` is a sequence of Unicode scalar values, while JavaScript's `.length` and the regular expression (no `u` flag) count UTF-16 code units. A string of 80 characters holding one character outside the Basic Multilingual Plane has length 81 in JavaScript and gets the invalid-characters error there, but the length error in the model; lone surrogates cannot be represented at all.
- The class has no `isUnique`, so a call to it would throw. The model supplies the intended helper instead of the exception.
- Concurrent callers sharing one `actualPuzzle` are not modelled: the model is single-threaded.

## Findings

| source | as written | input that shows it | evidently intended | confidence | as-written member | corrected member |
|---|---|---|---|---|---|---|
| controllers/sudoku-solver.js:83-84 | a value already in the region at another cell is answered with `true`, so the region check accepts everything | the fixture of tests/1_unit-tests.js:71, row 0, column 1, value `6` (the region holds a `6`) | `false`, as the comment at line 82 and the unit test at tests/1_unit-tests.js:70-75 expect | high; not executed | Solver.SudokuSolver.CheckRegionPlacement (proved to return `true` always), with Fixtures.RegionPlacementFixtures | Solver.SudokuSolver.CheckRegionPlacementCorrected |
| controllers/sudoku-solver.js:165 | the region loop has the bound `reg < 0` and never runs, so, with `isUnique` supplied, a complete grid with repeated digits in a region is returned as solved | the rotated grid `123456789`, `234567891`, ..., `912345678` (Fixtures.ShiftedRows) | the loop runs over the nine regions (`reg < 9`) and rejects such a grid | high; not executed | Solver.SudokuSolver.CheckSolved, with Fixtures.ShiftedRowsIsReturned | Solver.SudokuSolver.CheckSolvedCorrected |
| controllers/sudoku-solver.js:84 | because the region check accepts everything, the candidate test at lines 120-122 consults only the row and the column, so a pass can write a digit its region already holds, and on the two end-to-end puzzles the pass gets stuck (34 and 20 blanks left), making tests/1_unit-tests.js:80-83 and :90-93 fail | `Fixtures.RegionBlindGrid`: row 0 is `.23456789`, cell (1, 1) holds `1`; the pass writes `1` at (0, 0) | candidates admitted by row, column and region, so a filled digit repeats nothing in the cell's houses | medium; not executed | Solver.Pass, with Fixtures.RegionBlindPassRepeats | Solver.CorrectedPass, with Solver.CorrectedPassFillsForcedCells and Fixtures.RegionBlindCorrectedBlank |
