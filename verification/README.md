# SudAIku puzzle engine in Dafny

A model of the puzzle engine of SudAIku, a browser Sudoku game, with proofs about it.

The model covers four parts of the game:

- **The backtracking solver** (`SudokuSolver.solve`, `isValid`, `findEmpty`,
  `hasUniqueSolution`, `hasValidCellsAfterMove`).
- **The structural check and conflict repair** (`isValidSudokuGrid`).
- **The puzzle generator** (`generate`, `fillBox`, `shuffleArray`).
- **Two helpers of the game**:
  - `parseMatrix`, which turns the text an image-recognition service returns into a 9x9 matrix;
  - the timer text of the UI controller (`getFormattedTime` and the `startTimer` tick).

Constants come from `js/config.js`:

- 9x9 grid with 3x3 boxes;
- 10 counted generation attempts;
- cells kept per difficulty: easy 35–40, normal 25–30, hard 20–25.

## How the model is built

- **Grids.** A grid that the JavaScript mutates in place is an `array2<int>`. Its
  contents at a moment are a `Board` (nine rows of nine integers, 0 = empty), obtained
  with `Grid.Snap`.
- **Pure functions.** `isValid`, `findEmpty` and `hasValidCellsAfterMove` only read the
  grid, so they are functions on `Board`.
- **The solver's specification.** The specification is the ghost function
  `SudokuSolver.Search(b)`: the list of completed grids the depth-first search reaches
  from `b`, in search order.
  - `Solve` is the recursive method of the source, and it is proved to leave the
    grid equal to `Search(b)[0]`, or unchanged when it fails.
  - `HasUniqueSolution` threads the source's `solutions` array through its inner
    `findSolutions` recursion as a value. It is proved to collect exactly the first
    `min(2, |Search(b)|)` grids.
  - Module `SearchTheory` then proves what `Search` means:
    - soundness: every reached grid is a full completion of the input, and a
      solution when the input has no conflict and holds values 0..9;
    - completeness: every solution is reached;
    - the reached grids are distinct;
    - so "exactly one grid reached" is "exactly one solution", for a grid that has
      no conflict and holds values 0..9.
- **Random numbers.** `Math.random` is the oracle `Draws.Random`: the n-th call returns
  an arbitrary value in [0, 1). Every property is proved for every sequence of draws.
- **Generator output.** `window.solution` becomes the second component of
  `Generator.Generated`. The thrown "Failed to generate" error is `None`.
- **The generator's final check always passes.** Removal leaves a puzzle whose
  search reaches exactly one grid, so solving a copy of it succeeds. The counted
  attempts of `generate` therefore never grow, and `Generate` proves that `None`
  comes only from running out of seed retries.
- **isValidSudokuGrid.** The grid is an `array?<RawRow>`. `null` stands for any
  argument that is not an array. A row that is not an array, and an entry that is
  not an integer, have constructors of their own, so the shape check can reject them.
- **Where the code and its written description differ, the model follows the code:**
  - The code does not promise that a generated puzzle keeps at most `maxCells`
    cells: a removal that would break uniqueness is undone, and the loop only
    stops when the candidate list is down to `cellsToKeep`. What is proved is "at
    least `minCells`".
  - parseMatrix's second recovery strategy (join the lines and count digits again)
    can never change the outcome: the joined lines hold exactly the digits of the
    cleaned text (`Parser.JoinedLinesKeepDigits`).
  - A line such as `12 3 ...` yields the number 12 (`Parser.MultiDigitEntry`): values
    are not range-checked by the parser.

## Model

| member | source | states |
|---|---|---|
| Config.Settings | js/config.js:11-15 | every difficulty tier is a non-empty range of kept cells inside the 81 cells |
| Draws.Random.Next | js/sudoku-generator.js:99 | a call to Math.random returns the next draw of the oracle and advances the call count by one |
| Draws.Scale | js/sudoku-generator.js:99 | `Math.floor(Math.random() * n)` is an index strictly below n for every draw |
| SudokuSolver.RowHas | js/sudoku-solver.js:39-41 | the row scan finds num exactly when some cell of the row, from the scan position on, holds num |
| SudokuSolver.ColumnHas | js/sudoku-solver.js:44-46 | the column scan finds num exactly when some cell of the column, from the scan position on, holds num |
| SudokuSolver.BoxHas | js/sudoku-solver.js:49-55 | the box scan over `boxRow + k/3, boxCol + k%3` finds num exactly when one of the remaining box cells holds it |
| SudokuSolver.BoxScanCovers | js/sudoku-solver.js:49-55 | scanning the box that starts at `row - row%3, col - col%3` finds num exactly when num occurs in the cell's 3x3 box |
| SudokuSolver.IsValid | js/sudoku-solver.js:37-58 | placing num is valid exactly when num occurs neither in the row, nor in the column, nor in the 3x3 box |
| SudokuSolver.FindEmpty | js/sudoku-solver.js:65-72 | a returned position is on the grid and holds 0 |
| SudokuSolver.FindEmptyFirst | js/sudoku-solver.js:65-72 | null exactly when no cell is 0; otherwise the first empty cell in row-major order |
| SudokuSolver.HasCandidate | js/sudoku-solver.js:117-120 | the inner loop finds a value exactly when some value from n to 9 is a valid placement |
| SudokuSolver.HasValidCellsAfterMove | js/sudoku-solver.js:111-127 | true exactly when every empty cell has at least one value 1..9 that IsValid accepts |
| SudokuSolver.ValidCellsByPosition | js/sudoku-solver.js:111-127 | checking the 81 positions in order is the same as checking every empty cell |
| SudokuSolver.Solve | js/sudoku-solver.js:12-27 | solve returns true exactly when the search reaches a grid; then the grid is left as the first reached grid, otherwise unchanged |
| SudokuSolver.SolveCandidates | js/sudoku-solver.js:16-26 | the loop over values 1..9 at the empty cell succeeds exactly when one of them leads to a solution, and leaves the first one found |
| SudokuSolver.SolveWith | js/sudoku-solver.js:17-23 | one value: placed, searched recursively, and reset to 0 when the recursion fails |
| SudokuSolver.SetCell | js/sudoku-solver.js:18 | writing one cell changes that cell and nothing else |
| SudokuSolver.CopyGrid | js/sudoku-solver.js:80 | the row-by-row copy is a fresh grid with the same contents |
| SudokuSolver.CappedShape | js/sudoku-solver.js:84-91 | collection stops after two grids: earlier results are kept, and later ones come from the new search |
| SudokuSolver.CappedAppend | js/sudoku-solver.js:84-99 | collecting from two searches in turn is collecting from their concatenation |
| SudokuSolver.CollectSolutions | js/sudoku-solver.js:83-92 | findSolutions leaves the grid as it was and appends the search's grids to `solutions` until it holds two |
| SudokuSolver.CollectCandidates | js/sudoku-solver.js:93-99 | the candidate loop appends, up to two, the grids reached by values 1..9 in order, and restores the grid |
| SudokuSolver.CollectedIsCapped | js/sudoku-solver.js:93-99 | the loop's step-by-step accumulation equals one capped collection over the whole candidate search |
| SudokuSolver.CollectWith | js/sudoku-solver.js:94-97 | one candidate: placed, searched, reset to 0; the grid is restored whatever was found |
| SudokuSolver.HasUniqueSolution | js/sudoku-solver.js:79-104 | works on a copy; true exactly when the search reaches exactly one grid |
| SearchTheory.ValidPlacementConsistent | js/sudoku-solver.js:17-18 | placing a value IsValid accepts keeps a conflict-free grid conflict-free |
| SearchTheory.SolutionValueIsValid | js/sudoku-solver.js:17 | the value a solution holds at an empty cell is accepted by IsValid, so the search does not prune it |
| SearchTheory.SearchSound | js/sudoku-solver.js:12-27 | every grid the search reaches is full and keeps the input's givens; when the input has no conflict, neither does the reached grid, and values 0..9 become 1..9 |
| SearchTheory.SearchComplete | js/sudoku-solver.js:12-27 | every solution of the puzzle is among the grids the search reaches |
| SearchTheory.PlacementComplete | js/sudoku-solver.js:16-23 | a solution of the puzzle is reached through the branch of the value it holds at the empty cell |
| SearchTheory.SearchDistinct | js/sudoku-solver.js:12-27 | the search never reaches the same grid twice |
| SearchTheory.BranchAndLaterDisjoint | js/sudoku-solver.js:16-23 | grids reached through different values at the same cell differ |
| SearchTheory.UniqueSearchMeansUniqueSolution | js/sudoku-solver.js:79-104 | for a conflict-free grid with values 0..9, the search reaches exactly one grid exactly when the puzzle has exactly one solution |
| SearchTheory.SolvedGridIsCompletion | js/sudoku-solver.js:12-27 | the grid solve leaves is a zero-free completion of the input; for a consistent input, every row, column and box is a permutation of 1..9 |
| SearchTheory.NothingFoundMeansNoSolution | js/sudoku-solver.js:12-27 | when solve returns false, the puzzle has no solution at all |
| Grid.SolvedUnitsArePermutations | js/sudoku-solver.js:37-58 | in a full conflict-free grid with values 1..9, every row, column and box is a permutation of 1..9 |
| Grid.DistinctDigitsArePermutation | js/sudoku-generator.js:82 | nine distinct values in 1..9 are a permutation of 1..9 |
| Validator.ToBoard | js/sudoku-solver.js:136-155 | a grid that passes the shape check is nine rows of nine integers in 0..9 |
| Validator.ToBoardInjective | js/sudoku-solver.js:136-155 | two well-formed grids with the same integers are the same grid |
| Validator.CheckShape | js/sudoku-solver.js:136-155 | passes exactly when the value is an array of nine arrays of nine integers in 0..9 |
| Validator.CopyRows | js/sudoku-solver.js:159 | tempGrid is a fresh copy holding the grid's integers |
| Validator.Conflicting | js/sudoku-solver.js:164-169 | a flagged cell is non-empty and, once emptied, its value still occurs in its row, column or box |
| Validator.DetectionIsConflict | js/sudoku-solver.js:161-171 | the scan's test flags exactly the non-zero cells whose value occurs again in their row, column or box |
| Validator.ConflictsInRow | js/sudoku-solver.js:162-171 | the conflicts recorded while scanning a row lie in that row, left of the scan position |
| Validator.ListedInRows | js/sudoku-solver.js:161-173 | a cell is recorded exactly when its row has been scanned and the row scan records it |
| Validator.ListedInRow | js/sudoku-solver.js:162-171 | a cell of the scanned row is recorded exactly when it is left of the scan position and flagged |
| Validator.FindConflicts | js/sudoku-solver.js:158-173 | the scan leaves tempGrid as it was and returns the conflict list of the row-major scan |
| Validator.ZeroAllCells | js/sudoku-solver.js:176-181 | applying the conflict list empties exactly the listed cells |
| Validator.ZeroConflicts | js/sudoku-solver.js:176-181 | the grid after the writes is the grid before with the listed cells emptied |
| Validator.ZeroAllIsRepair | js/sudoku-solver.js:158-181 | zeroing the recorded conflicts is the repair that empties every conflicting cell |
| Validator.RepairedZeroesConflicts | js/sudoku-solver.js:158-181 | repair empties exactly the conflicting cells of the original grid and keeps every other cell |
| Validator.RepairedHasNoConflict | js/sudoku-solver.js:158-181 | after repair no row, column or box holds a non-zero value twice |
| Validator.RepairIdempotent | js/sudoku-solver.js:158-181 | a conflict-free grid is left as it is, so repairing twice is repairing once |
| Validator.SecondRepairChangesNothing | js/sudoku-solver.js:134-184 | calling isValidSudokuGrid on a grid it already repaired changes nothing |
| Validator.IsValidSudokuGrid | js/sudoku-solver.js:134-184 | true exactly when the shape check passes; then every conflicting cell is emptied in place; a rejected array is untouched |
| Generator.ShuffleArray | js/sudoku-generator.js:97-103 | the array ends as a permutation of itself, using one draw per index from the last down to 1 |
| Generator.FillBox | js/sudoku-generator.js:81-90 | the 3x3 box at (row, col) becomes a permutation of 1..9; every other cell is unchanged |
| Generator.WriteBox | js/sudoku-generator.js:85-89 | the box read row by row is the shuffled array; every other cell is unchanged |
| Generator.SeedDiagonalBoxes | js/sudoku-generator.js:21-27 | the grid holds a permutation of 1..9 in each diagonal box and 0 elsewhere |
| Generator.DiagonalSeedConsistent | js/sudoku-generator.js:21-27 | the seeded grid has no conflict and holds values 0..9, so everything proved about the search applies to it |
| Generator.CellsToKeepInRange | js/sudoku-generator.js:39 | cellsToKeep lies between minCells and maxCells for every draw |
| Generator.Without | js/sudoku-generator.js:51 | `positions.splice(index, 1)` removes one element and keeps the order of the rest |
| Generator.WithoutDistinct | js/sudoku-generator.js:51 | the remaining positions stay distinct and no longer contain the removed one |
| Generator.TryRemove | js/sudoku-generator.js:48-56 | the cell stays empty exactly when the puzzle without it still has exactly one search result; otherwise it is restored |
| Generator.RemoveCells | js/sudoku-generator.js:40-57 | cellsToKeep distinct positions remain; they still hold the solution's values; the puzzle extends the solution and keeps exactly one search result |
| Generator.RemovalKeeps | js/sudoku-generator.js:43-56 | one removal step keeps the remaining positions filled and the puzzle a part of the solution |
| Generator.FilledAtLeast | js/sudoku-generator.js:40-57 | a puzzle holding values at distinct positions has at least that many filled cells |
| Generator.SolvesOnCopy | js/sudoku-generator.js:60-61 | the final check works on a copy and succeeds exactly when the search reaches a grid |
| Generator.Generate | js/sudoku-generator.js:12-73 | a returned puzzle comes with a solved grid whose units are permutations of 1..9; the puzzle keeps only cells of it, at least minCells of them, and it is the puzzle's only solution; the error (None) happens exactly when every allowed seed failed to solve, never through the counted attempts; the difficulty defaults to normal |
| Generator.GeneratedIsGood | js/sudoku-generator.js:35-62 | the facts removal leaves make a good puzzle: unique solution equal to the stored one |
| Parser.Extract | js/image-processor.js:278-284 | the pattern step keeps a part of the text, and the whole text when nothing matched |
| Parser.Digits | js/image-processor.js:307 | `match(/\d/g)` keeps only digits and does not grow the text |
| Parser.RemoveForeign | js/image-processor.js:288 | only digits and whitespace remain, and the digits are the input's digits in order |
| Parser.CollapseNewlines | js/image-processor.js:289 | runs of newlines are collapsed: the text does not grow and keeps its first character |
| Parser.CollapseSingle | js/image-processor.js:289 | after collapsing, no two newlines are adjacent |
| Parser.CollapseDigits | js/image-processor.js:289 | collapsing newlines keeps the digits |
| Parser.TrimStartShape | js/image-processor.js:290 | trimming the start drops exactly the leading whitespace |
| Parser.TrimEndShape | js/image-processor.js:290 | trimming the end drops exactly the trailing whitespace |
| Parser.Clean | js/image-processor.js:287-290 | the cleaned text neither starts nor ends with whitespace |
| Parser.CleanText | js/image-processor.js:287-290 | the cleaned text holds only digits and whitespace, never has two newlines in a row, and keeps every digit of the input |
| Parser.SplitLines | js/image-processor.js:296 | splitting on newlines gives at least one piece and no piece contains a newline |
| Parser.CleanLinesShape | js/image-processor.js:295-298 | every line kept is non-empty, trimmed, and made of digits and whitespace |
| Parser.SplitSpaces | js/image-processor.js:342 | `split(/\s+/)` gives at least one token |
| Parser.FirstSpace | js/image-processor.js:342 | the token boundary is the first whitespace character |
| Parser.DigitPrefix | js/image-processor.js:343 | parseInt reads the longest prefix of decimal digits |
| Parser.SplitSpacesPieces | js/image-processor.js:342 | the tokens of a line contain no whitespace, and are all digits for a cleaned line |
| Parser.ParseInt | js/image-processor.js:343 | parseInt gives NaN exactly when the token does not start with a digit |
| Parser.ParseWholeToken | js/image-processor.js:343 | a token made only of digits is read as the value of all of them |
| Parser.ParseAll | js/image-processor.js:343-344 | every number kept after dropping NaN is non-negative |
| Parser.Numbers | js/image-processor.js:342-344 | every number of a line is non-negative |
| Parser.NumbersAreRunValues | js/image-processor.js:342-344 | the numbers of a cleaned line are the values of its digit runs |
| Parser.Spaced | js/image-processor.js:313 | `join(' ')` of single digits: 2n-1 characters, starting with the first digit, holding exactly the digits |
| Parser.RebuildRows | js/image-processor.js:310-316 | with 81 digits, line i is digits 9i..9i+8 joined by spaces |
| Parser.NumbersOfSpaced | js/image-processor.js:313 | parsing a rebuilt line gives back the values of its digits |
| Parser.RebuiltRows | js/image-processor.js:310-316 | rows parsed from rebuilt lines are the 81 digits read nine at a time |
| Parser.JoinedLinesKeepDigits | js/image-processor.js:319-323 | the joined lines hold exactly the digits of the cleaned text, so the second strategy counts the same digits as the first |
| Parser.RowsFromDigits | js/image-processor.js:310-316 | a matrix read from 81 digits is nine rows of nine values in 0..9 |
| Parser.RowsFromLines | js/image-processor.js:341-364 | a matrix read from nine lines is nine rows of nine non-negative numbers |
| Parser.RecoverLines | js/image-processor.js:295-333 | nine lines are kept as they are; otherwise 81 digits are rebuilt into nine lines; otherwise the count stays wrong |
| Parser.FixLength | js/image-processor.js:347-358 | a row is cut to its first nine numbers or padded with zeros to nine |
| Parser.ParseRows | js/image-processor.js:341-364 | every row is the numbers of its line, cut or padded to nine |
| Parser.ParseMatrix | js/image-processor.js:272-381 | null exactly when neither the lines nor the digit count give nine rows; otherwise the rows are read from the lines, or from the 81 digits nine at a time |
| TimerDisplay.Field | js/ui-controller.js:79 | a field is at least two digits, with a leading '0' exactly when the value is below 10 |
| TimerDisplay.FormatTime | js/ui-controller.js:76-79 | minutes, then ':', then a two-digit seconds field; at least five characters |
| TimerDisplay.FieldValue | js/ui-controller.js:79 | a field reads back as the number it shows |
| TimerDisplay.FormatTimeRoundTrip | js/ui-controller.js:76-80 | reading the text back as minutes and seconds gives the elapsed seconds |
| TimerDisplay.FormatTimeShape | js/ui-controller.js:76-80 | the seconds are always the last two characters after ':'; the text is five characters exactly below 100 minutes |
| TimerDisplay.UIController.GetFormattedTime | js/ui-controller.js:76-80 | the returned text reads back as the elapsed seconds |
| TimerDisplay.UIController.constructor | js/ui-controller.js:7-11 | the count starts at 0 and the difficulty at normal; the timer element's text is left as the page has it |
| TimerDisplay.UIController.StartTimer | js/ui-controller.js:40-51 | the count is reset to 0 and "00:00" is shown, which is the formatted text of zero seconds |
| TimerDisplay.UIController.Tick | js/ui-controller.js:53-59 | the count goes up by one and the display shows what getFormattedTime returns |
| Strings.NatToString | js/ui-controller.js:79 | the number-to-text conversion yields at least one decimal digit |
| Strings.ValueOfNatToString | js/ui-controller.js:79 | the decimal text of a number reads back as that number |
| Strings.NatToStringLength | js/ui-controller.js:79 | the decimal text of n has at most k digits exactly when n < 10^k, and starts with '0' only for 0 |

## Left out

- Math.random's distribution, and its floating-point arithmetic beyond `Math.floor(x * n) < n`: draws are arbitrary values in [0, 1), so nothing is claimed about uniformity of the shuffle or of the removed cells.
- Generator.ShuffleArray: states that the result is a permutation and how many draws it uses, not which permutation the draws select.
- Generator.Generate: `seedRetries` bounds the number of diagonal seeds that fail to solve; the source retries forever, because such a `continue` does not count an attempt. Running out of retries returns None. The model does not prove that every diagonal seed can be completed.
- Generator.Generate: the try/catch around an attempt is left out. Nothing in the modelled attempt can throw, so the catch's `attempts++` cannot occur. The final thrown error is None.
- Generator.Generate: the difficulty is the enumeration `Difficulty` instead of a string key. The TypeError that an unknown key raises when the settings are read, outside the try, is not modelled.
- Generator.Generate: the number of kept cells is proved to be at least `minCells`, not at most `maxCells`. The code keeps a cell whose removal would break uniqueness, so it does not guarantee the upper bound.
- getDailyPuzzle, the seeded daily puzzle, is not part of this model.
- Parser.ParseMatrix: the regular expression `/(\d[\s\d]{16,26}\d[\s\n]*){8,9}/` is not interpreted. Whether it matched, and the span it matched, are an input (`span`).
- Parser.ParseMatrix: console logging is dropped. The final shape check (every row has nine numbers) always passes after fixing, so the model omits it. The catch branch returns null, but nothing in the modelled steps can throw.
- Parser.ParseInt: tokens are decimal digit runs after cleaning, so signs, `0x` prefixes and exponents never reach parseInt and are not modelled.
- Parser.ParseInt: returns the exact value of the digit run. JavaScript's parseInt returns a double, so runs above 2^53 are rounded and runs of about 309 digits or more give Infinity; that precision loss is not modelled.
- SudokuSolver.HasUniqueSolution: `|Search| == 1` means "exactly one solution" only for a grid with no conflict and values 0..9 (`SearchTheory.UniqueSearchMeansUniqueSolution`). On other grids the result is still tied to the search, but not to solutions.
- Validator.IsValidSudokuGrid: entries that are not integers (strings, fractions, undefined) are the single constructor `NonInteger`; their JavaScript values are not modelled.
- TimerDisplay.UIController.StartTimer: `clearInterval`/`setInterval`, the one-second schedule and the DOM element are left out. `Tick` is the interval callback, and `display` stands for the element's text.
- TimerDisplay.UIController.constructor: the page's initial timer text is a parameter (`shown`); the page markup is not part of this model. The display matches the count only once `StartTimer` has run, as in the source.
- The rest of the application (the UI, the grid manager, the image upload and the call to the recognition service, environment loading) is not part of this model.
