# Sudoku engine with constraint sets, modelled in Dafny

This project models the engine of `SudokuSolver.java`. The board is a 9×9 grid of `int`s, and 0 marks an empty cell. Beside the board the engine keeps three arrays of digit sets: `rowSets`, `columnSets` and `boxSets`.

Every placement adds the digit to the cell's three sets, and every deletion removes it. Everything that reads the sets (`findAnswer`, `mrvHelper`, `findNextZeroMRV`) is correct only while each set holds exactly the nonzero digits of its row, column or box. In the model that invariant is the predicate `Constraints.Tracks(b, t)`.

On top of the sets sit two explicit-stack backtracking searches:

- `solveBoard` fills cells in row-major order with the smallest digit the sets allow.
- `countUniqueSolutions` picks cells by the minimum-remaining-values rule, counts full boards, and stops at 2.

Two validators bracket the searches:

- `checkIfValidStartBoard` rejects a malformed or contradictory puzzle and rebuilds the sets.
- `checkIfValidSolution` accepts a finished board.

Modules follow the source's structure:

- `Board`: geometry, index helpers and the Sudoku rules as predicates.
- `Constraints`: the sets and the operations on them (`findAnswer`, `mrvHelper`, `deleteNumberFromSets`).
- `Scan`: the two cell selectors.
- `Search`: the shared search invariant, the termination measure and the "frontier" argument.
- `Solve`: `solveBoard`.
- `Count`: `countUniqueSolutions`.
- `Validate`: the two validators.
- `Units`: the pigeonhole counting behind `checkIfValidSolution`.
- `Answers`: `findRandomAnswer`.
- `Puzzle`: `solvePuzzle`.
- `Generate`: one pass of `generateRandomPuzzle`'s loop.
- `Samples`: two solution-count samples from the source's tests: the empty board and the first puzzle expected to have no solution.

The source's `throw` and `null` become `Result` and `Option` values. The sets are passed in and returned explicitly instead of being fields. There are two exceptions, both for the same reason: every public entry point rebuilds the sets from the board before reading them. `Puzzle.SolvePuzzle` drops the sets that `solveBoard` and `checkIfValidSolution` leave behind, which the source keeps in its fields after `solvePuzzle` returns. A generator pass drops the sets it leaves behind, which the next pass's revalidation overwrites. A random draw is a parameter.

## How the searches are proved

**Termination.** The stack of digits, followed by `startingNumber`, strictly decreases in a lexicographic order on every loop iteration. `Search.Rank` encodes that order as a number in base 11. The exponent is bounded by the number of empty cells of the start board.

**Exhaustiveness.** Order every solution of the start board by its digits at the stacked cells, then at the current cell. The loop invariant says that every solution is still *ahead* of the search position in that order (`Search.Ahead`), or, for the counter, has already been counted. When the stack empties, no solution can be ahead, so every solution was found.

## Model

| member | source | states |
|---|---|---|
| Board.BoxIndex | SudokuSolver.java:41-43 | for an on-board cell the box index lies in 0..8 (Java's truncating division is modelled) |
| Board.SameBoxIff | SudokuSolver.java:41-43 | two on-board cells get the same box index exactly when `row/3` and `col/3` both agree |
| Board.BoxIndexIff | SudokuSolver.java:41-43 | cell `(r, c)` lies in box `k` exactly when `r/3 == k/3` and `c/3 == k%3` |
| Board.FlattenIndex | SudokuSolver.java:53-55 | an on-board cell gets a row-major position in 0..80 |
| Board.DeepIndex | SudokuSolver.java:46-50 | the pair is the quotient and remainder of the position by 9, so the position is `row * 9 + col` with `col` in 0..8, and a position in 0..80 names an on-board cell |
| Board.IndexRoundTrip | SudokuSolver.java:46-55 | `getDeepIndex(getFlattenIndex(r, c)) == (r, c)` on the board, and flattening a deep index in 0..80 gives it back |
| Board.EmptyCellsFill | SudokuSolver.java:208 | writing a digit into an empty cell removes exactly that cell from the empty cells |
| Board.EmptyCellsNone | SudokuSolver.java:195 | a board is complete exactly when it has no empty cell |
| Constraints.EmptySets | SudokuSolver.java:66-73 | `emptyHashSets` leaves all 27 sets empty |
| Constraints.PlaceNumber | SudokuSolver.java:208-212 | the placed cell holds the digit, no other cell changes, and the digit joins exactly the cell's three sets |
| Constraints.PlaceKeepsInvariant | SudokuSolver.java:208-212 | placing a legal digit in an empty cell keeps the sets tracking the board, the board free of repeats and every value in range |
| Constraints.DeleteNumberFromSets | SudokuSolver.java:170-185 | a positive value leaves exactly the cell's three sets and the cell becomes 0; with a value of 0 or less nothing changes; no other cell changes |
| Constraints.DeleteKeepsInvariant | SudokuSolver.java:170-185 | on a repeat-free board, deleting keeps the sets tracking the board |
| Constraints.PlaceThenDelete | SudokuSolver.java:170-185 | deleting a digit just placed in an empty cell restores the original board and sets |
| Constraints.LegalIff | SudokuSolver.java:76-86 | with tracked sets, a digit passes the three `contains` tests exactly when no peer of the cell holds it |
| Constraints.TrackerUnique | SudokuSolver.java:58-73 | the sets that track a board are determined by the board |
| Constraints.ZeroNeverTracked | SudokuSolver.java:265-273 | 0 is never put into a set, so it is never reported as a duplicate |
| Constraints.FindAnswer | SudokuSolver.java:76-86 | the result is the smallest digit in `(startNum, 9]` absent from all three sets, or 0 exactly when there is none |
| Constraints.MrvHelper | SudokuSolver.java:159-167 | the count equals the number of digits 1..9 absent from all three sets |
| Constraints.NoCandidatesIff | SudokuSolver.java:159-167 | `mrvHelper` is 0 exactly when `findAnswer` from 0 finds nothing |
| Scan.FindNextZero | SudokuSolver.java:89-104 | the result is the first empty cell at or after `(startRow, startCol)` in row-major order; `None` exactly when there is none |
| Scan.MrvStep | SudokuSolver.java:140-151 | one cell of the scan keeps the running minimum, and it is replaced only on a strictly smaller count |
| Scan.MrvDone | SudokuSolver.java:136-156 | a scan of all 81 cells with no dead end ends with the rule's pick |
| Scan.FindNextZeroMRV | SudokuSolver.java:136-156 | `None` exactly when the board is full; otherwise an empty cell whose count is strictly below that of every earlier empty cell, and, unless it has no candidate, no larger than any empty cell's count. So a dead end comes first, and otherwise the first cell of minimal count |
| Search.RankPush | SudokuSolver.java:206-218 | pushing a new digit lowers the termination measure |
| Search.RankPop | SudokuSolver.java:228-234 | popping back to the previous cell lowers the termination measure |
| Search.RankBump | SudokuSolver.java:413-418 | resuming the same cell above a larger digit lowers the termination measure |
| Search.InvInit | SudokuSolver.java:188-196 | a valid start board with its sets satisfies the search invariant with an empty stack |
| Search.InvPush | SudokuSolver.java:206-214 | placing and pushing a legal digit keeps the search invariant |
| Search.InvPop | SudokuSolver.java:228-234 | popping and deleting the top cell keeps the search invariant, and the popped cell held its stacked digit |
| Search.InvEmptyStack | SudokuSolver.java:235-238 | with an empty stack the board is the start board |
| Search.InvComplete | SudokuSolver.java:200-217 | a full board reached by the search is a solution of the start board |
| Search.AnswerNotPast | SudokuSolver.java:76-86 | `findAnswer` never skips past the digit a solution on the current path puts in the cell |
| Search.FrontierDeadEnd | SudokuSolver.java:220-224 | when `findAnswer` fails, every solution still ahead is beyond the current stack |
| Search.FrontierPush | SudokuSolver.java:206-218 | after a push, every solution that was ahead is still ahead |
| Search.FrontierPop | SudokuSolver.java:228-234 | after a pop, every solution that was beyond the stack is ahead of the popped position |
| Search.FrontierSolved | SudokuSolver.java:406-418 | when a placement fills the board, every other solution that was ahead is ahead of the resumed position |
| Search.DoneNotAhead | SudokuSolver.java:406-418 | a board just counted is not ahead of the resumed position, so it is never counted twice |
| Solve.SolvePush | SudokuSolver.java:206-218 | one placing step of `solveBoard` keeps its loop invariant and lowers the measure |
| Solve.SolveBacktrack | SudokuSolver.java:219-239 | one backtracking step keeps the loop invariant and lowers the measure; with an empty stack, the start board has no solution |
| Solve.SolveBoard | SudokuSolver.java:188-241 | the result keeps every clue, stays repeat-free with values in range, and keeps its sets tracking it. It is full exactly when the start board has a solution, and then it is a solution that passes `checkIfValidSolution`; otherwise board and sets are returned unchanged |
| Count.CountInit | SudokuSolver.java:380-386 | before the loop, every solution is ahead of the first cell |
| Count.CountPush | SudokuSolver.java:390-404 | a placing step keeps the counting invariant and lowers the measure |
| Count.CountSolved | SudokuSolver.java:406-418 | on a full board: it is a new solution, the pop and delete restore the previous board and sets, and the invariant holds with the board counted |
| Count.CountBacktrack | SudokuSolver.java:421-439 | a backtracking step keeps the invariant; with an empty stack, the solutions are exactly the counted boards |
| Count.CountPass | SudokuSolver.java:386-440 | one pass of the loop either keeps the counting invariant at the next cell and lowers the measure, or stops with the final answer: on the second full board (two distinct solutions, that board in place) or with the stack empty (every solution counted, board and sets as they started) |
| Count.SeveralExcludes | SudokuSolver.java:406-411 | two distinct solutions rule out both "none" and "exactly one" |
| Count.TwoFound | SudokuSolver.java:406-411 | two counted boards make several solutions |
| Count.CountExhausted | SudokuSolver.java:436-441 | at the end of the search, a count of 0 means no solution and a count of 1 means exactly one |
| Count.CountUniqueSolutions | SudokuSolver.java:375-442 | the count is 0, 1 or 2. A board with no empty cell counts 0. Otherwise: 0 exactly when there is no solution, 1 exactly when the solution is unique, and 2 only with two distinct solutions, returned on the second full board with that board still in place. For counts 0 and 1, board and sets come back unchanged |
| Validate.LegalBeforeIff | SudokuSolver.java:264-266 | while the sets track the cells scanned so far, a nonzero value is in one of the cell's sets exactly when an earlier peer holds it |
| Validate.NoRepeatIff | SudokuSolver.java:264-266 | over the whole board, "no value repeats an earlier peer" is "no repeats" |
| Validate.PrefixOkIff | SudokuSolver.java:244-276 | a fully scanned good prefix is exactly a valid start board |
| Validate.MalformedRefutes | SudokuSolver.java:254-263 | a row of the wrong length, or a value outside 0..9, rules out a valid start |
| Validate.DuplicateRefutes | SudokuSolver.java:264-266 | a value found in one of its sets is a nonzero repeat of an earlier peer and rules out a valid start |
| Validate.StartStep | SudokuSolver.java:268-273 | a value in range that is not a repeat extends the good prefix and keeps the sets tracking it |
| Validate.CellStep | SudokuSolver.java:259-273 | scanning one cell either reports a value out of range or a repeat of an earlier peer, each ruling out a valid start, or extends the good prefix and keeps the sets tracking it |
| Validate.CheckRow | SudokuSolver.java:258-274 | scanning a row of length 9 either extends the good prefix over the whole row with the sets tracking it, or reports the first bad cell of the row, which rules out a valid start |
| Validate.ErrorRefutes | SudokuSolver.java:246-266 | every problem the start-board check can report rules out a valid start |
| Validate.CheckIfValidStartBoard | SudokuSolver.java:244-276 | succeeds exactly on well-shaped, in-range, repeat-free boards, and then returns sets that track the board. Otherwise it reports the first problem in row-major order (`Validate.Explains`): the row count (exactly when there are not 9 rows), a row's length, a value outside 0..9, or a value an earlier peer already holds, with every cell before it well-formed and repeat-free |
| Validate.RepeatRefutes | SudokuSolver.java:292-296 | a filled value already in one of its sets repeats an earlier peer, so the board has a repeat |
| Validate.SolutionStep | SudokuSolver.java:283-301 | one cell of the first pass: a filled value in none of its sets extends the filled, repeat-free prefix and the sets keep tracking it |
| Validate.SetsFullIff | SudokuSolver.java:304-320 | with tracked sets, "every set holds 1..9" is "every unit holds every digit" |
| Validate.CheckIfValidSolution | SudokuSolver.java:279-323 | true exactly when the board is full, has no repeats and every unit holds 1..9. Equivalently, exactly when the board is solved. The sets it rebuilds are returned: after `true` they track the whole board, after `false` some row-major prefix of it |
| Units.SolvedIffValidSolution | SudokuSolver.java:279-323 | what `checkIfValidSolution` accepts is exactly a solved board; the pigeonhole argument on nine cells per unit forces every value into 1..9 |
| Units.SolvedUnitFull | SudokuSolver.java:304-320 | in a solved board, every row, column and box holds all nine digits |
| Units.SolvedAllDigits | SudokuSolver.java:304-320 | a solved board passes the final pass: every unit holds every digit |
| Answers.PossibleAnswers | SudokuSolver.java:125-130 | the list holds exactly the open digits, in increasing order, and its length is `mrvHelper`'s count |
| Answers.PossibleFromLength | SudokuSolver.java:159-167 | the list built from `from` is as long as the open-digit count from `from` |
| Answers.FindRandomAnswer | SudokuSolver.java:121-133 | 0 exactly when the cell has no open digit; otherwise an open digit |
| Answers.RandomAnswerCovers | SudokuSolver.java:121-133 | every open digit is returned for some draw |
| Answers.RandomAnswerFirst | SudokuSolver.java:121-133 | when the cell has an open digit, draw 0 gives the same digit as `findAnswer` from 0: the smallest open one |
| Puzzle.SolvePuzzle | SudokuSolver.java:28-38 | a board is rejected exactly when it is not a valid start, and then with the first problem in row-major order (`Validate.Explains`). It is reported unsolvable exactly when it is valid but has no solution, and otherwise the reported board solves it |
| Generate.PlaceAndCount | SudokuSolver.java:469-495 | an open digit placed in an empty cell of a valid start board is kept when the counter reports several solutions. The loop ends on it when exactly one remains. It is taken back, leaving the board unchanged, when none remains or the board became full; a full board is always taken back, because the counter reports 0 for it. The board stays a valid start board in every case (`Generate.PassEffect`) |
| Generate.PassDetermined | SudokuSolver.java:480-495 | the outcome is decided by the placed board: two passes that placed the same digit end the same way and leave the same board, so `Generate.PassEffect` allows only the branch the count selects |
| Generate.GeneratePass | SudokuSolver.java:460-495 | one pass keeps the board a valid start board. The drawn cell gets no digit exactly when it has no open digit. Otherwise the digit is the one `findRandomAnswer` returns for the draw, and the pass ends as `Generate.PlaceAndCount` states |
| Samples.BlankSeveral | SudokuSolver.java:1008-1018 | the empty board has two distinct solutions |
| Samples.CountEmptyBoard | SudokuSolver.java:1008-1018 | the source's empty-board sample: validated and counted, it gives 2 |
| Samples.ContradictoryValid | SudokuSolver.java:953-963 | the first sample expected to count 0 is a valid start board with empty cells, so the start-board check accepts it |
| Samples.ContradictoryNoSolution | SudokuSolver.java:953-963 | that sample has no solution: digit 2 has no legal cell in row 5 |
| Samples.CountContradictory | SudokuSolver.java:952-963 | that sample, validated and counted as at SudokuSolver.java:1022-1024, gives 0 |

## Left out

- Console I/O (`printSudokuBoard`, `createUserSudokuPuzzle`, the printing in `solvePuzzle`): only its outcome is modelled.
- `parseCustomBoard`: `Integer.parseInt` is outside the model.
- `findRandomCell`, `shuffleBoardHelper` and `java.util.Random`: randomness becomes parameters.
- `generateRandomPuzzle`: only one pass of its loop is modelled (`Generate.GeneratePass`). The `while (true)` loop ends only when the random draws happen to reach a puzzle with exactly one solution. It has no termination measure, and the model has no unbounded loop. Every pass keeps the board a valid start board, and the loop starts from the empty board (`Samples.BlankTracked`). So the board is a valid start board before and after every modelled pass, whatever the draws. The retry of a filled cell, which is not modelled, keeps it one too (see "Notes on the source").
- The generator's pool of undrawn cells, its stack of failed cells and the refilling of the pool are left out: they only decide which cell the next pass draws, and that cell is a parameter.
- Generate.GeneratePass: requires the drawn cell to be empty. Once the pool runs out, the source does not redraw `rowCol`, so the next pass retries the last drawn cell even if a clue was kept there. Such a pass overwrites the clue. The sets still hold the old digit while the solutions are counted. That pass is not modelled.
- `deepCopyBoard` and `System.arraycopy`: boards are values.
- The test drivers: two expected solution counts are restated and proved. The empty board counts 2 (`Samples.CountEmptyBoard`). The first count-0 puzzle counts 0 (`Samples.CountContradictory`), because digit 2 has no legal cell in its row 5.
- The other expected counts are not proved. The second count-0 puzzle (SudokuSolver.java:964-974) has no contradiction within a single row, column or box. The count-1 and count-2 puzzles would need their solutions written out and, for a count of 1, every other candidate ruled out. Each of these is a search over the board.
- Exception message text: the `Validate.BoardError` variants carry the numbers the messages report. The partly filled sets left behind when `checkIfValidStartBoard` throws are not modelled; a failure returns no sets.
- Solve.SolveBoard: `solveBoard` guards its dead-end delete with `board[row][col] != 0`. The model deletes unconditionally. Both are the same operation here: the cell is provably empty at that point, and `deleteNumberFromSets` on an empty cell changes nothing (`Solve.SolveBacktrack` states this).
- Solve.SolveBoard, Count.CountUniqueSolutions: both require the sets to track the start board, as the source arranges by calling `checkIfValidStartBoard` first. Called with other sets, the source's behaviour is not modelled.
- Validate.CheckIfValidSolution: requires a 9×9 board. Every caller passes one: `solvePuzzle` (SudokuSolver.java:32) and the generator test (SudokuSolver.java:1039) both hand over a board that `solveBoard` filled after the start-board check accepted it. The source never checks the shape and reads only `board[0..8][0..8]`. A board with extra rows, or longer rows, whose top-left 9×9 is solved returns true. A short board returns false without an exception when an earlier cell is 0 or a repeat. Those shapes are not modelled.
- Answers.FindRandomAnswer: requires the draw to lie in `0..size-1`, as `rand.nextInt(size)` guarantees.
- Java's `int` is 32-bit, but every value the engine computes is a digit or a cell index, so no wrap-around arises. Board values are unbounded in the model, and out-of-range values are rejected as in the source.

## Notes on the source

- `countUniqueSolutions` on a board without empty cells returns 0, not 1. `findNextZeroMRV` returns `null` at once, so the loop never runs. The model follows the code: `Count.CountUniqueSolutions` promises its iff's only for boards with an empty cell.
- A generator pass that retries a filled cell (the stale `rowCol` after the pool runs out, SudokuSolver.java:495-505) always counts 0 when it places a digit. Say the cell holds the kept clue d. Revalidation puts d in the cell's row, column and box sets, and the new digit replaces d on the board but not in the sets. The counter then never places d in that row. With only eight digits left, it can never fill the row, so it never reaches a full board. The pass then takes the new digit back with `deleteNumberFromSets`, which zeroes the cell, so the kept clue d is lost. The board stays a valid start board. The pass cannot end the loop, since the count is never 1. This follows from reading the code; it was not executed.
- The MRV tie-break is the first cell in row-major order, because the comparison is a strict `<`. A cell with no candidate is returned the moment the scan reaches it.
