# SudokuSolver puzzle engine in Dafny

This project models `SudokuPuzzle`, the puzzle-state engine of the
SudokuSolver repository, and proves properties of that model. The engine has
two parts.

- **Grid state.** A 9x9 grid of cells, where 0 means empty. There are three
  occupancy tables, one for rows, one for columns and one for the 3x3 boxes.
  Each table has nine entries of ten slots: slot 0 counts the unit's filled
  cells, and slot d flags digit d as present in the unit. A counter holds the
  number of filled cells, and a map stores a candidate set per examined cell.
  `setCellValue` keeps all of these in step.
- **Deduction passes.**
  - The candidate pass (`fillCellPossibilities` and
    `fillAllCellPossibilities`) gives each empty cell the digits not yet in
    its row, column or box. A cell with exactly one candidate is filled at
    once (a naked single), and an empty cell with no candidate ends the pass
    with -1.
  - The unit sweeps (`checkFillableRow/Col/Box` and
    `checkForFillableRows/Cols/Boxs`) handle hidden singles. For each digit
    missing from a unit, they write it when exactly one empty cell of the
    unit holds it among its stored candidates.

The project has three modules:

- `Grid` (`grid.dfy`) holds the board as a value, the 27 units, the box
  numbering, and the documented meaning of an occupancy table (`Agrees`,
  `Consistent`).
- `Deduction` (`deduction.dfy`) states the rules as functions on boards.
  `Candidates` gives one cell's candidate set. `FillPass` is the candidate
  pass after its first k cells in row-major order. `Step`, `SweepUnit` and
  `SweepKind` are the hidden-single rule for one digit, for one unit, and for
  all units of one kind. The module proves what these rules guarantee.
- `Puzzle` (`puzzle.dfy`) holds the class `SudokuPuzzle`. Its `array2<int>`
  fields stand for the Java `int[][]` fields, and `possibilities` is a
  `map<(int, int), set<int>>`. Ghost fields mirror the arrays as values. The
  class invariant `Valid()` says that the tables and the counter describe the
  cells as the field comments document. Every method is proved against the
  `Grid` and `Deduction` functions.

The Java exceptions become results. `getCellValue` and `fillCellPossibilities`
return `Result` (`Ok(value)` or `Err(IndexOutOfRange)`). `setCellValue` and
`checkFillableRow/Col/Box` return `Outcome` (`Done` or `Fail(...)`). As in the
source, `setCellValue` checks the value before the address.

The sweeps read each empty cell's stored candidate set. The Java code assumes
the candidate pass ran first; otherwise the map lookup yields `null`. The
model states this as the precondition `StoredIn` for one unit, or `Stored`
for all units. `FillPassStoresAll` proves that a full pass that does not
abort establishes it.

Once the tables are consistent with the board, the board alone determines
them. So `Valid()` together with `board == ...` in a method's postcondition
describes the whole new state.

## Model

| member | source | states |
|---|---|---|
| Puzzle.SudokuPuzzle.constructor | SudokuSolver/src/sudokusolver/SudokuPuzzle.java:96-117 | a new puzzle has every cell empty, all table entries zero, no stored sets and counter 0, and the invariant holds |
| Grid.EmptyBoard | SudokuSolver/src/sudokusolver/SudokuPuzzle.java:102 | the initial grid is a 9x9 board whose every cell is empty |
| Grid.ZeroTable | SudokuSolver/src/sudokusolver/SudokuPuzzle.java:105-107 | an initial occupancy table has nine entries of ten slots, every slot zero |
| Grid.EmptyConsistent | SudokuSolver/src/sudokusolver/SudokuPuzzle.java:51-66 | the all-zero tables and counter 0 describe the empty grid as the field comments document |
| Grid.ZeroTableAgrees | SudokuSolver/src/sudokusolver/SudokuPuzzle.java:105-107 | an all-zero table agrees with any board whose cells are all empty |
| Grid.TableEntry | SudokuSolver/src/sudokusolver/SudokuPuzzle.java:51-66 | in consistent tables, slot 0 of a unit is its number of filled cells and slot d is nonzero exactly when d is in the unit |
| Puzzle.SudokuPuzzle.GetNumFilledCells | SudokuSolver/src/sudokusolver/SudokuPuzzle.java:132-134 | returns the counter field, on the bare shape invariant; when the full invariant holds, that is the number of filled cells of the whole grid |
| Puzzle.SudokuPuzzle.GetCellValue | SudokuSolver/src/sudokusolver/SudokuPuzzle.java:149-154 | returns the cell's value for an address on the grid, and an index error for any other address |
| Puzzle.SudokuPuzzle.SetCellValue | SudokuSolver/src/sudokusolver/SudokuPuzzle.java:170-198 | a value outside 0..9 is an InvalidValue error, and an address off the grid is an index error; either error changes nothing; otherwise exactly that cell takes the value; a nonzero value adds one to the counter and to slot 0 of the cell's row, column and box, and flags the value in those three units; a zero value leaves the counter and tables alone; the invariant survives every error and every write into an empty cell |
| Puzzle.SudokuPuzzle.Mark | SudokuSolver/src/sudokusolver/SudokuPuzzle.java:182-197 | one more filled cell in the counter, and a count plus a presence flag in the entries of the row, the column and the box of the cell; the cells are untouched |
| Grid.Write | SudokuSolver/src/sudokusolver/SudokuPuzzle.java:178 | the written cell reads back the value and every other cell keeps its value |
| Grid.UnitCountWrite | SudokuSolver/src/sudokusolver/SudokuPuzzle.java:189-191 | filling an empty cell adds one to the filled count of each unit holding it and to no other unit |
| Grid.UnitPresentWrite | SudokuSolver/src/sudokusolver/SudokuPuzzle.java:194-196 | filling an empty cell with v makes v present in the cell's units and changes no other presence flag |
| Grid.FilledCountWrite | SudokuSolver/src/sudokusolver/SudokuPuzzle.java:189-191 | filling an empty cell adds one to the filled count of any list of distinct cells holding it, and nothing otherwise |
| Grid.PresentWrite | SudokuSolver/src/sudokusolver/SudokuPuzzle.java:194-196 | after filling an empty cell with v, a digit is present in a list of cells exactly when it was before or it is v and the cell is in the list |
| Grid.TotalFilledWrite | SudokuSolver/src/sudokusolver/SudokuPuzzle.java:184 | filling an empty cell adds exactly one to the number of filled cells of the grid |
| Grid.Record | SudokuSolver/src/sudokusolver/SudokuPuzzle.java:189-196 | recording a write of v in unit u adds one to slot 0 and sets slot v of entry u; every other slot and every other entry keeps its value |
| Grid.Agrees | SudokuSolver/src/sudokusolver/SudokuPuzzle.java:51-66 | defines the documented meaning of a table: slot 0 of each unit's entry is its number of filled cells, and slot d is a 0/1 flag that is 1 exactly when d is in the unit |
| Grid.Consistent | SudokuSolver/src/sudokusolver/SudokuPuzzle.java:51-94 | the three tables agree with the board and the counter is the number of filled cells; a consistent counter lies in 0..81 |
| Grid.RecordAgrees | SudokuSolver/src/sudokusolver/SudokuPuzzle.java:189-196 | recording a write into an empty cell in its unit's entry keeps a table in agreement with the board |
| Grid.ConsistentWrite | SudokuSolver/src/sudokusolver/SudokuPuzzle.java:181-197 | a digit written into an empty cell, recorded in the cell's row, column and box entries and counted, keeps all three tables and the counter consistent |
| Grid.RecordOnFilledBreaksCount | SudokuSolver/src/sudokusolver/SudokuPuzzle.java:178-197 | recording a nonzero write into a cell that is already filled always breaks the table's count for that cell's unit |
| Puzzle.SudokuPuzzle.CoordinateToBoxIdx | SudokuSolver/src/sudokusolver/SudokuPuzzle.java:213-220 | an address off the grid is an index error; otherwise the result is a box 0..8 whose 3x3 block contains the cell, and it is the grid's box numbering `BoxIndex` used by the tables and units |
| Grid.BoxIndex | SudokuSolver/src/sudokusolver/SudokuPuzzle.java:219 | the box index is in 0..8, and the cell lies in the block that starts at the box's first row and column |
| Grid.BoxIndexIff | SudokuSolver/src/sudokusolver/SudokuPuzzle.java:67-80 | a cell has box index b exactly when it lies in the 3x3 block of box b, with boxes numbered row by row |
| Grid.BoxIndexOnBlock | SudokuSolver/src/sudokusolver/SudokuPuzzle.java:217-219 | two cells share a box index exactly when they are in the same third of the rows and the same third of the columns |
| Grid.BoxCellAt | SudokuSolver/src/sudokusolver/SudokuPuzzle.java:524-527 | the box scan, which starts at row (b/3)*3 and column (b%3)*3, visits the cells of box b in order |
| Grid.UnitMembership | SudokuSolver/src/sudokusolver/SudokuPuzzle.java:524-527 | the nine cells scanned for a row, column or box are exactly the cells whose row, column or box index is that unit |
| Grid.UnitDistinct | SudokuSolver/src/sudokusolver/SudokuPuzzle.java:369 | the nine cells of a unit are distinct |
| Grid.AllCellsAt | SudokuSolver/src/sudokusolver/SudokuPuzzle.java:243-244 | the row-major visiting order reaches cell (r, c) at step 9r + c |
| Deduction.Digits | SudokuSolver/src/sudokusolver/SudokuPuzzle.java:284 | the initial candidate set holds exactly the nine digits 1..9 |
| Deduction.Candidates | SudokuSolver/src/sudokusolver/SudokuPuzzle.java:284-294 | defines a cell's candidate set: the digits 1..9 that none of its row, column and box holds |
| Deduction.PartialCandidatesStep | SudokuSolver/src/sudokusolver/SudokuPuzzle.java:290-294 | checking digit i removes i exactly when a unit of the cell holds it; the checks start from all nine digits and end at the candidate set |
| Deduction.TablesShowBlocked | SudokuSolver/src/sudokusolver/SudokuPuzzle.java:291-293 | in consistent tables, a digit is flagged in a cell's row, column or box exactly when one of those units holds it |
| Puzzle.SudokuPuzzle.ComputeCandidates | SudokuSolver/src/sudokusolver/SudokuPuzzle.java:284-294 | the set left after the removals is the cell's candidate set, and rt is its size, because rt only drops when a removal succeeds |
| Deduction.Single | SudokuSolver/src/sudokusolver/SudokuPuzzle.java:297 | the first element of a one-element set is its only element |
| Deduction.Forced | SudokuSolver/src/sudokusolver/SudokuPuzzle.java:296-297 | a cell with one candidate gets a digit 1..9, and that digit is its only candidate |
| Puzzle.SudokuPuzzle.FillCellPossibilities | SudokuSolver/src/sudokusolver/SudokuPuzzle.java:279-309 | an address off the grid is an index error that changes nothing; otherwise the method stores the candidate set under the cell and returns its size; a single candidate is written into the cell and counted; the invariant holds whenever the cell was empty |
| Deduction.BlockedByKind | SudokuSolver/src/sudokusolver/SudokuPuzzle.java:291-293 | a digit is excluded exactly when some unit of the cell, a row, a column or a box, holds it |
| Deduction.CandidateIffNoConflict | SudokuSolver/src/sudokusolver/SudokuPuzzle.java:284-294 | on a board without clashes, a digit is a candidate of an empty cell exactly when writing it there creates no clash |
| Deduction.ExtendedHasNoConflicts | SudokuSolver/src/sudokusolver/SudokuPuzzle.java:289 | a board that some solution extends has no clash |
| Deduction.SolutionNotInUnit | SudokuSolver/src/sudokusolver/SudokuPuzzle.java:291-293 | a solution's digit for an empty cell is not yet in any unit of that cell |
| Deduction.SolutionIsCandidate | SudokuSolver/src/sudokusolver/SudokuPuzzle.java:290-294 | a solution's digit for an empty cell always survives the removals |
| Deduction.FillCell | SudokuSolver/src/sudokusolver/SudokuPuzzle.java:284-308 | defines one examined cell: the candidate set is stored under the cell, a single candidate is written, and the tally goes up on one candidate and becomes -1 on none |
| Deduction.FillCellEffect | SudokuSolver/src/sudokusolver/SudokuPuzzle.java:284-308 | examining a cell stores exactly its candidate set; a single candidate is the digit now in the cell, and with any other number the board is unchanged; no other cell and no other stored set changes; the pass aborts exactly when the set is empty |
| Deduction.FillPass | SudokuSolver/src/sudokusolver/SudokuPuzzle.java:240-260 | the pass keeps a 9x9 board of digits, and its tally is never below -1 |
| Deduction.FillPassNext | SudokuSolver/src/sudokusolver/SudokuPuzzle.java:244-256 | while not aborted, the next cell in row-major order is skipped when filled and examined when empty |
| Deduction.FillPassAborted | SudokuSolver/src/sudokusolver/SudokuPuzzle.java:251-252 | once a cell had no candidate, the rest of the pass changes nothing |
| Deduction.FillPassCounts | SudokuSolver/src/sudokusolver/SudokuPuzzle.java:253-254 | a pass that did not abort only filled empty cells, and its tally is exactly the number of cells it filled |
| Deduction.FillPassStoresPrefix | SudokuSolver/src/sudokusolver/SudokuPuzzle.java:306 | every cell the pass has reached and left empty has a stored candidate set |
| Deduction.FillPassUnreached | SudokuSolver/src/sudokusolver/SudokuPuzzle.java:243-244 | cells later in row-major order than the pass has reached still hold their original values |
| Deduction.FillPassSingles | SudokuSolver/src/sudokusolver/SudokuPuzzle.java:296-306 | while the pass has not aborted, every cell it reached that was empty at the start has a stored set, and when that set has one element the cell holds exactly that digit |
| Deduction.CandidatesShrink | SudokuSolver/src/sudokusolver/SudokuPuzzle.java:284-294 | filling cells only removes candidates: on a board that keeps every filled cell of g, a cell's candidate set is a subset of its set on g |
| Deduction.DeadCellAborts | SudokuSolver/src/sudokusolver/SudokuPuzzle.java:234-252 | an empty cell of the starting grid with no candidate makes the whole pass return -1 |
| Deduction.AbortShowsDeadCell | SudokuSolver/src/sudokusolver/SudokuPuzzle.java:250-252 | a pass that returned -1 reached a cell that is still empty, has no candidates on the current board, and has the empty set stored under it by the pass |
| Deduction.FillPassStoresAll | SudokuSolver/src/sudokusolver/SudokuPuzzle.java:306 | after a full pass that did not abort, every empty cell has a stored candidate set, as the sweeps require |
| Deduction.FillPassNoConflicts | SudokuSolver/src/sudokusolver/SudokuPuzzle.java:296-297 | the pass never creates a clash on a board that had none |
| Deduction.FillPassSound | SudokuSolver/src/sudokusolver/SudokuPuzzle.java:240-260 | against any solution that agrees with the board and the stored sets, the pass never aborts and every digit it writes or stores agrees with that solution |
| Deduction.CandidatesOfEmpty | SudokuSolver/src/sudokusolver/SudokuPuzzle.java:284-294 | on an empty grid every cell has all nine digits as candidates |
| Deduction.FillPassOnEmptyBoard | SudokuSolver/src/sudokusolver/SudokuPuzzle.java:240-260 | on an empty grid the pass fills nothing, reports 0 and stores all nine digits for every cell it reached |
| Puzzle.SudokuPuzzle.VisitCell | SudokuSolver/src/sudokusolver/SudokuPuzzle.java:246-256 | one cell of the pass: a filled cell leaves everything alone; an empty one is examined, the tally goes up on one candidate and becomes -1 on none |
| Puzzle.SudokuPuzzle.FillPassRow | SudokuSolver/src/sudokusolver/SudokuPuzzle.java:244-257 | the nine cells of one row carry the pass from the start of the row to the start of the next |
| Puzzle.SudokuPuzzle.FillAllCellPossibilities | SudokuSolver/src/sudokusolver/SudokuPuzzle.java:240-260 | the new grid, stored sets and result are exactly those of the row-major pass over all 81 cells, where later cells see earlier fills; the invariant holds |
| Deduction.EligibleCells | SudokuSolver/src/sudokusolver/SudokuPuzzle.java:369-379 | the eligible cells of a list are no more than the list holds, and all lie on the grid |
| Deduction.EligibleCellsMembers | SudokuSolver/src/sudokusolver/SudokuPuzzle.java:369-379 | a cell is counted by the scan exactly when it is in the unit, empty, and holds the digit among its stored candidates |
| Deduction.EligibleCellsSnoc | SudokuSolver/src/sudokusolver/SudokuPuzzle.java:369-379 | scanning one more cell appends it to the eligible cells exactly when it is eligible |
| Puzzle.SudokuPuzzle.ScanRow | SudokuSolver/src/sudokusolver/SudokuPuzzle.java:365-379 | possibleCells is the number of eligible cells of the row, and the last one found is at lastPossibleCol |
| Puzzle.SudokuPuzzle.ScanCol | SudokuSolver/src/sudokusolver/SudokuPuzzle.java:442-456 | possibleCells is the number of eligible cells of the column, and the last one found is at lastPossibleRow |
| Puzzle.SudokuPuzzle.ScanBoxRow | SudokuSolver/src/sudokusolver/SudokuPuzzle.java:527-538 | the inner box loop extends the count and the last eligible cell by one row of the box |
| Puzzle.SudokuPuzzle.ScanBox | SudokuSolver/src/sudokusolver/SudokuPuzzle.java:519-539 | possibleCells is the number of eligible cells of the box, and the last one found is at (lastPossibleRow, lastPossibleCol) |
| Deduction.Step | SudokuSolver/src/sudokusolver/SudokuPuzzle.java:362-384 | defines the rule for one digit of a unit: a digit the unit lacks is written into the unit's only eligible cell, when there is exactly one; the result is still a 9x9 board |
| Deduction.StepOutcome | SudokuSolver/src/sudokusolver/SudokuPuzzle.java:382-384 | for a digit missing from the unit, the rule writes it exactly when one cell is eligible, and that cell is empty; otherwise nothing changes |
| Puzzle.SudokuPuzzle.PlaceIfSingle | SudokuSolver/src/sudokusolver/SudokuPuzzle.java:382-384 | writes the digit into the reported cell exactly when the scan found a single eligible cell, keeping the invariant |
| Puzzle.SudokuPuzzle.CheckRowDigit | SudokuSolver/src/sudokusolver/SudokuPuzzle.java:361-384 | one digit of a row: the board becomes the rule's result for that digit and row |
| Puzzle.SudokuPuzzle.CheckColDigit | SudokuSolver/src/sudokusolver/SudokuPuzzle.java:438-461 | one digit of a column: the board becomes the rule's result for that digit and column |
| Puzzle.SudokuPuzzle.CheckBoxDigit | SudokuSolver/src/sudokusolver/SudokuPuzzle.java:515-543 | one digit of a box: the board becomes the rule's result for that digit and box |
| Puzzle.SudokuPuzzle.CheckFillableRow | SudokuSolver/src/sudokusolver/SudokuPuzzle.java:355-386 | a row off the grid is an index error that changes nothing; otherwise the board becomes the rule applied to the row for digits 1..9 in turn; the stored sets are untouched and the invariant holds |
| Puzzle.SudokuPuzzle.CheckFillableCol | SudokuSolver/src/sudokusolver/SudokuPuzzle.java:432-463 | the same for a column |
| Puzzle.SudokuPuzzle.CheckFillableBox | SudokuSolver/src/sudokusolver/SudokuPuzzle.java:509-545 | the same for a box |
| Deduction.SweepUnit | SudokuSolver/src/sudokusolver/SudokuPuzzle.java:360-385 | defines a unit sweep as the rule applied for digits 1..n in turn; the result is still a 9x9 board |
| Deduction.SweepUnitNext | SudokuSolver/src/sudokusolver/SudokuPuzzle.java:360 | the digits of a unit are tried in increasing order, each on the board left by the previous one |
| Deduction.StepChange | SudokuSolver/src/sudokusolver/SudokuPuzzle.java:382-384 | a step changes at most one cell: an empty, eligible cell of the unit, which gets the digit; the unit lacked the digit |
| Deduction.SweepUnitFills | SudokuSolver/src/sudokusolver/SudokuPuzzle.java:371 | a unit sweep never changes a filled cell |
| Deduction.SweepUnitChange | SudokuSolver/src/sudokusolver/SudokuPuzzle.java:360-385 | a cell changed by a unit sweep was an empty cell of the unit; it now holds a digit that the unit lacked and that its stored set holds |
| Deduction.SweepUnitWritesOnce | SudokuSolver/src/sudokusolver/SudokuPuzzle.java:360-385 | a unit sweep never writes the same digit into two cells |
| Deduction.StepSound | SudokuSolver/src/sudokusolver/SudokuPuzzle.java:382-384 | the single eligible cell for a digit is where any agreeing solution puts it, so a step never contradicts that solution |
| Deduction.SweepUnitSound | SudokuSolver/src/sudokusolver/SudokuPuzzle.java:360-385 | a unit sweep only fills cells and never contradicts a solution that agrees with the board and the stored sets |
| Puzzle.SudokuPuzzle.VisitRow | SudokuSolver/src/sudokusolver/SudokuPuzzle.java:332-335 | a row whose count is 9 is skipped; any other row is swept |
| Puzzle.SudokuPuzzle.VisitCol | SudokuSolver/src/sudokusolver/SudokuPuzzle.java:409-412 | a column whose count is 9 is skipped; any other column is swept |
| Puzzle.SudokuPuzzle.VisitBox | SudokuSolver/src/sudokusolver/SudokuPuzzle.java:486-489 | a box whose count is 9 is skipped; any other box is swept |
| Deduction.SweepKind | SudokuSolver/src/sudokusolver/SudokuPuzzle.java:330-336 | defines the sweep of units 0..n-1 of one kind, skipping units with nine filled cells; the result is still a 9x9 board |
| Deduction.SweepKindNext | SudokuSolver/src/sudokusolver/SudokuPuzzle.java:330-335 | the units of a kind are visited in order 0..8, and those with nine filled cells are skipped |
| Deduction.FullUnitUnchanged | SudokuSolver/src/sudokusolver/SudokuPuzzle.java:332 | skipping a full unit loses nothing: sweeping it would change nothing |
| Deduction.StoredUnit | SudokuSolver/src/sudokusolver/SudokuPuzzle.java:375 | a store covering every empty cell covers the empty cells of each unit |
| Deduction.StoredInWrite | SudokuSolver/src/sudokusolver/SudokuPuzzle.java:383 | filling a cell keeps the store covering the unit's remaining empty cells |
| Deduction.StoredFills | SudokuSolver/src/sudokusolver/SudokuPuzzle.java:383 | only filling cells keeps the store covering every empty cell |
| Deduction.SweepKindFills | SudokuSolver/src/sudokusolver/SudokuPuzzle.java:328-337 | a sweep over all units of a kind never changes a filled cell, with no assumption about a solution |
| Deduction.SweepKindSound | SudokuSolver/src/sudokusolver/SudokuPuzzle.java:328-337 | a sweep over all rows, columns or boxes only fills cells and never contradicts a solution that agrees with the board and the stored sets |
| Puzzle.SudokuPuzzle.CheckForFillableRows | SudokuSolver/src/sudokusolver/SudokuPuzzle.java:328-337 | the board becomes the sweep of rows 0..8 that skips full rows; the stored sets are untouched and still cover every empty cell; the invariant holds |
| Puzzle.SudokuPuzzle.CheckForFillableCols | SudokuSolver/src/sudokusolver/SudokuPuzzle.java:405-414 | the same over the columns |
| Puzzle.SudokuPuzzle.CheckForFillableBoxs | SudokuSolver/src/sudokusolver/SudokuPuzzle.java:482-491 | the same over the boxes |

## Left out

- `SudokuSolver.java` is not part of this model. It is Swing dialog
  orchestration over static state, and it does not call into the core.
- The `frame` field and the text-field update in `setCellValue` (line 179)
  are left out. They are a UI side effect with no effect on the puzzle
  state.
- The `Coordinate` class and the `coordinates` cache (lines 26-42, 88 and
  301-303) are left out. They only supply `HashMap` keys with stable
  identity, and the model keys the map by the pair `(row, col)`.
- The stored candidate sets are `set<int>`, not `TreeSet`. The only ordered
  use is `vals.first()` on a set of one element, which `Single` models.
- Exceptions are modelled as `Result` and `Outcome` values. The Java
  exception types are not modelled.
- Puzzle.SudokuPuzzle.SetCellValue: the invariant is promised only for writes
  into empty cells. The source counts every nonzero write, even into a filled
  cell, and never retracts a count for a write of 0. `RecordOnFilledBreaksCount`
  proves that such a write breaks the documented table meaning.
- Puzzle.SudokuPuzzle.FillCellPossibilities: the invariant is promised only
  when the cell was empty. On a filled cell with a single candidate, the
  source overwrites the cell and double counts it. The pass itself only
  visits empty cells.
- Puzzle.SudokuPuzzle.FillPassRow, VisitCell, ScanBoxRow, the
  Check*Digit methods, PlaceIfSingle and the Visit* methods are loop bodies
  of the Java methods, moved into methods of their own. Each keeps the Java
  loop's statements and order.
- No method loops until the grid is solved, and none backtracks. The source
  has no such loop.
- Integers are unbounded. The counter stays within 0..81 and slot 0 of a
  table entry within 0..9 only while each cell is filled at most once.
  `setCellValue` counts every nonzero write, even into a filled cell, so
  about 2^31 repeated writes would wrap the Java `int` counters. The model
  does not capture that wrap-around.
