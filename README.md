# Sudoku solving engine, modelled and verified in Dafny

This project models the core of a small Sudoku solver. The grid has 81 cells. Each cell
holds an ordered list of candidate digits and an `absolute` flag. A cell is *set* when its
list has exactly one element. The solver knows four things:

- how to load a clue string (`.` for a blank, a digit for a clue) and how to write the grid
  back as text;
- three deduction rules that shrink the candidate lists:
  - naked singles (`compareToAbsolutes`);
  - hidden singles per region, row and column (`compareToCandidates`);
  - box-line elimination (`eliminateFromAxis`);
- a depth-first backtracking search that saves and restores each cell it tries
  (`solveByExhaustion`);
- one turn of `solve`'s loop, which runs all the rules and falls back on the search when
  none of them raised `hasChanged`.

The earlier engine in `classes.py` is modelled too. Its only rule is `updateAllCandidates`.

## Layout

- `candidates.dfy`, module `Candidates`. Candidate lists, `isSet` and `getValue` on lists,
  `calcID3x3`, the sublist order, and `list.remove`.
- `grid.dfy`, module `Grid`. The grid as a value: `Board = seq<CellState>`, row-major, where
  index `9*y + x` is the cell at row y, column x. It defines:
  - units and peers;
  - `positionConflict` and `isValidNumber` on boards;
  - unit completeness and `isSolved`;
  - the vocabulary the guarantees are stated in: `Deduces`, `IsSolution`, `Compatible`,
    `Consistent` and `SameCandidates`.
- `text.dfy`, module `Text`. Clue validation, clue entry and the text form of a grid.
- `rules.dfy`, module `Rules`. Each deduction rule is a left fold over the board in the
  order the source's loops visit cells. A later visit sees the changes an earlier visit made.
- `search.dfy`, module `Search`. `solveByExhaustion` as a recursive function on boards.
- `iteration.dfy`, module `Iteration`. One turn of `solve`'s loop.
- `cell.dfy`, module `CellModel`:
  - the `Cell` class (`cell.py` is not part of this model; the class is modelled on
    `classes.py:1-56`, see below);
  - the 81-cell list and `States(cells)`, which views the cell objects as a `Board`;
  - `getCell`, `absoluteEntry` and clue entry on cell objects.
- `sudoku.dfy`, module `Solver`. `sudoku.py`'s class `Sudoku`. Its fields are the cell list
  and `hasChanged`. Each method is proved to change the cells exactly as the matching
  function of `Rules`, `Search` or `Iteration` says. So the lemmas about those functions
  hold of the objects too.
- `classes.py`'s class `Sudoku`, module `Prototype`, in `classes.dfy`.

`sudoku.py` imports `Cell` from `cell.py`, which is not part of this model. The model's
`Cell` follows `classes.py:1-56` with two changes taken from how `sudoku.py` uses it:

- the region field is called `regionID`, with the formula of `calcID3x3`;
- `makeAbsolute` takes only the value.

The getter and comparison lambdas of the source become a `UnitKind` (`Row`, `Column`,
`Region`).

One detail is kept as written. When `solveByExhaustion` restores a cell's candidates after
a failed guess (sudoku.py:225), it does not clear the `absolute` flag that `makeAbsolute`
raised. `RestoreCandidates` keeps that flag. Nothing in `sudoku.py` reads `absolute`, so
the flag does not affect any result.

Soundness of the rules has a limit that the source does not guard against. The naked-singles
pass and the search never give two peers the same value (`Rules.NakedUpToConsistent`,
`Search.ExhaustConsistent`). The hidden-singles pass fixes a sole holder without asking
`isValidNumber` (sudoku.py:151-152). On a puzzle with no solution it can set two peers of
one row to the same digit: `Rules.HiddenSinglesClash` shows how. The clue string with `5`
at string indices 15, 28, 39, 56 and 67, `1` at 18, `2` at 23 and `.` elsewhere has the
same clash. After the naked-singles pass, (0,0) is region 0's only cell listing 5 and
(0,5) is region 1's, so the region pass sets both to 5. On a puzzle that has a solution the
rules keep the solution in reach, so no such clash arises: `Iteration.TurnConsistent`.
For the box-line pass the model likewise claims no two equal set peers only on puzzles
with a solution.

## Model

| member | source | states |
|---|---|---|
| CellModel.Cell.constructor | classes.py:2-7 | a new cell has its coordinates, the region of `calcID3x3`, all nine digits 1..9 in order, and `absolute` false |
| CellModel.Cell.MakeAbsolute | classes.py:9-11 | the list becomes `[value]` and `absolute` becomes true, whatever the list was before |
| CellModel.Cell.UpdateCandidates | classes.py:13-22 | the list becomes the candidates that pass the cell's own `isValidNumber` against the given cells, in their old order; `absolute` is kept |
| CellModel.ValidFilterIs | classes.py:13-22 | the cell-level filter is exactly the board-level `ValidCandidates` at the cell's position |
| CellModel.Cell.IsValidNumber | classes.py:24-28 | true exactly when the value conflicts with no other set cell in the cell's column, row or region |
| CellModel.ValidInIff | classes.py:24-28 | the cell-level validity test agrees with `Grid.IsValidNumber` on the board view |
| CellModel.Cell.PositionConflict | classes.py:30-37 | true exactly when some other set cell in the list shares the unit and holds the value; the source's fall-through `None` reads as false |
| CellModel.ConflictInIff | classes.py:30-37 | the cell-level conflict test agrees with `Grid.PositionConflict` on the board view |
| Candidates.CalcRegionID | classes.py:39-44 | for y, x in 0..8 the region is `3*(y div 3) + x div 3`, in 0..8 |
| Candidates.IsSet | classes.py:52-56 | definition: a list is set when it has exactly one element |
| Candidates.Fixed | classes.py:9-11 | definition: the state `makeAbsolute(value)` leaves, the list `[value]` with `absolute` true, whatever came before |
| CellModel.Cell.GetValue | classes.py:46-50 | a value exactly when the cell is set, and then the list is that value alone; `None` otherwise |
| Candidates.GetValue | classes.py:46-50 | `getValue` on a list: a value exactly when the list has one element, and the list is that value |
| CellModel.Cell.IsSet | classes.py:52-56 | true exactly when the list has one element |
| CellModel.InitCells | sudoku.py:9-14 | 81 fresh cells; the cell at index i has Position i, row i div 9, column i mod 9, and the region of that place; every list is all nine digits |
| CellModel.KeyOfIndex | sudoku.py:21-28 | the cell at index i has the row, column and region that the board gives index i |
| CellModel.FindCell | sudoku.py:16-19 | `getCell(y, x)` returns the cell at index `9*y + x`, the only cell with those coordinates |
| CellModel.CellsInUnit | sudoku.py:21-28 | the comprehension of a unit's cells equals the cells at that unit's member indices, in grid order |
| CellModel.CellsFromMembers | sudoku.py:21-28 | the same for the cells from index k onward |
| CellModel.CellsFromExactly | sudoku.py:21-28 | the comprehension holds exactly the cells whose row, column or region key equals the id |
| CellModel.CellsFrom | sudoku.py:21-28 | definition: the comprehension over the cells from position k on, keeping those whose row, column or region key equals the id, in list order (also the loop of classes.py:77-82) |
| CellModel.PickCons | sudoku.py:21-28 | picking cells at an index followed by more indices puts that cell first |
| Grid.Key | sudoku.py:21-28 | definition: the key of index i along a unit kind, its row `i div 9`, its column `i mod 9`, or its region by `calcID3x3` |
| Grid.MembersFrom | sudoku.py:21-28 | definition: the indices k..80 whose key along the kind equals the id, in increasing order |
| Grid.Members | sudoku.py:21-28 | definition: the indices of a unit, `MembersFrom` from index 0 |
| Grid.MembersIn | sudoku.py:21-28 | every member index of a unit is a grid index whose key is the unit's id, and the indices increase, so no cell is listed twice |
| Grid.MembersHas | sudoku.py:21-28 | every grid index whose key is the unit's id is a member of the unit |
| Grid.MembersIndices | sudoku.py:21-28 | a unit's member indices are grid indices |
| Grid.MembersSize | sudoku.py:21-28 | every row, column and region 0..8 has exactly nine member indices |
| Grid.KeyAt | sudoku.py:21-28 | index `9*r + x` has row r, column x and region `3*(r div 3) + x div 3` |
| Grid.RegionKey | classes.py:39-44 | row r, column x lies in region id exactly when r is in the region's band of three rows and x in its band of three columns |
| Grid.MembersFromInRow | sudoku.py:21-28 | the members from index `9*r + x` on are the hits in the rest of row r followed by the members from the next row |
| Grid.MembersFromRows | sudoku.py:21-28 | the number of members from row r on is the sum of the hits of rows r..8 |
| Grid.RowHitsCount | sudoku.py:24-28 | a row meets row unit id in nine cells when it is row id and in none otherwise, and meets each column in one cell |
| Grid.RegionRowHits | sudoku.py:21-22 | a row meets a region in three cells when it lies in the region's band of rows and in none otherwise |
| Grid.GridHitsCount | sudoku.py:21-28 | summed over all rows, a row, a column and a region each have nine cells |
| Grid.IncreasingAllSame | sudoku.py:147-151 | an increasing list holds a value at most once, so a list of copies of one index has at most one element |
| Solver.Sudoku.constructor | sudoku.py:4-7 | a new solver has 81 fresh cells holding all nine digits each, and `hasChanged` false |
| Solver.Sudoku.IsSolved | sudoku.py:30-35 | true exactly when every cell of the grid is set |
| CellModel.AbsoluteEntry | sudoku.py:37-39 | only the cell at (y, x) changes; it becomes `[value]` and absolute |
| Solver.Sudoku.TextToAbsolutes | sudoku.py:41-63 | the grid becomes `Loaded(old grid, text)` |
| Text.LoadedCells | sudoku.py:41-63 | a text that is not 81 characters, or that holds a character outside `.123456789`, leaves every cell as it was; a valid text fixes each cell under a digit to that digit and leaves the cells under `.` as they were |
| Text.Entered | sudoku.py:51-63 | definition: each of the first 81 characters that is a digit fixes the cell at its row-major position to that digit; `.` and characters past the 81st change nothing |
| Text.Loaded | sudoku.py:41-63 | definition: a text that is not 81 characters long, or holds a character outside `.123456789`, leaves the grid as it was; a valid text is entered |
| Text.IsClueChar | sudoku.py:47 | definition: a character in `.123456789` |
| Text.ValidClues | sudoku.py:42-50 | definition: the text has 81 characters, each a clue character |
| Text.DigitValue | sudoku.py:55 | `int()` of a decimal digit character is its value 0..9 |
| CellModel.EnterClues | classes.py:89-100 | the unchecked loader (also the loop at sudoku.py:51-63) enters the digit of each of the first 81 characters into its cell and leaves the rest; characters past the 81st are ignored |
| Solver.Sudoku.AbsolutesToText | sudoku.py:65-70 | the payload is the cells' `str(getValue())` in row-major order |
| Text.BoardText | sudoku.py:65-70 | definition: the `str(getValue())` of every cell, in row-major order, one after another |
| Text.ValueText | sudoku.py:69 | definition: `str()` of `getValue()`, the decimal digits of the value or `None` |
| Text.IntText | sudoku.py:69 | definition: `str()` of an int, a minus sign before the digits of a negative one |
| Text.NatText | sudoku.py:69 | `str()` of a natural number is at least one character and all its characters are decimal digits |
| Text.BoardTextDigits | sudoku.py:65-70 | a fully set grid of digits is written as 81 digit characters, the i-th being cell i's value |
| Text.DigitText | sudoku.py:69 | `str()` of a digit 1..9 is one character |
| Text.LoadThenText | sudoku.py:53-55 | loading an 81-character clue string with no blank and writing the grid back gives the string |
| Text.TextThenLoad | sudoku.py:65-70 | writing a fully set grid of digits and loading the text back gives every cell its list again |
| Solver.Sudoku.CompareToAbsolutes | sudoku.py:100-111 | the grid and `hasChanged` become what the naked-singles pass `NakedPass` gives; the flag is or-ed into its old value |
| Solver.Sudoku.CompareToAbsolutesAt | sudoku.py:101-111 | one visit of the loop: a set cell is skipped; an unset cell gets the filtered list and may raise the flag |
| Solver.Sudoku.ValidCandidatesOf | sudoku.py:104-107 | `newCandidates` is the candidates that pass `isValidNumber`, in list order |
| Grid.ValidCandidates | sudoku.py:104-107 | definition: the candidates that pass `isValidNumber`, in list order |
| Grid.ValidCandidatesSpec | sudoku.py:104-107 | the filtered list is a sublist of the list, and it holds exactly the candidates passing `isValidNumber` |
| Rules.NakedVisit | sudoku.py:101-111 | definition: a set cell is skipped; an unset cell gets its valid candidates, and the flag rises when the list changed and has one element left |
| Rules.NakedUpTo | sudoku.py:100-111 | definition: the visits to cells 0..k-1 in turn, each on the board the previous left; the flags are or-ed |
| Rules.NakedPass | sudoku.py:100-111 | definition: the visits to all 81 cells |
| Rules.NakedUpToShape | sudoku.py:100-111 | after the first k visits: the cells not yet reached and the set cells are unchanged; each unset cell reached holds its old list filtered against the board as it stood at its visit; the flag is raised exactly when some unset cell's list changed and now has one element |
| Rules.NakedVisitDeduces | sudoku.py:101-111 | one visit only shrinks lists, leaves set cells alone, and raises the flag exactly when an unset cell became set |
| Rules.NakedUpToDeduces | sudoku.py:100-111 | the whole pass shrinks lists, leaves set cells alone, and raises the flag exactly when some unset cell became set |
| Rules.NakedVisitKeepsSolution | sudoku.py:104-111 | a solution that agrees with every list before a visit still agrees after it |
| Rules.NakedUpToKeepsSolution | sudoku.py:100-111 | the same for the whole pass |
| Rules.NakedVisitConsistent | sudoku.py:104-111 | on a board with no two set peers equal, a visit keeps that true |
| Rules.NakedUpToConsistent | sudoku.py:100-111 | the same for the whole pass |
| Solver.Sudoku.IsValidNumber | sudoku.py:115-119 | true exactly when the value conflicts in none of the column, row and region of the cell |
| Grid.IsValidNumber | sudoku.py:115-119 | definition: no conflict along the column, then the row, then the region |
| Grid.IsValidNumberIff | sudoku.py:115-128 | `isValidNumber(cell, v)` holds exactly when no other set cell sharing the column, row or region has value v |
| Solver.Sudoku.PositionConflict | sudoku.py:121-128 | true exactly when some other set cell of the unit has the value; `None` reads as false |
| Grid.PositionConflict | sudoku.py:121-128 | definition: the scan over all 81 cells finds a conflicting cell |
| Grid.ConflictBefore | sudoku.py:122-128 | definition: some cell among the first n is another set cell with the same key whose value is v |
| Grid.PositionConflictIff | sudoku.py:121-128 | the scan finds a conflict exactly when some other set cell with the same key holds v |
| Grid.ConflictBeforeIff | sudoku.py:122-128 | the scan over the first n cells finds a conflict exactly when one of them is a conflicting cell |
| Solver.Sudoku.IsGroupComplete | sudoku.py:130-135 | true exactly when every cell of the group is set |
| Grid.IsGroupCompleteIff | sudoku.py:130-135 | a unit is complete exactly when every member index holds a set cell |
| Grid.IsGroupComplete | sudoku.py:130-135 | definition: every member of the group is set |
| Grid.IsSolved | sudoku.py:30-35 | definition: every cell of the grid is set |
| Solver.Sudoku.CompareToCandidates | sudoku.py:137-154 | the grid and `hasChanged` become what the hidden-singles pass `HiddenPass` over the nine units of a kind gives |
| Solver.Sudoku.CompareInUnit | sudoku.py:140-154 | one unit: a complete unit is skipped; otherwise the numbers 1..9 are tried in turn |
| Solver.Sudoku.HolderCells | sudoku.py:147-150 | `validCells` is the cells of the group that list nr, in group order |
| Grid.Holders | sudoku.py:147-150 | definition: the members whose list contains nr, in member order |
| Grid.HoldersSpec | sudoku.py:147-150 | the holders are exactly the members whose list contains nr |
| Grid.HoldersIncreasing | sudoku.py:147-150 | over increasing members the holders are increasing, so no cell is listed twice |
| Solver.Sudoku.FixSoleHolder | sudoku.py:147-154 | one number: if exactly one member lists nr and it is unset, it becomes `[nr]` and the flag is raised; otherwise nothing changes |
| Rules.HiddenVisit | sudoku.py:146-154 | definition: when exactly one member lists nr and it is unset, it is fixed to nr and the flag rises; otherwise nothing changes |
| Rules.HiddenNumbersUpTo | sudoku.py:146-154 | definition: the checks of numbers 1..n in turn, on one unit |
| Rules.HiddenUnit | sudoku.py:140-154 | definition: a complete unit is skipped; otherwise numbers 1..9 are checked |
| Rules.HiddenUpTo | sudoku.py:139-154 | definition: units 0..k-1 of a kind in turn |
| Rules.HiddenPass | sudoku.py:137-154 | definition: the nine units of a kind |
| Rules.HiddenVisitFixes | sudoku.py:146-154 | one number either changes nothing or fixes to nr one unset member of the unit that is the unit's only holder of nr |
| Rules.HiddenVisitSoleHolder | sudoku.py:146-154 | the converse: when an unset member i is the unit's only holder of nr, the check fixes i to nr and raises the flag; when that holder is set, nothing changes |
| Rules.HiddenVisitDeduces | sudoku.py:146-154 | one number only shrinks lists, leaves set cells alone, and raises the flag exactly when a cell became set |
| Rules.HiddenNumbersUpToDeduces | sudoku.py:146-154 | the same for the numbers 1..n of one unit |
| Rules.HiddenUnitDeduces | sudoku.py:140-154 | the same for one whole unit |
| Rules.HiddenUpToDeduces | sudoku.py:139-154 | the same for the first k units of a kind |
| Rules.HiddenVisitKeepsSolution | sudoku.py:146-154 | when the solution puts nr on some member of the unit, the sole holder it fixes is that member, so the solution still agrees |
| Rules.HiddenNumbersUpToKeepsSolution | sudoku.py:146-154 | a solution that shows every digit in the unit still agrees after numbers 1..n |
| Rules.HiddenUnitKeepsSolution | sudoku.py:140-154 | a solution still agrees after one unit |
| Rules.HiddenUpToKeepsSolution | sudoku.py:139-154 | a solution still agrees after the first k units |
| Rules.HiddenSinglesClash | sudoku.py:146-154 | the hidden-single check does not ask `isValidNumber`: on a grid with no set cell where only (0,0) and (0,5) list 5, region 0's check fixes (0,0) to 5 and region 1's then fixes (0,5) to 5, so a grid with no two equal set peers gets two in row 0 |
| Solver.Sudoku.EliminateFromAxis | sudoku.py:156-198 | the grid and `hasChanged` become what the box-line pass `AxisPass` over the nine regions gives |
| Solver.Sudoku.EliminateInRegion | sudoku.py:161-198 | one region: a complete region is skipped; otherwise the numbers 1..9 are tried in turn |
| Solver.Sudoku.EliminateNumberInRegion | sudoku.py:167-198 | one number: skipped when set in the region or held by fewer than two unset cells; otherwise eliminated along the shared row, then along the shared column |
| Solver.Sudoku.NumberSetInGroup | sudoku.py:167-172 | `nrSetInRegion` is true exactly when some member of the region is set to nr |
| Grid.NumberSetIn | sudoku.py:167-172 | definition: some member of the region is set to nr |
| Grid.NumberSetInIff | sudoku.py:167-172 | some member is set to nr exactly when the scan says so |
| Solver.Sudoku.UnsetHolderCells | sudoku.py:175-178 | `cellsWithCandidate` is the unset cells of the region that list nr, in region order |
| Grid.UnsetHolders | sudoku.py:175-178 | definition: the unset members whose list contains nr, in member order |
| Grid.UnsetHoldersSpec | sudoku.py:175-178 | the unset holders are exactly the unset members that list nr |
| Grid.UnsetHoldersIncreasing | sudoku.py:175-178 | over increasing members the unset holders are increasing |
| Solver.Sudoku.SharedAxes | sudoku.py:186-194 | `allInRow` and `allInColumn` are true exactly when every holder is on the first holder's row, and column |
| Rules.AxisVisit | sudoku.py:165-198 | definition: skipped when nr is set in the region or fewer than two unset members list it; otherwise nr is eliminated along the first holder's row when all holders share it, then along its column when all holders share that |
| Rules.AxisNumbersUpTo | sudoku.py:165-198 | definition: numbers 1..n of one region in turn |
| Rules.AxisRegion | sudoku.py:161-198 | definition: a complete region is skipped; otherwise numbers 1..9 |
| Rules.AxisUpTo | sudoku.py:160-198 | definition: regions 0..k-1 in turn |
| Rules.AxisPass | sudoku.py:156-198 | definition: the nine regions |
| Rules.AxisVisitFewHolders | sudoku.py:175-182 | `len(cellsWithCandidate) < 2` holds exactly when no two distinct unset members of the region list nr, and then nothing changes |
| Rules.AxisVisitDeduces | sudoku.py:165-198 | one number only shrinks lists, leaves set cells alone, and raises the flag exactly when a cell became set |
| Rules.AxisNumbersUpToDeduces | sudoku.py:165-198 | the same for the numbers 1..n of one region |
| Rules.AxisRegionDeduces | sudoku.py:161-198 | the same for one region |
| Rules.AxisUpToDeduces | sudoku.py:160-198 | the same for the first k regions |
| Rules.AxisVisitKeepsSolution | sudoku.py:165-198 | when the solution puts nr in the region, no cell of the axis outside the region holds nr in the solution, so it still agrees |
| Rules.AxisNumbersUpToKeepsSolution | sudoku.py:165-198 | a solution still agrees after numbers 1..n of one region |
| Rules.AxisRegionKeepsSolution | sudoku.py:161-198 | a solution still agrees after one region |
| Rules.AxisUpToKeepsSolution | sudoku.py:160-198 | a solution still agrees after the first k regions |
| Solver.Sudoku.EliminateCandidateFromAxisOutsideRegion | sudoku.py:201-210 | the grid and `hasChanged` become what `EliminateOutside` gives along the row or column |
| Solver.Sudoku.EliminateAt | sudoku.py:203-210 | one cell: skipped when it is in the region, set, or does not list nr; otherwise nr is removed and the flag raised when one candidate is left |
| Rules.EliminateVisit | sudoku.py:203-210 | definition: a cell outside the region that is unset and lists nr loses its first nr, and the flag rises when one candidate is left; any other cell is skipped |
| Rules.EliminateUpTo | sudoku.py:201-210 | definition: the first n cells of the axis in turn |
| Rules.EliminateOutside | sudoku.py:201-210 | definition: every cell of the axis in turn |
| Rules.EliminateUpToShape | sudoku.py:201-210 | after the first n cells of the axis, exactly the reached unset cells outside the region that list nr have lost it; every other cell is unchanged; the flag is raised exactly when such a removal left one candidate |
| Rules.EliminateUpToStep | sudoku.py:201-210 | one more step of the scan keeps that description |
| Rules.EliminateVisitKeepsCandidate | sudoku.py:205-207 | the removal never empties a list |
| Rules.EliminateVisitDeduces | sudoku.py:203-210 | one cell only shrinks lists, leaves set cells alone, and raises the flag exactly when a cell became set |
| Rules.EliminateUpToDeduces | sudoku.py:201-210 | the same for the whole axis |
| Rules.EliminateUpToKeepsSolution | sudoku.py:201-210 | if the solution has nr on no cell of the axis outside the region, it still agrees after the pass |
| Candidates.RemoveFirst | sudoku.py:207 | `list.remove(v)` on a list holding v makes it one element shorter |
| Candidates.RemoveFirstMultiset | sudoku.py:207 | `list.remove` takes one occurrence of the value out of the list |
| Candidates.RemoveFirstSublist | sudoku.py:207 | the list after `remove` is a sublist of the list before it |
| Candidates.RemoveFirstKeeps | sudoku.py:207 | `remove(v)` keeps every other value |
| Solver.Sudoku.SolveByExhaustion | sudoku.py:213-226 | the grid becomes `Exhaust(old grid)` |
| Search.Exhaust | sudoku.py:213-226 | the search always returns a grid of 81 cells; when it returns unsolved, every cell has the list it had on entry |
| Search.TryCandidates | sudoku.py:218-225 | the same for trying a list of candidates at one cell |
| Solver.Sudoku.FirstUnsetPosition | sudoku.py:214-217 | the row-major scan finds the first unset cell, or reports that there is none |
| Grid.FirstUnset | sudoku.py:214-217 | the index found is unset and every index before it from k is set; it is 81 when no cell from k is unset |
| Grid.FirstUnsetAt | sudoku.py:214-217 | an unset index after a run of set cells, or the end of a grid of set cells, is what the scan finds |
| Solver.Sudoku.TryCandidatesAt | sudoku.py:218-226 | the candidates of the cell are tried in list order, as `TryCandidates` says |
| Solver.Sudoku.PlaceAndSearch | sudoku.py:220-223 | one guess: the cell is fixed to the candidate, the search recurses, and `solved` is whether the grid is solved |
| Solver.Sudoku.RestoreCandidates | sudoku.py:225 | only the cell's list changes, back to the saved list; its `absolute` flag stays as it is |
| Search.RestoredSame | sudoku.py:220-225 | restoring the saved list after a failed guess gives every cell its list from before the guess |
| Search.ExhaustRefines | sudoku.py:213-226 | the search only fixes cells to their own candidates and leaves set cells alone |
| Search.TryCandidatesRefines | sudoku.py:218-225 | the same for one cell's candidates |
| Search.ExhaustConsistent | sudoku.py:213-226 | the search places only values passing `isValidNumber`, so a board with no two equal set peers keeps that property |
| Search.TryCandidatesConsistent | sudoku.py:218-225 | the same for one cell's candidates |
| Grid.PlaceConsistent | sudoku.py:219-221 | placing a value that passes `isValidNumber` keeps set peers distinct |
| Search.ExhaustComplete | sudoku.py:213-226 | if a solution agrees with every list, the search returns a solved grid |
| Search.TryCandidatesComplete | sudoku.py:218-225 | if a solution agrees with every list and its value at the cell is among the candidates tried, the search solves the grid |
| Grid.SolutionValueValid | sudoku.py:219 | a solution's value at a cell passes `isValidNumber` on any board the solution agrees with |
| Solver.Sudoku.ApplyRules | sudoku.py:247-252 | the grid and `hasChanged` become what the five rule passes give, run in the source's order from a cleared flag |
| Solver.Sudoku.SolveStep | sudoku.py:245-260 | one turn of `solve`'s loop: the rules, then the search when the flag stayed down; `solved` is `isSolved()` afterwards |
| Iteration.RuleBattery | sudoku.py:247-252 | definition: the naked-singles pass, the hidden-singles passes over regions, rows and columns, and the box-line pass, in that order; the flag is the or of theirs |
| Iteration.Turn | sudoku.py:245-260 | definition: the rules, then the search on their result when none raised the flag |
| Iteration.RuleBatteryDeduces | sudoku.py:247-252 | all five passes together shrink lists, leave set cells alone, and raise the flag exactly when some unset cell became set |
| Iteration.RuleBatteryKeepsSolution | sudoku.py:247-252 | a solution that agrees with every list before the rules still agrees after them |
| Iteration.DeducesProgress | sudoku.py:247-254 | a turn that raised the flag left fewer unset cells |
| Iteration.TurnProgress | sudoku.py:245-264 | with a solution in reach, a turn either solves the grid or sets more cells while keeping the solution in reach, so the loop ends |
| Iteration.TurnConsistent | sudoku.py:245-260 | on a puzzle with a solution, the rules and the whole turn never leave two set peers with the same value |
| Grid.CompatibleConsistent | sudoku.py:245-260 | a board whose every list admits a solution's value has no two set peers with the same value |
| Grid.DeducesCompose | sudoku.py:247-252 | two passes in a row keep the shrink-only guarantee; their flags combine by or |
| Grid.DeducesShrinks | sudoku.py:247-252 | after a pass that only shrinks lists, each list is no longer than before and holds only values it held before |
| Grid.SolutionShowsAll | sudoku.py:146-154 | a solution shows every digit 1..9 in every unit |
| Grid.UnsetCountMono | sudoku.py:213-226 | a board set wherever another is set has no more unset cells, and fewer when it is set somewhere more |
| Prototype.Sudoku.constructor | classes.py:62-70 | a new grid has 81 fresh cells holding all nine digits each |
| Prototype.Sudoku.GetCellsIn3x3 | classes.py:77-82 | the result is the cells of the region in grid order: exactly the cells whose region is the id, nine of them for a region 0..8 |
| Prototype.Sudoku.UpdateAt | classes.py:124-125 | one cell's `updateCandidates` against the whole grid, as `UpdateVisit` gives |
| Prototype.Sudoku.UpdateAllCandidates | classes.py:123-125 | the grid becomes `UpdateAll(old grid)`: every cell, set or not, in grid order, filtered against the grid as it stands |
| Prototype.UpdateVisit | classes.py:13-22 | definition: cell k keeps the candidates valid against the board, in order, with its `absolute` flag; every other cell is as it was |
| Prototype.UpdateAllUpTo | classes.py:123-125 | definition: the updates of cells 0..k-1 in turn, each against the board the previous left |
| Prototype.UpdateAll | classes.py:123-125 | definition: the updates of all 81 cells |
| Prototype.UpdateVisitNaked | classes.py:13-22 | on an unset cell the update is the naked-single visit of the later engine; a set cell whose value has no conflict is left as it is |
| Prototype.UpdateVisitEmpties | classes.py:13-22 | a set cell whose value no longer passes `isValidNumber` is left with an empty list |
| Prototype.UpdateAllUpToShrinks | classes.py:123-125 | the pass only shrinks lists, keeps every `absolute` flag, and leaves the cells it has not reached as they were |
| Prototype.UpdateAllUpToKeepsSolution | classes.py:123-125 | a solution that agrees with every list before the pass still agrees after it |

## Left out

- Console output is not modelled: `printSudoku`, `debugCell`, `debugCellAt`, `debugCells`,
  `debugSudoku`, `solvedCellMsg`, `eliminatedCandMsg` and every `print`. This also
  covers the zero-candidates message at sudoku.py:112-113 and classes.py:21-22. That
  condition shows in the model as a cell with an empty list (see
  `Prototype.UpdateVisitEmpties`).
- The `debug` flag, the `iterations` counter, and the `clues` count at sudoku.py:57 are left
  out. They only feed output.
- `input()` is left out.
- The outer `while(True)` of `solve` (sudoku.py:245-264) is modelled as one turn,
  `Solver.Sudoku.SolveStep`. The loop can run forever when the search fails, so it has no
  termination measure. `Iteration.TurnProgress` shows that on a puzzle with a solution
  every turn either solves the grid or sets more cells.
- `classes.py`'s `solve` (classes.py:138-143) is an interactive loop that never ends.
  Only its step, `updateAllCandidates`, is modelled.
- The commented-out `progress3x3` (classes.py:127-136) is dead code and is left out.
- main.py is a command-line driver with fixed puzzles and is not part of this model.
- Solver.Sudoku.PositionConflict: the `None` that `positionConflict` returns when it finds
  nothing is read as false.
- CellModel.FindCell: requires 0 <= y, x <= 8. Outside that range `getCell` returns
  `None`, and no caller in the core passes such coordinates.
- CellModel.EnterClues: requires every character among the first 81 to be `.` or a decimal
  digit. The unchecked loader of classes.py:89-100 would raise in `int()` on anything else,
  and an exception is not modelled. `int()` of a non-ASCII Unicode digit is not modelled
  either.
- The helper methods `Solver.Sudoku.CompareToAbsolutesAt`, `FixSoleHolder`, `EliminateAt`,
  `FirstUnsetPosition`, `TryCandidatesAt`, `PlaceAndSearch`, `RestoreCandidates` and
  `ApplyRules` are loop bodies and stretches of the source's methods, given names of their
  own. They do not correspond to methods of the source.
- Python object identity (`c1 == c2`) is modelled by position in the grid. The cells of a
  grid are 81 distinct objects at distinct positions.
