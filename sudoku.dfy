/** The solver's Sudoku class of sudoku.py: the grid of 81 cell objects, the hasChanged
    flag the deduction passes raise, and the passes themselves, which update the cells in
    place. Every pass is proved to leave the cells exactly as the corresponding board
    function of Rules, Search or Iteration says, so that the guarantees proved there
    (only sublists, set cells untouched, a solution never lost, progress every turn)
    carry over to the objects. */
module Solver {
  import opened Candidates
  import opened Grid
  import opened Rules
  import opened Search
  import opened Iteration
  import opened Text
  import opened CellModel

  class Sudoku {
    const cells: seq<Cell>
    var hasChanged: bool

    /** The grid's cells are the 81 distinct cells in row-major order. */
    predicate Valid()
    {
      Grid81(cells)
    }

    /** A new grid: 81 fresh cells with every candidate, and the flag lowered. */
    constructor ()
      ensures Valid() && States(cells) == FreshBoard() && !hasChanged
      ensures forall i :: 0 <= i < |cells| ==> fresh(cells[i])
    {
      var cs := InitCells();
      cells := cs;
      hasChanged := false;
    }

    /** isSolved: every cell of the grid is set. */
    method IsSolved() returns (solved: bool)
      requires Valid()
      ensures solved == Grid.IsSolved(States(cells))
    {
      solved := true;
      for k := 0 to 81
        invariant solved == forall j :: 0 <= j < k ==> IsSet(States(cells)[j].candidates)
      {
        assert States(cells)[k].candidates == cells[k].candidates;
        if !cells[k].IsSet() {
          solved := false;
        }
      }
    }

    /** textToAbsolutes: a string that is not 81 characters of '.' and 1..9 is refused
        before any cell changes; otherwise its clues are entered. */
    method TextToAbsolutes(text: string)
      requires Valid()
      modifies cells
      ensures States(cells) == Loaded(old(States(cells)), text)
    {
      if |text| != 81 {
        return;
      }
      for k := 0 to |text|
        invariant forall j :: 0 <= j < k ==> IsClueChar(text[j])
      {
        if !IsClueChar(text[k]) {
          return;
        }
      }
      EnterClues(cells, text);
    }

    /** absolutesToText: Python's str() of every cell's value, in row-major order. */
    method AbsolutesToText() returns (payload: string)
      requires Valid()
      ensures payload == BoardText(States(cells))
    {
      payload := "";
      for y := 0 to 9
        invariant payload == BoardText(States(cells)[..9 * y])
      {
        for x := 0 to 9
          invariant payload == BoardText(States(cells)[..9 * y + x])
        {
          var cell := FindCell(cells, y, x);
          assert States(cells)[..9 * y + x + 1][..9 * y + x] == States(cells)[..9 * y + x];
          payload := payload + ValueText(cell.GetValue());
        }
      }
      assert States(cells)[..81] == States(cells);
    }

    /** positionConflict: some set cell other than c1 that shares c1's unit of the given
        kind holds v. The scan compares cells by identity, so only c1 itself is
        skipped. */
    method PositionConflict(c1: Cell, v: int, kind: UnitKind) returns (r: bool)
      requires Valid() && c1 in cells
      ensures 0 <= c1.Position() < 81 && cells[c1.Position()] == c1
      ensures r <==> Grid.PositionConflict(States(cells), c1.Position(), v, kind)
    {
      ghost var j :| 0 <= j < 81 && cells[j] == c1;
      assert c1.Position() == j;
      for n := 0 to 81
        invariant forall m :: 0 <= m < n ==> !c1.Blocks(cells[m], v, kind)
      {
        var c2 := cells[n];
        if !c2.IsSet() {
          continue;
        }
        if c1 == c2 {
          continue;
        }
        if c1.KeyOf(kind) == c2.KeyOf(kind) && v == c2.GetValue().value {
          assert c1.Blocks(cells[n], v, kind);
          ConflictInIff(cells, j, v, kind);
          return true;
        }
      }
      ConflictInIff(cells, j, v, kind);
      return false;
    }

    /** isValidNumber: v conflicts with no set peer of the cell in its column, row or
        region. */
    method IsValidNumber(cell: Cell, v: int) returns (r: bool)
      requires Valid() && cell in cells
      ensures 0 <= cell.Position() < 81 && cells[cell.Position()] == cell
      ensures r <==> Grid.IsValidNumber(States(cells), cell.Position(), v)
    {
      var conflict := PositionConflict(cell, v, Column);
      if conflict {
        return false;
      }
      conflict := PositionConflict(cell, v, Row);
      if conflict {
        return false;
      }
      conflict := PositionConflict(cell, v, Region);
      if conflict {
        return false;
      }
      return true;
    }

    /** isGroupComplete: every cell of the group is set. */
    method IsGroupComplete(cellGroup: seq<Cell>) returns (r: bool)
      ensures r <==> forall t :: 0 <= t < |cellGroup| ==> cellGroup[t].IsSet()
    {
      r := true;
      for t := 0 to |cellGroup|
        invariant r <==> forall u :: 0 <= u < t ==> cellGroup[u].IsSet()
      {
        if !cellGroup[t].IsSet() {
          r := false;
        }
      }
    }

    /** The inner loop of compareToAbsolutes: the candidates of the cell at position k
        that isValidNumber accepts, in their order. */
    method ValidCandidatesOf(cell: Cell, ghost k: int) returns (newCandidates: seq<int>)
      requires Valid() && 0 <= k < 81 && cell == cells[k]
      ensures newCandidates == ValidCandidates(States(cells), k, cell.candidates)
    {
      ghost var b := States(cells);
      var cs := cell.candidates;
      newCandidates := [];
      for t := 0 to |cs|
        invariant newCandidates == ValidCandidates(b, k, cs[..t])
      {
        var ok := IsValidNumber(cell, cs[t]);
        ValidCandidatesSnoc(b, k, cs[..t], cs[t]);
        assert cs[..t + 1] == cs[..t] + [cs[t]];
        if ok {
          newCandidates := newCandidates + [cs[t]];
        }
      }
      assert cs[..|cs|] == cs;
    }

    /** compareToAbsolutes' visit to the cell at position k: an unset cell keeps only the
        candidates isValidNumber accepts, and hasChanged rises when its list shrank to one
        candidate. */
    method CompareToAbsolutesAt(k: int)
      requires Valid() && 0 <= k < 81
      modifies this, cells[k]
      ensures States(cells) == NakedVisit(old(States(cells)), k).board
      ensures hasChanged == (old(hasChanged) || NakedVisit(old(States(cells)), k).changed)
    {
      var cell := cells[k];
      if cell.IsSet() {
        return;
      }
      var newCandidates := ValidCandidatesOf(cell, k);
      if cell.candidates != newCandidates && |newCandidates| == 1 {
        hasChanged := true;
      }
      cell.candidates := newCandidates;
    }

    /** compareToAbsolutes: the visit above to every cell, in grid order; each visit sees
        the lists left by the earlier ones. */
    method CompareToAbsolutes()
      requires Valid()
      modifies this, cells
      ensures States(cells) == NakedPass(old(States(cells))).board
      ensures hasChanged == (old(hasChanged) || NakedPass(old(States(cells))).changed)
    {
      ghost var b := States(cells);
      for k := 0 to 81
        invariant States(cells) == NakedUpTo(b, k).board
        invariant hasChanged == (old(hasChanged) || NakedUpTo(b, k).changed)
      {
        CompareToAbsolutesAt(k);
      }
    }

    /** The cells of the group that list nr, in group order (validCells in
        compareToCandidates), with their positions h. */
    method HolderCells(cellGroup: seq<Cell>, ghost ms: seq<int>, nr: int) returns (validCells: seq<Cell>, ghost h: seq<int>)
      requires Valid() && GridIndices(ms) && cellGroup == Pick(cells, ms)
      ensures h == Holders(States(cells), ms, nr)
      ensures validCells == Pick(cells, Holders(States(cells), ms, nr))
    {
      ghost var b := States(cells);
      validCells := [];
      h := [];
      for t := 0 to |cellGroup|
        invariant h == Holders(b, ms[..t], nr) && validCells == Pick(cells, h)
      {
        assert ms[..t + 1][..t] == ms[..t];
        if nr in cellGroup[t].candidates {
          validCells := validCells + [cellGroup[t]];
          h := h + [ms[t]];
        }
      }
      assert ms[..|ms|] == ms;
    }

    /** compareToCandidates on the unit (kind, i): skipped when complete; otherwise each
        number 1..9 listed by exactly one cell of the unit fixes that cell when it is not
        yet set, and hasChanged rises. The unit's cells are gathered once; later numbers
        see the cells fixed for earlier ones. */
    method CompareInUnit(kind: UnitKind, i: int)
      requires Valid()
      modifies this, cells
      ensures States(cells) == HiddenUnit(old(States(cells)), kind, i).board
      ensures hasChanged == (old(hasChanged) || HiddenUnit(old(States(cells)), kind, i).changed)
    {
      ghost var b := States(cells);
      var cellGroup := CellsFrom(cells, kind, i, 0);
      CellsInUnit(cells, kind, i);
      ghost var ms := Members(kind, i);
      var complete := IsGroupComplete(cellGroup);
      assert forall t :: 0 <= t < |ms| ==> cellGroup[t].candidates == b[ms[t]].candidates;
      IsGroupCompleteIff(b, ms);
      if complete {
        return;
      }
      for nr := 1 to 10
        invariant States(cells) == HiddenNumbersUpTo(b, ms, nr - 1).board
        invariant hasChanged == (old(hasChanged) || HiddenNumbersUpTo(b, ms, nr - 1).changed)
      {
        FixSoleHolder(cellGroup, ms, nr);
      }
    }

    /** compareToCandidates' check of number nr in a unit: when exactly one of the
        unit's cells lists nr and that cell is not set, it is fixed to nr and hasChanged
        rises. */
    method FixSoleHolder(cellGroup: seq<Cell>, ghost ms: seq<int>, nr: int)
      requires Valid() && GridIndices(ms) && cellGroup == Pick(cells, ms)
      modifies this, cells
      ensures States(cells) == HiddenVisit(old(States(cells)), ms, nr).board
      ensures hasChanged == (old(hasChanged) || HiddenVisit(old(States(cells)), ms, nr).changed)
    {
      var validCells, h := HolderCells(cellGroup, ms, nr);
      if |validCells| == 1 && !validCells[0].IsSet() {
        validCells[0].MakeAbsolute(nr);
        hasChanged := true;
      }
    }

    /** compareToCandidates: CompareInUnit on the units 0..8 of the kind in turn. */
    method CompareToCandidates(kind: UnitKind)
      requires Valid()
      modifies this, cells
      ensures States(cells) == HiddenPass(old(States(cells)), kind).board
      ensures hasChanged == (old(hasChanged) || HiddenPass(old(States(cells)), kind).changed)
    {
      ghost var b := States(cells);
      for i := 0 to 9
        invariant States(cells) == HiddenUpTo(b, kind, i).board
        invariant hasChanged == (old(hasChanged) || HiddenUpTo(b, kind, i).changed)
      {
        CompareInUnit(kind, i);
      }
    }

    /** The visit of eliminateCandidateFromAxisOutsideRegion to the axis cell at position
        m: a cell outside the region that lists nr and is unset loses (the first
        occurrence of) nr, and hasChanged rises when it is left with one candidate. */
    method EliminateAt(cell: Cell, ghost m: int, nr: int, regionID: int)
      requires Valid() && 0 <= m < 81 && cell == cells[m]
      modifies this, cell
      ensures States(cells) == EliminateVisit(old(States(cells)), nr, regionID, m).board
      ensures hasChanged == (old(hasChanged) || EliminateVisit(old(States(cells)), nr, regionID, m).changed)
    {
      KeyOfIndex(cells, m, Region);
      if cell.regionID == regionID {
        return;
      }
      if nr in cell.candidates && !cell.IsSet() {
        cell.candidates := RemoveFirst(cell.candidates, nr);
        if cell.IsSet() {
          hasChanged := true;
        }
      }
    }

    /** eliminateCandidateFromAxisOutsideRegion: EliminateAt on every cell of the row or
        column, in order. */
    method EliminateCandidateFromAxisOutsideRegion(nr: int, regionID: int, axisIndex: int, kind: UnitKind)
      requires Valid()
      modifies this, cells
      ensures GridIndices(Members(kind, axisIndex))
      ensures States(cells) == EliminateOutside(old(States(cells)), nr, regionID, Members(kind, axisIndex)).board
      ensures hasChanged == (old(hasChanged) || EliminateOutside(old(States(cells)), nr, regionID, Members(kind, axisIndex)).changed)
    {
      ghost var b := States(cells);
      var group := CellsFrom(cells, kind, axisIndex, 0);
      CellsInUnit(cells, kind, axisIndex);
      ghost var ms := Members(kind, axisIndex);
      for t := 0 to |group|
        invariant States(cells) == EliminateUpTo(b, ms, nr, regionID, t).board
        invariant hasChanged == (old(hasChanged) || EliminateUpTo(b, ms, nr, regionID, t).changed)
      {
        EliminateAt(group[t], ms[t], nr, regionID);
      }
    }

    /** eliminateFromAxis' first scan of the region: some cell of it is set to nr. */
    method NumberSetInGroup(cellGroup: seq<Cell>, ghost ms: seq<int>, nr: int) returns (nrSet: bool)
      requires Valid() && GridIndices(ms) && cellGroup == Pick(cells, ms)
      ensures nrSet == NumberSetIn(States(cells), ms, nr)
    {
      ghost var b := States(cells);
      nrSet := false;
      for t := 0 to |cellGroup|
        invariant nrSet == NumberSetIn(b, ms[..t], nr)
      {
        assert ms[..t + 1][..t] == ms[..t];
        if cellGroup[t].IsSet() && cellGroup[t].GetValue() == Some(nr) {
          nrSet := true;
        }
      }
      assert ms[..|ms|] == ms;
    }

    /** eliminateFromAxis' second scan of the region: its unset cells that list nr
        (cellsWithCandidate), in region order, with their positions h. */
    method UnsetHolderCells(cellGroup: seq<Cell>, ghost ms: seq<int>, nr: int) returns (cellsWithCandidate: seq<Cell>, ghost h: seq<int>)
      requires Valid() && GridIndices(ms) && cellGroup == Pick(cells, ms)
      ensures h == UnsetHolders(States(cells), ms, nr)
      ensures cellsWithCandidate == Pick(cells, UnsetHolders(States(cells), ms, nr))
    {
      ghost var b := States(cells);
      cellsWithCandidate := [];
      h := [];
      for t := 0 to |cellGroup|
        invariant h == UnsetHolders(b, ms[..t], nr) && cellsWithCandidate == Pick(cells, h)
      {
        assert ms[..t + 1][..t] == ms[..t];
        if nr in cellGroup[t].candidates && !cellGroup[t].IsSet() {
          cellsWithCandidate := cellsWithCandidate + [cellGroup[t]];
          h := h + [ms[t]];
        }
      }
      assert ms[..|ms|] == ms;
    }

    /** eliminateFromAxis' third scan: whether all the cells found share the first one's
        row, and whether they all share its column. */
    method SharedAxes(cellsWithCandidate: seq<Cell>, ghost h: seq<int>) returns (allInRow: bool, allInColumn: bool)
      requires Valid() && GridIndices(h) && |h| >= 1 && cellsWithCandidate == Pick(cells, h)
      ensures allInRow == OnAxis(h, Row, Key(h[0], Row))
      ensures allInColumn == OnAxis(h, Column, Key(h[0], Column))
    {
      allInRow := true;
      allInColumn := true;
      var yAxis := cellsWithCandidate[0].y;
      var xAxis := cellsWithCandidate[0].x;
      KeyOfIndex(cells, h[0], Row);
      KeyOfIndex(cells, h[0], Column);
      for t := 0 to |cellsWithCandidate|
        invariant allInRow == OnAxis(h[..t], Row, yAxis)
        invariant allInColumn == OnAxis(h[..t], Column, xAxis)
      {
        KeyOfIndex(cells, h[t], Row);
        KeyOfIndex(cells, h[t], Column);
        assert h[..t + 1] == h[..t] + [h[t]];
        if cellsWithCandidate[t].y != yAxis {
          allInRow := false;
        }
        if cellsWithCandidate[t].x != xAxis {
          allInColumn := false;
        }
      }
      assert h[..|h|] == h;
    }

    /** eliminateFromAxis' handling of number nr in region regionID, whose cells are
        cellRegion: skipped when nr is set there or fewer than two unset cells list it;
        otherwise nr is removed outside the region from the row, then from the column,
        that all those cells share. */
    method EliminateNumberInRegion(cellRegion: seq<Cell>, ghost ms: seq<int>, regionID: int, nr: int)
      requires Valid() && GridIndices(ms) && cellRegion == Pick(cells, ms)
      modifies this, cells
      ensures States(cells) == AxisVisit(old(States(cells)), ms, regionID, nr).board
      ensures hasChanged == (old(hasChanged) || AxisVisit(old(States(cells)), ms, regionID, nr).changed)
    {
      var nrSetInRegion := NumberSetInGroup(cellRegion, ms, nr);
      if nrSetInRegion {
        return;
      }
      var cellsWithCandidate, h := UnsetHolderCells(cellRegion, ms, nr);
      if |cellsWithCandidate| < 2 {
        return;
      }
      var allInRow, allInColumn := SharedAxes(cellsWithCandidate, h);
      var yAxis := cellsWithCandidate[0].y;
      var xAxis := cellsWithCandidate[0].x;
      KeyOfIndex(cells, h[0], Row);
      KeyOfIndex(cells, h[0], Column);
      if allInRow {
        EliminateCandidateFromAxisOutsideRegion(nr, regionID, yAxis, Row);
      }
      if allInColumn {
        EliminateCandidateFromAxisOutsideRegion(nr, regionID, xAxis, Column);
      }
    }

    /** eliminateFromAxis on region regionID: skipped when the region is complete;
        otherwise numbers 1..9 in turn, each seeing the eliminations made for the earlier
        ones. */
    method EliminateInRegion(regionID: int)
      requires Valid()
      modifies this, cells
      ensures States(cells) == AxisRegion(old(States(cells)), regionID).board
      ensures hasChanged == (old(hasChanged) || AxisRegion(old(States(cells)), regionID).changed)
    {
      ghost var b := States(cells);
      var cellRegion := CellsFrom(cells, Region, regionID, 0);
      CellsInUnit(cells, Region, regionID);
      ghost var ms := Members(Region, regionID);
      var complete := IsGroupComplete(cellRegion);
      assert forall t :: 0 <= t < |ms| ==> cellRegion[t].candidates == b[ms[t]].candidates;
      IsGroupCompleteIff(b, ms);
      if complete {
        return;
      }
      for nr := 1 to 10
        invariant States(cells) == AxisNumbersUpTo(b, ms, regionID, nr - 1).board
        invariant hasChanged == (old(hasChanged) || AxisNumbersUpTo(b, ms, regionID, nr - 1).changed)
      {
        EliminateNumberInRegion(cellRegion, ms, regionID, nr);
      }
    }

    /** eliminateFromAxis: the regions 0..8 in turn. */
    method EliminateFromAxis()
      requires Valid()
      modifies this, cells
      ensures States(cells) == AxisPass(old(States(cells))).board
      ensures hasChanged == (old(hasChanged) || AxisPass(old(States(cells))).changed)
    {
      ghost var b := States(cells);
      for regionID := 0 to 9
        invariant States(cells) == AxisUpTo(b, regionID).board
        invariant hasChanged == (old(hasChanged) || AxisUpTo(b, regionID).changed)
      {
        EliminateInRegion(regionID);
      }
    }

    /** solveByExhaustion: finds the first unset cell in row-major order and runs the
        candidate loop there; returns at once when every cell is set. */
    method SolveByExhaustion()
      requires Valid()
      modifies cells
      ensures States(cells) == Exhaust(old(States(cells)))
      decreases UnsetCount(States(cells)), 2
    {
      var found, y, x := FirstUnsetPosition();
      if found {
        var cell := FindCell(cells, y, x);
        TryCandidatesAt(cell, 9 * y + x);
      }
    }

    /** solveByExhaustion's scan of rows 0..8 and, within a row, columns 0..8 for a cell
        that is not set. */
    method FirstUnsetPosition() returns (found: bool, y: int, x: int)
      requires Valid()
      ensures found ==> 0 <= y < 9 && 0 <= x < 9 && FirstUnset(States(cells), 0) == 9 * y + x
      ensures !found ==> FirstUnset(States(cells), 0) == 81
    {
      ghost var b := States(cells);
      for row := 0 to 9
        invariant forall j :: 0 <= j < 9 * row ==> IsSet(b[j].candidates)
      {
        for column := 0 to 9
          invariant forall j :: 0 <= j < 9 * row + column ==> IsSet(b[j].candidates)
        {
          var cell := FindCell(cells, row, column);
          assert b[9 * row + column].candidates == cell.candidates;
          if !cell.IsSet() {
            FirstUnsetAt(b, 9 * row + column);
            return true, row, column;
          }
        }
      }
      FirstUnsetAt(b, 81);
      return false, 0, 0;
    }

    /** solveByExhaustion's candidate loop at the first unset cell, at position i: each
        candidate of the list the cell held when the loop began is tried in turn, and
        the loop stops once a placement leads to a solved grid. */
    method TryCandidatesAt(cell: Cell, ghost i: int)
      requires Valid() && 0 <= i < 81 && cell == cells[i] && !cell.IsSet()
      modifies cells
      ensures States(cells) == TryCandidates(old(States(cells)), i, old(cell.candidates))
      decreases UnsetCount(States(cells)), 1
    {
      ghost var b := States(cells);
      assert cell.Position() == i;
      var cs := cell.candidates;
      for t := 0 to |cs|
        invariant SameCandidates(States(cells), b)
        invariant TryCandidates(States(cells), i, cs[t..]) == TryCandidates(b, i, cs)
      {
        ghost var bt := States(cells);
        UnsetCountSame(bt, b);
        assert cs[t..][0] == cs[t] && cs[t..][1..] == cs[t + 1..];
        var ok := IsValidNumber(cell, cs[t]);
        if ok {
          var candidateStorage := cell.candidates;
          var solved := PlaceAndSearch(cell, i, cs[t]);
          if solved {
            return;
          }
          ghost var r := States(cells);
          RestoreCandidates(cell, i, candidateStorage);
          RestoredSame(bt, bt[i := Fixed(cs[t])], r, i);
        }
      }
    }

    /** The candidate loop's `cell.candidates = candidateStorage`: only that cell's list
        changes. */
    method RestoreCandidates(cell: Cell, ghost i: int, candidateStorage: seq<int>)
      requires Valid() && 0 <= i < 81 && cell == cells[i]
      modifies cell
      ensures States(cells) == old(States(cells))[i := CellState(candidateStorage, old(cell.absolute))]
    {
      cell.candidates := candidateStorage;
    }

    /** One placement of the candidate loop: the cell is fixed to v and the rest of the
        grid is searched; the result says whether the grid is now solved. */
    method PlaceAndSearch(cell: Cell, ghost i: int, v: int) returns (solved: bool)
      requires Valid() && 0 <= i < 81 && cell == cells[i] && !cell.IsSet()
      modifies cells
      ensures States(cells) == Exhaust(old(States(cells))[i := Fixed(v)])
      ensures solved == Grid.IsSolved(States(cells))
      decreases UnsetCount(States(cells)), 0
    {
      ghost var b := States(cells);
      cell.MakeAbsolute(v);
      assert States(cells) == b[i := Fixed(v)];
      UnsetCountFix(b, i, Fixed(v));
      SolveByExhaustion();
      solved := IsSolved();
    }

    /** The rule battery of solve's loop: hasChanged is cleared and the five rule
        passes run in order, each on the lists the previous one left. */
    method ApplyRules()
      requires Valid()
      modifies this, cells
      ensures States(cells) == RuleBattery(old(States(cells))).board
      ensures hasChanged == RuleBattery(old(States(cells))).changed
    {
      hasChanged := false;
      CompareToAbsolutes();
      CompareToCandidates(Region);
      CompareToCandidates(Row);
      CompareToCandidates(Column);
      EliminateFromAxis();
    }

    /** One pass of solve's loop: the rule battery, then the search when none of the
        rules raised hasChanged; the result is the loop's exit test, isSolved. */
    method SolveStep() returns (solved: bool)
      requires Valid()
      modifies this, cells
      ensures States(cells) == Turn(old(States(cells)))
      ensures hasChanged == RuleBattery(old(States(cells))).changed
      ensures solved == Grid.IsSolved(States(cells))
    {
      ApplyRules();
      if !hasChanged {
        SolveByExhaustion();
      }
      solved := IsSolved();
    }
  }
}
