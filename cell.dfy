/** A cell of the grid as an object, and the list of 81 cells both Sudoku classes hold.

    Cell follows the Cell class of classes.py; sudoku.py imports the same class from a
    cell module whose region field is called regionID and whose makeAbsolute takes only
    the value. A cell's coordinates never change after construction; its candidate list
    and its absolute flag are updated in place by the solving passes. */
module CellModel {
  import opened Candidates
  import opened Grid
  import opened Text

  class Cell {
    const y: int
    const x: int
    const regionID: int
    var candidates: seq<int>
    var absolute: bool

    /** A fresh cell at row y, column x: every digit is a candidate, nothing is fixed yet. */
    constructor (y: int, x: int)
      ensures this.y == y && this.x == x && regionID == CalcRegionID(y, x)
      ensures candidates == AllDigits && !absolute
    {
      this.y := y;
      this.x := x;
      regionID := CalcRegionID(y, x);
      candidates := AllDigits;
      absolute := false;
    }

    /** The coordinate the conflict lambdas compare for a unit kind: x, y or regionID. */
    function KeyOf(kind: UnitKind): int
    {
      match kind
      case Row => y
      case Column => x
      case Region => regionID
    }

    /** The cell's place in row-major order. */
    function Position(): int
    {
      9 * y + x
    }

    /** Fixes the cell to value: its list becomes [value] and it is marked absolute. */
    method MakeAbsolute(value: int)
      modifies this
      ensures candidates == [value] && absolute
    {
      absolute := true;
      candidates := [value];
    }

    /** The cell is set when exactly one candidate is left. */
    function IsSet(): (r: bool)
      reads this
      ensures r <==> |candidates| == 1
    {
      Candidates.IsSet(candidates)
    }

    /** The value of a set cell; None for an unset one. */
    function GetValue(): (r: Option<int>)
      reads this
      ensures r.Some? <==> IsSet()
      ensures r.Some? ==> candidates == [r.value]
    {
      Candidates.GetValue(candidates)
    }

    /** other is a set cell, not this one, that shares this cell's unit of the given kind
        and holds v. */
    ghost predicate Blocks(other: Cell, v: int, kind: UnitKind)
      reads this, other
    {
      other.IsSet() && this != other && KeyOf(kind) == other.KeyOf(kind) && other.GetValue() == Some(v)
    }

    /** Some cell of the list blocks v along the given kind. */
    ghost predicate ConflictIn(v: int, kind: UnitKind, cells: seq<Cell>)
      reads this, cells
    {
      exists j :: 0 <= j < |cells| && Blocks(cells[j], v, kind)
    }

    /** v conflicts with no cell of the list in this cell's column, row or region. */
    ghost predicate ValidIn(v: int, cells: seq<Cell>)
      reads this, cells
    {
      !ConflictIn(v, Column, cells) && !ConflictIn(v, Row, cells) && !ConflictIn(v, Region, cells)
    }

    /** The candidates of cs that are valid against the list, in their order. */
    ghost function ValidFilter(cs: seq<int>, cells: seq<Cell>): seq<int>
      reads this, cells
      decreases |cs|
    {
      if cs == [] then []
      else ValidFilter(cs[..|cs| - 1], cells) + (if ValidIn(cs[|cs| - 1], cells) then [cs[|cs| - 1]] else [])
    }

    /** Scans the list for a set cell other than this one that shares the unit of the
        given kind and holds v. The source returns None when the scan finds nothing,
        which its callers read as false. */
    method PositionConflict(v: int, kind: UnitKind, cells: seq<Cell>) returns (r: bool)
      ensures r <==> ConflictIn(v, kind, cells)
    {
      for n := 0 to |cells|
        invariant forall j :: 0 <= j < n ==> !Blocks(cells[j], v, kind)
      {
        var cell := cells[n];
        if !cell.IsSet() {
          continue;
        }
        if this == cell {
          continue;
        }
        if KeyOf(kind) == cell.KeyOf(kind) && v == cell.GetValue().value {
          assert Blocks(cells[n], v, kind);
          return true;
        }
      }
      return false;
    }

    /** v may go in this cell: the column, row and region scans all find no conflict. */
    method IsValidNumber(v: int, cells: seq<Cell>) returns (r: bool)
      ensures r <==> ValidIn(v, cells)
    {
      var conflict := PositionConflict(v, Column, cells);
      if conflict {
        return false;
      }
      conflict := PositionConflict(v, Row, cells);
      if conflict {
        return false;
      }
      conflict := PositionConflict(v, Region, cells);
      if conflict {
        return false;
      }
      return true;
    }

    /** Drops every candidate that IsValidNumber rejects against the list, keeping the
        order of the others. Every candidate is judged against the list as it was on
        entry, since the cell's own list is replaced only at the end. */
    method UpdateCandidates(cells: seq<Cell>)
      modifies this
      ensures candidates == old(ValidFilter(candidates, cells))
      ensures absolute == old(absolute)
    {
      var cs := candidates;
      var newCandidates := [];
      for t := 0 to |cs|
        invariant unchanged(this)
        invariant newCandidates == ValidFilter(cs[..t], cells)
      {
        var ok := IsValidNumber(cs[t], cells);
        assert cs[..t + 1][..t] == cs[..t];
        if ok {
          newCandidates := newCandidates + [cs[t]];
        }
      }
      assert cs[..|cs|] == cs;
      candidates := newCandidates;
    }
  }

  /** The cell list both Sudoku classes build: 81 cells in row-major order, each knowing
      its own row, column and region. The cell at position i has Position() == i, so
      no cell is listed twice. */
  predicate Grid81(cells: seq<Cell>)
  {
    |cells| == 81 &&
    forall i :: 0 <= i < 81 ==>
      cells[i].Position() == i && cells[i].y == i / 9 && cells[i].x == i % 9 &&
      cells[i].regionID == CalcRegionID(i / 9, i % 9)
  }

  /** The cells' current candidate lists and flags, as a board. */
  function States(cells: seq<Cell>): (b: Board)
    reads cells
    ensures |b| == |cells|
  {
    seq(|cells|, i requires 0 <= i < |cells| reads cells => CellState(cells[i].candidates, cells[i].absolute))
  }

  /** The board of 81 fresh cells. */
  function FreshBoard(): (b: Board)
    ensures |b| == 81
  {
    seq(81, i => CellState(AllDigits, false))
  }

  /** A cell's own coordinate along a kind is the board coordinate of its index. */
  lemma KeyOfIndex(cells: seq<Cell>, i: int, kind: UnitKind)
    requires Grid81(cells) && 0 <= i < 81
    ensures cells[i].KeyOf(kind) == Key(i, kind)
  {
  }

  /** initCells: the 81 cells, row by row, each new. */
  method InitCells() returns (cells: seq<Cell>)
    ensures Grid81(cells)
    ensures forall i :: 0 <= i < |cells| ==> fresh(cells[i])
    ensures States(cells) == FreshBoard()
  {
    cells := [];
    for y := 0 to 9
      invariant |cells| == 9 * y
      invariant forall i :: 0 <= i < |cells| ==>
        cells[i].Position() == i && cells[i].y == i / 9 && cells[i].x == i % 9 &&
        cells[i].regionID == CalcRegionID(i / 9, i % 9)
      invariant forall i :: 0 <= i < |cells| ==> fresh(cells[i]) && cells[i].candidates == AllDigits && !cells[i].absolute
    {
      for x := 0 to 9
        invariant |cells| == 9 * y + x
        invariant forall i :: 0 <= i < |cells| ==>
          cells[i].Position() == i && cells[i].y == i / 9 && cells[i].x == i % 9 &&
          cells[i].regionID == CalcRegionID(i / 9, i % 9)
        invariant forall i :: 0 <= i < |cells| ==> fresh(cells[i]) && cells[i].candidates == AllDigits && !cells[i].absolute
        {
        var cell := new Cell(y, x);
        cells := cells + [cell];
      }
    }
  }

  /** getCell: the scan for the cell at row y, column x finds cells[9 * y + x]. */
  method FindCell(cells: seq<Cell>, y: int, x: int) returns (c: Cell)
    requires Grid81(cells) && 0 <= y < 9 && 0 <= x < 9
    ensures c == cells[9 * y + x]
  {
    var n := 0;
    while !(cells[n].x == x && cells[n].y == y)
      invariant 0 <= n <= 9 * y + x
      decreases 9 * y + x - n
    {
      n := n + 1;
    }
    c := cells[n];
  }

  /** absoluteEntry: the cell at row y, column x is fixed to value; no other cell changes. */
  method AbsoluteEntry(cells: seq<Cell>, value: int, y: int, x: int)
    requires Grid81(cells) && 0 <= y < 9 && 0 <= x < 9
    modifies cells
    ensures States(cells) == old(States(cells))[9 * y + x := Fixed(value)]
  {
    var cell := FindCell(cells, y, x);
    cell.MakeAbsolute(value);
  }

  /** The entry loop of textToAbsolutes: walks the characters with a row and a column
      counter, enters every non-'.' character as a fixed digit, and returns after the
      character for row 8, column 8, so characters past the 81st are never read. The
      caller guarantees that every character read converts with int(). */
  method EnterClues(cells: seq<Cell>, text: string)
    requires Grid81(cells)
    requires forall k :: 0 <= k < |text| && k < 81 ==> text[k] == '.' || '0' <= text[k] <= '9'
    modifies cells
    ensures States(cells) == Entered(old(States(cells)), text)
  {
    ghost var b := States(cells);
    var y, x := 0, 0;
    for k := 0 to |text|
      invariant k <= 80 && 0 <= y < 9 && 0 <= x < 9 && 9 * y + x == k
      invariant forall i :: 0 <= i < 81 ==>
        States(cells)[i] == if i < k && text[i] != '.' then Fixed(DigitValue(text[i])) else b[i]
    {
      if text[k] != '.' {
        AbsoluteEntry(cells, DigitValue(text[k]), y, x);
      }
      if y == 8 && x == 8 {
        assert States(cells) == Entered(b, text);
        return;
      }
      if x == 8 {
        y := y + 1;
      }
      x := (x + 1) % 9;
    }
    assert States(cells) == Entered(b, text);
  }

  /** The cells of positions k..80 whose coordinate along kind is id, in list order:
      the comprehensions getCellsInRow, getCellsInColumn and getCellsInRegion, and the
      loop of getCellsIn3x3. */
  function CellsFrom(cells: seq<Cell>, kind: UnitKind, id: int, k: nat): seq<Cell>
    requires k <= |cells|
    decreases |cells| - k
  {
    if k == |cells| then []
    else (if cells[k].KeyOf(kind) == id then [cells[k]] else []) + CellsFrom(cells, kind, id, k + 1)
  }

  /** The cells at the listed positions. */
  function Pick(cells: seq<Cell>, ms: seq<int>): (r: seq<Cell>)
    requires forall t :: 0 <= t < |ms| ==> 0 <= ms[t] < |cells|
    ensures |r| == |ms|
  {
    seq(|ms|, t requires 0 <= t < |ms| => cells[ms[t]])
  }

  lemma PickCons(cells: seq<Cell>, k: int, ms: seq<int>)
    requires 0 <= k < |cells| && forall t :: 0 <= t < |ms| ==> 0 <= ms[t] < |cells|
    ensures Pick(cells, [k] + ms) == [cells[k]] + Pick(cells, ms)
  {
    assert forall t :: 0 <= t < |ms| ==> ([k] + ms)[t + 1] == ms[t];
  }

  lemma {:induction false} CellsFromMembers(cells: seq<Cell>, kind: UnitKind, id: int, k: nat)
    requires Grid81(cells) && k <= 81
    ensures GridIndices(MembersFrom(kind, id, k))
    ensures CellsFrom(cells, kind, id, k) == Pick(cells, MembersFrom(kind, id, k))
    decreases 81 - k
  {
    MembersFromIn(kind, id, k);
    if k < 81 {
      CellsFromMembers(cells, kind, id, k + 1);
      KeyOfIndex(cells, k, kind);
      if Key(k, kind) == id {
        PickCons(cells, k, MembersFrom(kind, id, k + 1));
      }
    }
  }

  /** The cells gathered for unit (kind, id) are exactly the cells at Members(kind, id),
      in the same order: nine cells, one per member index. */
  lemma CellsInUnit(cells: seq<Cell>, kind: UnitKind, id: int)
    requires Grid81(cells)
    ensures GridIndices(Members(kind, id))
    ensures CellsFrom(cells, kind, id, 0) == Pick(cells, Members(kind, id))
  {
    CellsFromMembers(cells, kind, id, 0);
  }

  /** The gathered cells are exactly the cells from position k on whose coordinate for
      the kind is id. */
  lemma {:induction false} CellsFromExactly(cells: seq<Cell>, kind: UnitKind, id: int, k: nat)
    requires k <= |cells|
    ensures forall c :: c in CellsFrom(cells, kind, id, k) ==> c in cells[k..] && c.KeyOf(kind) == id
    ensures forall j :: k <= j < |cells| && cells[j].KeyOf(kind) == id ==> cells[j] in CellsFrom(cells, kind, id, k)
    decreases |cells| - k
  {
    if k < |cells| {
      CellsFromExactly(cells, kind, id, k + 1);
      assert cells[k..] == [cells[k]] + cells[k + 1..];
    }
  }

  /** The cell-level conflict scan over the grid's own list is positionConflict on the
      board of its states. */
  lemma ConflictInIff(cells: seq<Cell>, i: int, v: int, kind: UnitKind)
    requires Grid81(cells) && 0 <= i < 81
    ensures cells[i].ConflictIn(v, kind, cells) <==> Grid.PositionConflict(States(cells), i, v, kind)
  {
    var b := States(cells);
    PositionConflictIff(b, i, v, kind);
    if cells[i].ConflictIn(v, kind, cells) {
      var j :| 0 <= j < |cells| && cells[i].Blocks(cells[j], v, kind);
      KeyOfIndex(cells, i, kind);
      KeyOfIndex(cells, j, kind);
      assert IsSet(b[j].candidates) && j != i && Key(i, kind) == Key(j, kind) && v == b[j].candidates[0];
    }
    if Grid.PositionConflict(b, i, v, kind) {
      var j :| 0 <= j < |b| && IsSet(b[j].candidates) && j != i && Key(i, kind) == Key(j, kind) && v == b[j].candidates[0];
      KeyOfIndex(cells, i, kind);
      KeyOfIndex(cells, j, kind);
      assert cells[i].Blocks(cells[j], v, kind);
    }
  }

  /** The cell-level validity test over the grid's own list is isValidNumber on the board. */
  lemma ValidInIff(cells: seq<Cell>, i: int, v: int)
    requires Grid81(cells) && 0 <= i < 81
    ensures cells[i].ValidIn(v, cells) <==> Grid.IsValidNumber(States(cells), i, v)
  {
    ConflictInIff(cells, i, v, Column);
    ConflictInIff(cells, i, v, Row);
    ConflictInIff(cells, i, v, Region);
  }

  /** updateCandidates over the grid's own list keeps exactly the candidates that are
      valid on the board: ValidCandidates, whose properties Grid proves. */
  lemma {:induction false} ValidFilterIs(cells: seq<Cell>, i: int, cs: seq<int>)
    requires Grid81(cells) && 0 <= i < 81
    ensures cells[i].ValidFilter(cs, cells) == ValidCandidates(States(cells), i, cs)
    decreases |cs|
  {
    if cs != [] {
      var front := cs[..|cs| - 1];
      ValidFilterIs(cells, i, front);
      ValidInIff(cells, i, cs[|cs| - 1]);
      ValidCandidatesSnoc(States(cells), i, front, cs[|cs| - 1]);
      assert front + [cs[|cs| - 1]] == cs;
    }
  }
}
