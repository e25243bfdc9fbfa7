/** The earlier engine of classes.py: a grid of the same cells whose only rule is
    updateAllCandidates, which asks every cell, set or not, to keep just the candidates
    that no set peer holds.

    The cell class itself, the cell list, getCell, absoluteEntry and the unchecked
    clue loader are shared with the later engine and live in CellModel. */
module Prototype {
  import opened Candidates
  import opened Grid
  import opened Rules
  import opened CellModel

  /** updateCandidates on cell k of board b: the cell keeps the candidates that are
      valid on b, in order; its absolute flag stays. Unlike compareToAbsolutes, a set
      cell is not skipped. */
  function UpdateVisit(b: Board, k: int): (r: Board)
    requires 0 <= k < |b|
    ensures |r| == |b|
  {
    b[k := CellState(ValidCandidates(b, k, b[k].candidates), b[k].absolute)]
  }

  /** updateAllCandidates after it has visited cells 0..k-1; each visit sees the lists
      left by the earlier ones. */
  function UpdateAllUpTo(b: Board, k: nat): (r: Board)
    requires k <= |b|
    ensures |r| == |b|
    decreases k, b
  {
    if k == 0 then b else UpdateVisit(UpdateAllUpTo(b, k - 1), k - 1)
  }

  /** One whole updateAllCandidates pass. */
  function UpdateAll(b: Board): Board
  {
    UpdateAllUpTo(b, |b|)
  }

  /** On an unset cell the prototype's update is the naked-single visit of the later
      engine; a set cell whose value no set peer holds is left as it is. */
  lemma UpdateVisitNaked(b: Board, k: int)
    requires 0 <= k < |b|
    ensures !IsSet(b[k].candidates) ==> UpdateVisit(b, k) == NakedVisit(b, k).board
    ensures IsSet(b[k].candidates) && IsValidNumber(b, k, b[k].candidates[0]) ==> UpdateVisit(b, k) == b
  {
    if IsSet(b[k].candidates) {
      var cs := b[k].candidates;
      assert cs == [cs[0]] && ValidCandidates(b, k, cs[1..]) == [];
      if IsValidNumber(b, k, cs[0]) {
        assert ValidCandidates(b, k, cs) == [cs[0]] + [] == cs;
        assert b[k := CellState(cs, b[k].absolute)] == b;
      }
    }
  }

  /** A set cell one of whose peers is set to the same value loses its only candidate:
      updateAllCandidates checks set cells too. */
  lemma UpdateVisitEmpties(b: Board, k: int)
    requires 0 <= k < |b| && IsSet(b[k].candidates) && !IsValidNumber(b, k, b[k].candidates[0])
    ensures UpdateVisit(b, k)[k].candidates == []
  {
    var cs := b[k].candidates;
    assert ValidCandidates(b, k, cs[1..]) == [];
  }

  /** The pass only shrinks lists, keeps every absolute flag, and leaves the cells it
      has not reached as they were. */
  lemma {:induction false} UpdateAllUpToShrinks(b: Board, k: nat)
    requires k <= |b|
    ensures forall i :: 0 <= i < |b| ==>
      Sublist(UpdateAllUpTo(b, k)[i].candidates, b[i].candidates) && UpdateAllUpTo(b, k)[i].absolute == b[i].absolute
    ensures forall i :: k <= i < |b| ==> UpdateAllUpTo(b, k)[i] == b[i]
    decreases k
  {
    if k == 0 {
      forall i | 0 <= i < |b| ensures Sublist(b[i].candidates, b[i].candidates) {
        SublistRefl(b[i].candidates);
      }
    } else {
      UpdateAllUpToShrinks(b, k - 1);
      var p := UpdateAllUpTo(b, k - 1);
      var r := UpdateAllUpTo(b, k);
      ValidCandidatesSpec(p, k - 1, p[k - 1].candidates);
      forall i | 0 <= i < |b|
        ensures Sublist(r[i].candidates, b[i].candidates) && r[i].absolute == b[i].absolute
      {
        if i == k - 1 {
          SublistTrans(r[i].candidates, p[i].candidates, b[i].candidates);
        }
      }
    }
  }

  /** The pass is sound: a solution that agrees with every list before it still agrees
      after it, so with a solution in reach no list is ever emptied. */
  lemma {:induction false} UpdateAllUpToKeepsSolution(b: Board, k: nat, s: seq<int>)
    requires k <= |b| && IsSolution(s) && Compatible(s, b)
    ensures Compatible(s, UpdateAllUpTo(b, k))
    decreases k
  {
    if k > 0 {
      UpdateAllUpToKeepsSolution(b, k - 1, s);
      var p := UpdateAllUpTo(b, k - 1);
      forall j | 0 <= j < |p| && j != k - 1 && Peers(k - 1, j) && IsSet(p[j].candidates)
        ensures GetValue(p[j].candidates) != Some(s[k - 1])
      {
        assert s[j] in p[j].candidates;
        assert s[j] != s[k - 1];
      }
      IsValidNumberIff(p, k - 1, s[k - 1]);
      ValidCandidatesSpec(p, k - 1, p[k - 1].candidates);
    }
  }

  /** classes.py's Sudoku: the cell list and the candidate update over all cells. */
  class Sudoku {
    const cells: seq<Cell>

    predicate Valid()
    {
      Grid81(cells)
    }

    /** A new grid: initCells' 81 fresh cells, every one listing all nine digits. */
    constructor ()
      ensures Valid() && States(cells) == FreshBoard()
      ensures forall i :: 0 <= i < |cells| ==> fresh(cells[i])
    {
      var cs := InitCells();
      cells := cs;
    }

    /** getCellsIn3x3: the cells of region id, in grid order; exactly the cells of the
        grid whose region is id, nine of them for a region 0..8. */
    method GetCellsIn3x3(id: int) returns (r: seq<Cell>)
      requires Valid()
      ensures GridIndices(Members(Region, id)) && r == Pick(cells, Members(Region, id))
      ensures forall c :: c in r <==> c in cells && c.regionID == id
      ensures 0 <= id < 9 ==> |r| == 9
    {
      r := [];
      for n := 0 to |cells|
        invariant r + CellsFrom(cells, Region, id, n) == CellsFrom(cells, Region, id, 0)
      {
        ghost var rest := CellsFrom(cells, Region, id, n + 1);
        assert CellsFrom(cells, Region, id, n) == (if cells[n].regionID == id then [cells[n]] else []) + rest;
        if cells[n].regionID == id {
          assert (r + [cells[n]]) + rest == r + ([cells[n]] + rest);
          r := r + [cells[n]];
        } else {
          assert [] + rest == rest;
        }
      }
      CellsInUnit(cells, Region, id);
      CellsFromExactly(cells, Region, id, 0);
      assert cells[0..] == cells;
      forall c | c in cells && c.regionID == id ensures c in r {
        var j :| 0 <= j < |cells| && cells[j] == c;
      }
      if 0 <= id < 9 {
        MembersSize(Region, id);
      }
    }

    /** updateCandidates on the cell at position k, against the whole grid. */
    method UpdateAt(k: int)
      requires Valid() && 0 <= k < 81
      modifies cells[k]
      ensures States(cells) == UpdateVisit(old(States(cells)), k)
    {
      var cell := cells[k];
      ValidFilterIs(cells, k, cell.candidates);
      cell.UpdateCandidates(cells);
    }

    /** updateAllCandidates: every cell, in grid order, updates its list against the
        cells as they stand, seeing the updates of the cells before it. */
    method UpdateAllCandidates()
      requires Valid()
      modifies cells
      ensures States(cells) == UpdateAll(old(States(cells)))
    {
      ghost var b := States(cells);
      for k := 0 to 81
        invariant States(cells) == UpdateAllUpTo(b, k)
      {
        UpdateAt(k);
      }
    }
  }
}
