/** The grid as a value: 81 cell states in row-major order, so that index 9*y + x
    holds the cell at row y, column x. This module gives the units (rows, columns,
    regions), the peer-conflict test the rules use, and the vocabulary in which the
    rules' guarantees are stated. */
module Grid {
  import opened Candidates

  type Board = seq<CellState>

  /** The three kinds of unit. The source passes a getter or a comparison lambda
      where this model passes a UnitKind. */
  datatype UnitKind = Row | Column | Region

  /** The result of one rule pass: the new board and whether the pass raised the
      hasChanged flag. */
  datatype Pass = Pass(board: Board, changed: bool)

  /** The coordinate of cell i along a unit kind: its y, its x or its regionID. */
  function Key(i: int, kind: UnitKind): int
  {
    match kind
    case Row => i / 9
    case Column => i % 9
    case Region => CalcRegionID(i / 9, i % 9)
  }

  /** Two cells share a row, a column or a region. */
  predicate Peers(i: int, j: int)
  {
    Key(i, Row) == Key(j, Row) || Key(i, Column) == Key(j, Column) || Key(i, Region) == Key(j, Region)
  }

  /** The indices k..80 that lie in unit (kind, id), in increasing order: the list
      comprehension over the grid's cells that getCellsInRow, getCellsInColumn and
      getCellsInRegion evaluate. */
  function MembersFrom(kind: UnitKind, id: int, k: nat): seq<int>
    requires k <= 81
    decreases 81 - k, id  // naming id keeps a literal k alone from expanding the whole list
  {
    if k == 81 then []
    else if Key(k, kind) == id then [k] + MembersFrom(kind, id, k + 1)
    else MembersFrom(kind, id, k + 1)
  }

  /** The indices of ms are strictly increasing, so no index is listed twice. */
  predicate Increasing(ms: seq<int>)
  {
    forall s, t :: 0 <= s < t < |ms| ==> ms[s] < ms[t]
  }

  /** An increasing list repeats no value, so it holds one value at most once. */
  lemma IncreasingAllSame(h: seq<int>, i: int)
    requires Increasing(h)
    ensures (forall t :: 0 <= t < |h| ==> h[t] == i) ==> |h| <= 1
  {
    if |h| >= 2 {
      assert h[0] < h[1];
    }
  }

  /** The cells of unit (kind, id), in grid order. */
  function Members(kind: UnitKind, id: int): seq<int>
  {
    MembersFrom(kind, id, 0)
  }

  /** Every index listed lies in k..80 and in the unit. */
  lemma {:induction false} MembersFromIn(kind: UnitKind, id: int, k: nat)
    requires k <= 81
    ensures forall t :: 0 <= t < |MembersFrom(kind, id, k)| ==>
      k <= MembersFrom(kind, id, k)[t] < 81 && Key(MembersFrom(kind, id, k)[t], kind) == id
    decreases 81 - k
  {
    if k < 81 {
      MembersFromIn(kind, id, k + 1);
    }
  }

  /** The comprehension lists its indices in increasing order. */
  lemma {:induction false} MembersFromIncreasing(kind: UnitKind, id: int, k: nat)
    requires k <= 81
    ensures Increasing(MembersFrom(kind, id, k))
    decreases 81 - k
  {
    if k < 81 {
      MembersFromIncreasing(kind, id, k + 1);
      MembersFromIn(kind, id, k + 1);
    }
  }

  /** Every index k..80 of the unit is listed. */
  lemma {:induction false} MembersFromHas(kind: UnitKind, id: int, k: nat, i: int)
    requires k <= i < 81 && Key(i, kind) == id
    ensures i in MembersFrom(kind, id, k)
    decreases 81 - k
  {
    if k < i {
      MembersFromHas(kind, id, k + 1, i);
    }
  }

  /** The members of a unit are cells of the grid inside that unit, in grid order. */
  lemma MembersIn(kind: UnitKind, id: int)
    ensures forall t :: 0 <= t < |Members(kind, id)| ==> 0 <= Members(kind, id)[t] < 81 && Key(Members(kind, id)[t], kind) == id
    ensures Increasing(Members(kind, id))
  {
    MembersFromIn(kind, id, 0);
    MembersFromIncreasing(kind, id, 0);
  }

  lemma MembersIndices(kind: UnitKind, id: int)
    ensures GridIndices(Members(kind, id))
  {
    MembersFromIn(kind, id, 0);
  }

  /** Every cell of the unit is listed. */
  lemma MembersHas(kind: UnitKind, id: int, k: int)
    requires 0 <= k < 81 && Key(k, kind) == id
    ensures k in Members(kind, id)
  {
    MembersFromHas(kind, id, 0, k);
  }

  /** The cells x..8 of row r that lie in unit (kind, id). */
  function RowHits(kind: UnitKind, id: int, r: int, x: nat): nat
    requires x <= 9
    decreases 9 - x, id
  {
    if x == 9 then 0 else (if Key(9 * r + x, kind) == id then 1 else 0) + RowHits(kind, id, r, x + 1)
  }

  /** The cells of rows r..8 that lie in unit (kind, id). */
  function GridHits(kind: UnitKind, id: int, r: nat): nat
    requires r <= 9
    decreases 9 - r, id
  {
    if r == 9 then 0 else RowHits(kind, id, r, 0) + GridHits(kind, id, r + 1)
  }

  /** Row r, column x is index 9*r + x. */
  lemma KeyAt(r: int, x: int)
    requires 0 <= r < 9 && 0 <= x < 9
    ensures Key(9 * r + x, Row) == r && Key(9 * r + x, Column) == x
    ensures Key(9 * r + x, Region) == 3 * (r / 3) + x / 3
  {
    assert (9 * r + x) / 9 == r && (9 * r + x) % 9 == x;
  }

  /** The unit's indices from 9*r + x on are the hits in the rest of row r and then those
      from row r + 1 on. */
  lemma {:induction false} MembersFromInRow(kind: UnitKind, id: int, r: int, x: nat)
    requires 0 <= r < 9 && x <= 9
    ensures |MembersFrom(kind, id, 9 * r + x)| == RowHits(kind, id, r, x) + |MembersFrom(kind, id, 9 * r + 9)|
    decreases 9 - x
  {
    if x < 9 {
      MembersFromInRow(kind, id, r, x + 1);
    }
  }

  /** The unit's indices from row r on are its hits in rows r..8. */
  lemma {:induction false} MembersFromRows(kind: UnitKind, id: int, r: nat)
    requires r <= 9
    ensures |MembersFrom(kind, id, 9 * r)| == GridHits(kind, id, r)
    decreases 9 - r
  {
    if r < 9 {
      MembersFromInRow(kind, id, r, 0);
      MembersFromRows(kind, id, r + 1);
    }
  }

  /** A row meets a row unit in nine cells or none, and a column in one cell. */
  lemma {:induction false} RowHitsCount(kind: UnitKind, id: int, r: int, x: nat)
    requires 0 <= r < 9 && 0 <= id < 9 && x <= 9 && kind != Region
    ensures kind == Row ==> RowHits(kind, id, r, x) == (if r == id then 9 - x else 0)
    ensures kind == Column ==> RowHits(kind, id, r, x) == (if x <= id then 1 else 0)
    decreases 9 - x
  {
    if x < 9 {
      RowHitsCount(kind, id, r, x + 1);
      KeyAt(r, x);
    }
  }

  /** A row meets a region in three cells or none; c is the region's first column. */
  lemma {:induction false} RegionRowHits(id: int, r: int, x: nat, c: int)
    requires 0 <= r < 9 && 0 <= id < 9 && x <= 9 && c == 3 * (id % 3)
    ensures RowHits(Region, id, r, x) == if r / 3 != id / 3 then 0 else if x <= c then 3 else if x < c + 3 then c + 3 - x else 0
    decreases 9 - x
  {
    if x < 9 {
      RegionRowHits(id, r, x + 1, c);
      KeyAt(r, x);
      RegionKey(r, x, id);
    }
  }

  /** Row r, column x lies in region id exactly when r is in the region's band of rows
      and x in its band of columns. */
  lemma RegionKey(r: int, x: int, id: int)
    requires 0 <= r < 9 && 0 <= x < 9 && 0 <= id < 9
    ensures (3 * (r / 3) + x / 3 == id) == (r / 3 == id / 3 && 3 * (id % 3) <= x < 3 * (id % 3) + 3)
  {
    assert id == 3 * (id / 3) + id % 3;
  }

  /** Summed over rows r..8. */
  lemma {:induction false} GridHitsCount(kind: UnitKind, id: int, r: nat)
    requires 0 <= id < 9 && r <= 9
    ensures kind == Row ==> GridHits(kind, id, r) == (if r <= id then 9 else 0)
    ensures kind == Column ==> GridHits(kind, id, r) == 9 - r
    ensures kind == Region ==> (GridHits(kind, id, r) ==
      if r <= 3 * (id / 3) then 9 else if r < 3 * (id / 3) + 3 then 3 * (3 * (id / 3) + 3 - r) else 0)
    decreases 9 - r
  {
    if r < 9 {
      GridHitsCount(kind, id, r + 1);
      if kind == Region {
        RegionRowHits(id, r, 0, 3 * (id % 3));
      } else {
        RowHitsCount(kind, id, r, 0);
      }
    }
  }

  /** Every row, column and region has nine cells. */
  lemma MembersSize(kind: UnitKind, id: int)
    requires 0 <= id < 9
    ensures |Members(kind, id)| == 9
  {
    MembersFromRows(kind, id, 0);
    GridHitsCount(kind, id, 0);
  }

  /** Solution s places each digit 1..9 on some cell listed in ms. */
  ghost predicate ShowsAll(s: seq<int>, ms: seq<int>)
  {
    forall v :: 1 <= v <= 9 ==> Shows(s, ms, v)
  }

  /** Solution s places digit v on some cell listed in ms. */
  ghost predicate Shows(s: seq<int>, ms: seq<int>, v: int)
  {
    exists t :: 0 <= t < |ms| && 0 <= ms[t] < |s| && s[ms[t]] == v
  }

  /** A solution shows every digit in every unit. */
  lemma SolutionShowsAll(s: seq<int>, kind: UnitKind, id: int)
    requires IsSolution(s) && 0 <= id < 9
    ensures ShowsAll(s, Members(kind, id))
  {
    var ms := Members(kind, id);
    forall v | 1 <= v <= 9 ensures Shows(s, ms, v) {
      assert UnitHas(s, kind, id, v);
      var k :| 0 <= k < |s| && Key(k, kind) == id && s[k] == v;
      MembersHas(kind, id, k);
      var t :| 0 <= t < |ms| && ms[t] == k;
    }
  }

  /** Every index of ms lies in unit (kind, id). */
  predicate InUnit(ms: seq<int>, kind: UnitKind, id: int)
  {
    forall t :: 0 <= t < |ms| ==> Key(ms[t], kind) == id
  }

  /** Some other set cell sharing the unit of `kind` with cell i has value v: the scan
      over the whole grid. */
  predicate PositionConflict(b: Board, i: int, v: int, kind: UnitKind)
  {
    ConflictBefore(b, i, v, kind, |b|)
  }

  /** The scan over cells 0..n-1. */
  predicate ConflictBefore(b: Board, i: int, v: int, kind: UnitKind, n: nat)
    requires n <= |b|
    decreases n, b
  {
    if n == 0 then false
    else ConflictBefore(b, i, v, kind, n - 1) || ConflictAt(b, i, v, kind, n - 1)
  }

  /** Cell j is a set cell other than i, in the same unit of `kind`, with value v. */
  predicate ConflictAt(b: Board, i: int, v: int, kind: UnitKind, j: int)
    requires 0 <= j < |b|
  {
    IsSet(b[j].candidates) && j != i && Key(i, kind) == Key(j, kind) && v == b[j].candidates[0]
  }

  lemma {:induction false} ConflictBeforeIff(b: Board, i: int, v: int, kind: UnitKind, n: nat)
    requires n <= |b|
    ensures ConflictBefore(b, i, v, kind, n) <==> exists j :: 0 <= j < n && ConflictAt(b, i, v, kind, j)
  {
    if n > 0 {
      ConflictBeforeIff(b, i, v, kind, n - 1);
    }
  }

  /** positionConflict holds exactly when some other set cell of the unit has value v. */
  lemma PositionConflictIff(b: Board, i: int, v: int, kind: UnitKind)
    ensures PositionConflict(b, i, v, kind) <==>
      exists j :: 0 <= j < |b| && IsSet(b[j].candidates) && j != i && Key(i, kind) == Key(j, kind) && v == b[j].candidates[0]
  {
    ConflictBeforeIff(b, i, v, kind, |b|);
    if exists j :: 0 <= j < |b| && IsSet(b[j].candidates) && j != i && Key(i, kind) == Key(j, kind) && v == b[j].candidates[0] {
      var j :| 0 <= j < |b| && IsSet(b[j].candidates) && j != i && Key(i, kind) == Key(j, kind) && v == b[j].candidates[0];
      assert ConflictAt(b, i, v, kind, j);
    }
  }

  /** v may be placed in cell i: no other set cell in its column, row or region has value v. */
  predicate IsValidNumber(b: Board, i: int, v: int)
  {
    !PositionConflict(b, i, v, Column) && !PositionConflict(b, i, v, Row) && !PositionConflict(b, i, v, Region)
  }

  /** v is valid for cell i exactly when no set peer of i has value v. */
  lemma IsValidNumberIff(b: Board, i: int, v: int)
    ensures IsValidNumber(b, i, v) <==>
      forall j :: 0 <= j < |b| && j != i && Peers(i, j) && IsSet(b[j].candidates) ==> GetValue(b[j].candidates) != Some(v)
  {
    PositionConflictIff(b, i, v, Column);
    PositionConflictIff(b, i, v, Row);
    PositionConflictIff(b, i, v, Region);
    if !IsValidNumber(b, i, v) {
      var kind := if PositionConflict(b, i, v, Column) then Column else if PositionConflict(b, i, v, Row) then Row else Region;
      var j :| 0 <= j < |b| && IsSet(b[j].candidates) && j != i && Key(i, kind) == Key(j, kind) && v == b[j].candidates[0];
      assert Peers(i, j) && GetValue(b[j].candidates) == Some(v);
    }
  }

  /** The candidates cs of cell i that pass IsValidNumber, in their original order. */
  function ValidCandidates(b: Board, i: int, cs: seq<int>): seq<int>
    decreases |cs|
  {
    if cs == [] then []
    else
      var rest := ValidCandidates(b, i, cs[1..]);
      if IsValidNumber(b, i, cs[0]) then [cs[0]] + rest else rest
  }

  /** The filter keeps the valid candidates, in order, and nothing else. */
  lemma {:induction false} ValidCandidatesSpec(b: Board, i: int, cs: seq<int>)
    ensures Sublist(ValidCandidates(b, i, cs), cs)
    ensures forall v :: v in ValidCandidates(b, i, cs) <==> v in cs && IsValidNumber(b, i, v)
    decreases |cs|
  {
    if cs != [] {
      ValidCandidatesSpec(b, i, cs[1..]);
      var rest := ValidCandidates(b, i, cs[1..]);
      if IsValidNumber(b, i, cs[0]) {
        assert ([cs[0]] + rest)[1..] == rest;
      }
      assert forall v :: v in cs <==> v == cs[0] || v in cs[1..];
    }
  }

  /** Appending a candidate extends the filtered list by that candidate when it is valid. */
  lemma {:induction false} ValidCandidatesSnoc(b: Board, i: int, cs: seq<int>, c: int)
    ensures ValidCandidates(b, i, cs + [c]) == ValidCandidates(b, i, cs) + (if IsValidNumber(b, i, c) then [c] else [])
    decreases |cs|
  {
    if cs == [] {
      assert [] + [c] == [c];
      assert [c][1..] == [];
    } else {
      assert (cs + [c])[0] == cs[0];
      assert (cs + [c])[1..] == cs[1..] + [c];
      ValidCandidatesSnoc(b, i, cs[1..], c);
    }
  }

  /** Every index of ms is a cell of the grid. */
  predicate GridIndices(ms: seq<int>)
  {
    forall t :: 0 <= t < |ms| ==> 0 <= ms[t] < 81
  }

  /** The members of ms whose candidate list contains nr, in the order of ms. */
  function Holders(b: Board, ms: seq<int>, nr: int): (h: seq<int>)
    requires |b| == 81 && GridIndices(ms)
    ensures GridIndices(h)
    decreases |ms|
  {
    if ms == [] then []
    else
      var last := ms[|ms| - 1];
      Holders(b, ms[..|ms| - 1], nr) + (if nr in b[last].candidates then [last] else [])
  }

  /** The holders are exactly the members that list nr. */
  lemma {:induction false} HoldersSpec(b: Board, ms: seq<int>, nr: int)
    requires |b| == 81 && GridIndices(ms)
    ensures forall t :: 0 <= t < |Holders(b, ms, nr)| ==> Holders(b, ms, nr)[t] in ms && nr in b[Holders(b, ms, nr)[t]].candidates
    ensures forall m :: m in ms && nr in b[m].candidates ==> m in Holders(b, ms, nr)
    decreases |ms|
  {
    if ms != [] {
      var front := ms[..|ms| - 1];
      HoldersSpec(b, front, nr);
      assert forall m :: m in ms <==> m in front || m == ms[|ms| - 1];
    }
  }

  /** Over an increasing list of members the holders are increasing too. */
  lemma {:induction false} HoldersIncreasing(b: Board, ms: seq<int>, nr: int)
    requires |b| == 81 && GridIndices(ms) && Increasing(ms)
    ensures Increasing(Holders(b, ms, nr))
    decreases |ms|
  {
    if ms != [] {
      var front, last := ms[..|ms| - 1], ms[|ms| - 1];
      assert forall t :: 0 <= t < |front| ==> front[t] == ms[t] && front[t] < last;
      HoldersIncreasing(b, front, nr);
      HoldersSpec(b, front, nr);
    }
  }

  /** The unset members of ms whose candidate list contains nr, in the order of ms. */
  function UnsetHolders(b: Board, ms: seq<int>, nr: int): (h: seq<int>)
    requires |b| == 81 && GridIndices(ms)
    ensures GridIndices(h)
    decreases |ms|
  {
    if ms == [] then []
    else
      var last := ms[|ms| - 1];
      UnsetHolders(b, ms[..|ms| - 1], nr) + (if nr in b[last].candidates && !IsSet(b[last].candidates) then [last] else [])
  }

  /** The unset holders are exactly the unset members that list nr. */
  lemma {:induction false} UnsetHoldersSpec(b: Board, ms: seq<int>, nr: int)
    requires |b| == 81 && GridIndices(ms)
    ensures forall t :: 0 <= t < |UnsetHolders(b, ms, nr)| ==>
      UnsetHolders(b, ms, nr)[t] in ms && nr in b[UnsetHolders(b, ms, nr)[t]].candidates && !IsSet(b[UnsetHolders(b, ms, nr)[t]].candidates)
    ensures forall m :: m in ms && nr in b[m].candidates && !IsSet(b[m].candidates) ==> m in UnsetHolders(b, ms, nr)
    decreases |ms|
  {
    if ms != [] {
      var front := ms[..|ms| - 1];
      UnsetHoldersSpec(b, front, nr);
      assert forall m :: m in ms <==> m in front || m == ms[|ms| - 1];
    }
  }

  /** Over an increasing list of members the unset holders are increasing too. */
  lemma {:induction false} UnsetHoldersIncreasing(b: Board, ms: seq<int>, nr: int)
    requires |b| == 81 && GridIndices(ms) && Increasing(ms)
    ensures Increasing(UnsetHolders(b, ms, nr))
    decreases |ms|
  {
    if ms != [] {
      var front, last := ms[..|ms| - 1], ms[|ms| - 1];
      assert forall t :: 0 <= t < |front| ==> front[t] == ms[t] && front[t] < last;
      UnsetHoldersIncreasing(b, front, nr);
      UnsetHoldersSpec(b, front, nr);
    }
  }

  /** Some member of ms is set to nr: the scan of eliminateFromAxis that sets nrSetInRegion. */
  predicate NumberSetIn(b: Board, ms: seq<int>, nr: int)
    requires |b| == 81 && GridIndices(ms)
    decreases |ms|
  {
    if ms == [] then false
    else NumberSetIn(b, ms[..|ms| - 1], nr) || GetValue(b[ms[|ms| - 1]].candidates) == Some(nr)
  }

  lemma {:induction false} NumberSetInIff(b: Board, ms: seq<int>, nr: int)
    requires |b| == 81 && GridIndices(ms)
    ensures NumberSetIn(b, ms, nr) <==> exists t :: 0 <= t < |ms| && GetValue(b[ms[t]].candidates) == Some(nr)
    decreases |ms|
  {
    if ms != [] {
      var front := ms[..|ms| - 1];
      NumberSetInIff(b, front, nr);
      assert forall t :: 0 <= t < |front| ==> front[t] == ms[t];
    }
  }

  /** Every member of ms is set. */
  predicate IsGroupComplete(b: Board, ms: seq<int>)
    requires |b| == 81 && GridIndices(ms)
    decreases |ms|
  {
    if ms == [] then true
    else IsGroupComplete(b, ms[..|ms| - 1]) && IsSet(b[ms[|ms| - 1]].candidates)
  }

  /** isGroupComplete holds exactly when every member is set. */
  lemma {:induction false} IsGroupCompleteIff(b: Board, ms: seq<int>)
    requires |b| == 81 && GridIndices(ms)
    ensures IsGroupComplete(b, ms) <==> forall t :: 0 <= t < |ms| ==> IsSet(b[ms[t]].candidates)
    decreases |ms|
  {
    if ms != [] {
      var front := ms[..|ms| - 1];
      IsGroupCompleteIff(b, front);
      assert forall t :: 0 <= t < |front| ==> front[t] == ms[t];
    }
  }

  /** Every cell is set. */
  predicate IsSolved(b: Board)
  {
    forall i :: 0 <= i < |b| ==> IsSet(b[i].candidates)
  }

  /** Cell i was unset in b and is set in r. */
  predicate NewlySet(b: Board, r: Board, i: int)
    requires 0 <= i < |b| && 0 <= i < |r|
  {
    !IsSet(b[i].candidates) && IsSet(r[i].candidates)
  }

  /** What every deduction rule guarantees: the board keeps its size, every candidate
      list becomes a sublist of what it was, set cells are left exactly as they were,
      and the changed flag is raised exactly when some unset cell became set. */
  ghost predicate Deduces(b: Board, p: Pass)
  {
    |p.board| == |b| &&
    (forall i {:trigger p.board[i]} :: 0 <= i < |b| ==> Sublist(p.board[i].candidates, b[i].candidates)) &&
    (forall i {:trigger p.board[i]} :: 0 <= i < |b| && IsSet(b[i].candidates) ==> p.board[i] == b[i]) &&
    (p.changed <==> exists i {:trigger NewlySet(b, p.board, i)} :: 0 <= i < |b| && NewlySet(b, p.board, i))
  }

  lemma DeducesNothing(b: Board)
    ensures Deduces(b, Pass(b, false))
  {
    forall i | 0 <= i < |b| ensures Sublist(b[i].candidates, b[i].candidates) {
      SublistRefl(b[i].candidates);
    }
  }

  /** Under a deduction a cell's list never grows and gains no value. */
  lemma DeducesShrinks(b: Board, p: Pass, i: int)
    requires Deduces(b, p) && 0 <= i < |b|
    ensures |p.board[i].candidates| <= |b[i].candidates|
    ensures forall v :: v in p.board[i].candidates ==> v in b[i].candidates
  {
    SublistLength(p.board[i].candidates, b[i].candidates);
    forall v | v in p.board[i].candidates ensures v in b[i].candidates {
      SublistMember(p.board[i].candidates, b[i].candidates, v);
    }
  }

  /** Two passes in a row deduce what their composition promises; the flags combine with or. */
  lemma DeducesCompose(b: Board, p: Pass, q: Pass)
    requires Deduces(b, p) && Deduces(p.board, q)
    ensures Deduces(b, Pass(q.board, p.changed || q.changed))
  {
    forall i | 0 <= i < |b| ensures Sublist(q.board[i].candidates, b[i].candidates) {
      SublistTrans(q.board[i].candidates, p.board[i].candidates, b[i].candidates);
    }
    if p.changed {
      var i :| 0 <= i < |b| && NewlySet(b, p.board, i);
      assert NewlySet(b, q.board, i);
    }
    if q.changed {
      var i :| 0 <= i < |b| && NewlySet(p.board, q.board, i);
      assert NewlySet(b, q.board, i);
    }
    if exists i :: 0 <= i < |b| && NewlySet(b, q.board, i) {
      var i :| 0 <= i < |b| && NewlySet(b, q.board, i);
      if IsSet(p.board[i].candidates) {
        assert NewlySet(b, p.board, i);
      } else {
        assert NewlySet(p.board, q.board, i);
      }
    }
  }

  /** DeducesCompose for a pass r already known to be the composition of p and q. */
  lemma DeducesStep(b: Board, p: Pass, q: Pass, r: Pass)
    requires Deduces(b, p) && Deduces(p.board, q) && r == Pass(q.board, p.changed || q.changed)
    ensures Deduces(b, r)
  {
    DeducesCompose(b, p, q);
  }

  /** A complete grid of digits 1..9 obeying the rules of Sudoku: peers differ and
      every unit holds every digit. */
  ghost predicate IsSolution(s: seq<int>)
  {
    |s| == 81 && (forall i :: 0 <= i < 81 ==> 1 <= s[i] <= 9) && PeersDiffer(s) && UnitsFull(s)
  }

  ghost predicate PeersDiffer(s: seq<int>)
  {
    forall i, j {:trigger Peers(i, j)} :: 0 <= i < |s| && 0 <= j < |s| && i != j && Peers(i, j) ==> s[i] != s[j]
  }

  ghost predicate UnitsFull(s: seq<int>)
  {
    forall kind, id, v :: 0 <= id < 9 && 1 <= v <= 9 ==> UnitHas(s, kind, id, v)
  }

  ghost predicate UnitHas(s: seq<int>, kind: UnitKind, id: int, v: int)
  {
    exists k :: 0 <= k < |s| && Key(k, kind) == id && s[k] == v
  }

  /** Every cell's value in s is still one of its candidates in b. */
  ghost predicate Compatible(s: seq<int>, b: Board)
  {
    |s| == |b| && forall i :: 0 <= i < |b| ==> s[i] in b[i].candidates
  }

  /** No two peers are set to the same value. */
  ghost predicate Consistent(b: Board)
  {
    forall i, j {:trigger Peers(i, j)} :: 0 <= i < |b| && 0 <= j < |b| && i != j && Peers(i, j) && IsSet(b[i].candidates) && IsSet(b[j].candidates) ==>
      b[i].candidates[0] != b[j].candidates[0]
  }

  /** A board that some solution agrees with has no two set peers equal. */
  lemma CompatibleConsistent(b: Board, s: seq<int>)
    requires IsSolution(s) && Compatible(s, b)
    ensures Consistent(b)
  {
    forall i, j | 0 <= i < |b| && 0 <= j < |b| && i != j && Peers(i, j) && IsSet(b[i].candidates) && IsSet(b[j].candidates)
      ensures b[i].candidates[0] != b[j].candidates[0]
    {
      assert s[i] in b[i].candidates && s[j] in b[j].candidates;
      assert s[i] != s[j];
    }
  }

  /** Fixing a cell to a value that IsValidNumber accepts keeps peers apart. */
  lemma PlaceConsistent(b: Board, i: int, v: int)
    requires 0 <= i < |b| && Consistent(b) && IsValidNumber(b, i, v)
    ensures Consistent(b[i := Fixed(v)])
  {
    var r := b[i := Fixed(v)];
    IsValidNumberIff(b, i, v);
    forall j, k | 0 <= j < |r| && 0 <= k < |r| && j != k && Peers(j, k) && IsSet(r[j].candidates) && IsSet(r[k].candidates)
      ensures r[j].candidates[0] != r[k].candidates[0]
    {
      if j == i {
        assert GetValue(b[k].candidates) != Some(v);
      } else if k == i {
        assert Peers(i, j);
        assert GetValue(b[j].candidates) != Some(v);
      }
    }
  }

  /** A solution compatible with the board passes IsValidNumber at every unset cell. */
  lemma SolutionValueValid(b: Board, i: int, s: seq<int>)
    requires 0 <= i < |b| && IsSolution(s) && Compatible(s, b)
    ensures IsValidNumber(b, i, s[i])
  {
    forall j | 0 <= j < |b| && j != i && Peers(i, j) && IsSet(b[j].candidates)
      ensures GetValue(b[j].candidates) != Some(s[i])
    {
      assert s[j] in b[j].candidates;
      assert s[j] != s[i];
    }
    IsValidNumberIff(b, i, s[i]);
  }

  /** The two boards hold the same candidate lists; absolute flags may differ. */
  ghost predicate SameCandidates(a: Board, b: Board)
  {
    |a| == |b| && forall i :: 0 <= i < |a| ==> a[i].candidates == b[i].candidates
  }

  /** The number of unset cells. */
  function UnsetCount(b: Board): nat
  {
    if b == [] then 0
    else UnsetCount(b[..|b| - 1]) + (if IsSet(b[|b| - 1].candidates) then 0 else 1)
  }

  /** A board that is unset in no more places than another has no more unset cells,
      and strictly fewer when it is set somewhere the other is not. */
  lemma {:induction false} UnsetCountMono(a: Board, b: Board)
    requires |a| == |b|
    requires forall i :: 0 <= i < |a| && !IsSet(a[i].candidates) ==> !IsSet(b[i].candidates)
    ensures UnsetCount(a) <= UnsetCount(b)
    ensures (exists i :: 0 <= i < |a| && IsSet(a[i].candidates) && !IsSet(b[i].candidates)) ==> UnsetCount(a) < UnsetCount(b)
    decreases |a|
  {
    if a != [] {
      var n := |a| - 1;
      UnsetCountMono(a[..n], b[..n]);
      if exists i :: 0 <= i < |a| && IsSet(a[i].candidates) && !IsSet(b[i].candidates) {
        var i :| 0 <= i < |a| && IsSet(a[i].candidates) && !IsSet(b[i].candidates);
        if i < n {
          assert IsSet(a[..n][i].candidates) && !IsSet(b[..n][i].candidates);
        }
      }
    }
  }

  lemma UnsetCountSame(a: Board, b: Board)
    requires SameCandidates(a, b)
    ensures UnsetCount(a) == UnsetCount(b)
  {
    UnsetCountMono(a, b);
    UnsetCountMono(b, a);
  }

  /** Setting an unset cell lowers the count of unset cells. */
  lemma UnsetCountFix(b: Board, i: int, c: CellState)
    requires 0 <= i < |b| && !IsSet(b[i].candidates) && IsSet(c.candidates)
    ensures UnsetCount(b[i := c]) < UnsetCount(b)
  {
    UnsetCountMono(b[i := c], b);
  }

  /** The first unset cell at or after k in row-major order, or |b| when there is none. */
  function FirstUnset(b: Board, k: nat): (i: nat)
    requires k <= |b|
    ensures k <= i <= |b|
    ensures i < |b| ==> !IsSet(b[i].candidates)
    ensures forall j :: k <= j < i ==> IsSet(b[j].candidates)
    decreases |b| - k
  {
    if k == |b| then k
    else if !IsSet(b[k].candidates) then k
    else FirstUnset(b, k + 1)
  }

  /** The first unset cell is the one after a run of set cells. */
  lemma FirstUnsetAt(b: Board, i: int)
    requires 0 <= i <= |b|
    requires forall j :: 0 <= j < i ==> IsSet(b[j].candidates)
    requires i < |b| ==> !IsSet(b[i].candidates)
    ensures FirstUnset(b, 0) == i
  {
  }
}
