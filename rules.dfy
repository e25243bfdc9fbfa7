/** The three deduction rules of the solver as functions on boards.

    Each source loop updates the cells in place while it runs, so a later visit sees
    the effect of the earlier ones. Every pass is therefore written as a left fold
    over the visits in the source's order: cells in grid order for naked singles,
    units 0..8 and then numbers 1..9 for hidden singles and for the box-line rule.
    Each fold names the board in its decreases clause besides its counter, so that a
    literal counter (nine units, nine numbers, 81 cells) does not by itself make the
    verifier expand the whole fold. */
module Rules {
  import opened Candidates
  import opened Grid

  // ---------------------------------------------------------------------------
  // Naked singles: compareToAbsolutes
  // ---------------------------------------------------------------------------

  /** compareToAbsolutes' visit to cell k: a set cell is skipped; an unset cell keeps the
      candidates that pass IsValidNumber, and the flag rises when its list changed and
      has one element left. */
  function NakedVisit(b: Board, k: int): Pass
    requires 0 <= k < |b|
  {
    if IsSet(b[k].candidates) then Pass(b, false)
    else
      var nc := ValidCandidates(b, k, b[k].candidates);
      Pass(b[k := CellState(nc, b[k].absolute)], b[k].candidates != nc && |nc| == 1)
  }

  /** compareToAbsolutes after it has visited cells 0..k-1. */
  function NakedUpTo(b: Board, k: nat): (p: Pass)
    requires k <= |b|
    ensures |p.board| == |b|
    decreases k, b
  {
    if k == 0 then Pass(b, false)
    else
      var p := NakedUpTo(b, k - 1);
      var q := NakedVisit(p.board, k - 1);
      Pass(q.board, p.changed || q.changed)
  }

  /** One whole compareToAbsolutes pass. */
  function NakedPass(b: Board): Pass
  {
    NakedUpTo(b, |b|)
  }

  lemma NakedVisitDeduces(b: Board, k: int)
    requires 0 <= k < |b|
    ensures Deduces(b, NakedVisit(b, k))
  {
    DeducesNothing(b);
    if !IsSet(b[k].candidates) {
      var p := NakedVisit(b, k);
      ValidCandidatesSpec(b, k, b[k].candidates);
      forall i | 0 <= i < |b| ensures Sublist(p.board[i].candidates, b[i].candidates) {
        if i != k {
          SublistRefl(b[i].candidates);
        }
      }
      assert p.changed ==> NewlySet(b, p.board, k);
    }
  }

  /** What compareToAbsolutes does to each cell: cells it has not reached yet and set
      cells are left as they were; an unset cell at index i gets the sublist of its
      candidates that are valid in the board as it stood when the loop reached i; the
      flag rises exactly when some unset cell's list changed and has one element left. */
  lemma {:induction false} NakedUpToShape(b: Board, k: nat)
    requires k <= |b|
    ensures forall i :: k <= i < |b| ==> NakedUpTo(b, k).board[i] == b[i]
    ensures forall i :: 0 <= i < k && IsSet(b[i].candidates) ==> NakedUpTo(b, k).board[i] == b[i]
    ensures forall i :: 0 <= i < k && !IsSet(b[i].candidates) ==>
      NakedUpTo(b, k).board[i] == CellState(ValidCandidates(NakedUpTo(b, i).board, i, b[i].candidates), b[i].absolute)
    ensures NakedUpTo(b, k).changed <==>
      exists i :: 0 <= i < k && !IsSet(b[i].candidates) &&
        NakedUpTo(b, k).board[i].candidates != b[i].candidates && |NakedUpTo(b, k).board[i].candidates| == 1
  {
    if k > 0 {
      NakedUpToShape(b, k - 1);
      var p := NakedUpTo(b, k - 1);
      var r := NakedUpTo(b, k);
      assert p.board[k - 1] == b[k - 1];
      assert forall i :: 0 <= i < |b| && i != k - 1 ==> r.board[i] == p.board[i];
      if p.changed {
        var i :| 0 <= i < k - 1 && !IsSet(b[i].candidates) &&
          p.board[i].candidates != b[i].candidates && |p.board[i].candidates| == 1;
        assert r.board[i] == p.board[i];
      }
      if r.changed && !p.changed {
        assert !IsSet(b[k - 1].candidates) && r.board[k - 1].candidates != b[k - 1].candidates;
      }
    }
  }

  lemma {:induction false} NakedUpToDeduces(b: Board, k: nat)
    requires k <= |b|
    ensures Deduces(b, NakedUpTo(b, k))
  {
    if k == 0 {
      DeducesNothing(b);
    } else {
      var p := NakedUpTo(b, k - 1);
      NakedUpToDeduces(b, k - 1);
      NakedVisitDeduces(p.board, k - 1);
      DeducesStep(b, p, NakedVisit(p.board, k - 1), NakedUpTo(b, k));
    }
  }

  /** A naked single never rules out the value a solution gives the cell: a value
      held by a set peer cannot be the solution's value of this cell. */
  lemma NakedVisitKeepsSolution(b: Board, k: int, s: seq<int>)
    requires 0 <= k < |b| && IsSolution(s) && Compatible(s, b)
    ensures Compatible(s, NakedVisit(b, k).board)
  {
    if !IsSet(b[k].candidates) {
      forall j | 0 <= j < |b| && j != k && Peers(k, j) && IsSet(b[j].candidates)
        ensures GetValue(b[j].candidates) != Some(s[k])
      {
        assert s[j] in b[j].candidates;
        assert s[j] != s[k];
      }
      IsValidNumberIff(b, k, s[k]);
      ValidCandidatesSpec(b, k, b[k].candidates);
    }
  }

  lemma {:induction false} NakedUpToKeepsSolution(b: Board, k: nat, s: seq<int>)
    requires k <= |b| && IsSolution(s) && Compatible(s, b)
    ensures Compatible(s, NakedUpTo(b, k).board)
  {
    if k > 0 {
      NakedUpToKeepsSolution(b, k - 1, s);
      NakedVisitKeepsSolution(NakedUpTo(b, k - 1).board, k - 1, s);
    }
  }

  /** A cell set by a naked single never clashes with a set peer. */
  lemma NakedVisitConsistent(b: Board, k: int)
    requires 0 <= k < |b| && Consistent(b)
    ensures Consistent(NakedVisit(b, k).board)
  {
    var r := NakedVisit(b, k).board;
    ValidCandidatesSpec(b, k, b[k].candidates);
    forall i, j | 0 <= i < |r| && 0 <= j < |r| && i != j && Peers(i, j) && IsSet(r[i].candidates) && IsSet(r[j].candidates)
      ensures r[i].candidates[0] != r[j].candidates[0]
    {
      if i == k && r[k] != b[k] {
        assert r[k].candidates[0] in r[k].candidates;
        IsValidNumberIff(b, k, r[k].candidates[0]);
        assert r[j] == b[j];
      } else if j == k && r[k] != b[k] {
        assert r[k].candidates[0] in r[k].candidates;
        IsValidNumberIff(b, k, r[k].candidates[0]);
        assert Peers(k, i);
        assert r[i] == b[i];
      }
    }
  }

  lemma {:induction false} NakedUpToConsistent(b: Board, k: nat)
    requires k <= |b| && Consistent(b)
    ensures Consistent(NakedUpTo(b, k).board)
  {
    if k > 0 {
      NakedUpToConsistent(b, k - 1);
      NakedVisitConsistent(NakedUpTo(b, k - 1).board, k - 1);
    }
  }

  // ---------------------------------------------------------------------------
  // Hidden singles: compareToCandidates
  // ---------------------------------------------------------------------------

  /** compareToCandidates' check of number nr in a unit with members ms: when exactly one
      member lists nr and that member is unset, it is fixed to nr and the flag rises. */
  function HiddenVisit(b: Board, ms: seq<int>, nr: int): Pass
    requires |b| == 81 && GridIndices(ms)
  {
    var h := Holders(b, ms, nr);
    if |h| == 1 && !IsSet(b[h[0]].candidates) then Pass(b[h[0] := Fixed(nr)], true)
    else Pass(b, false)
  }

  /** The unit's checks for numbers 1..n. */
  function HiddenNumbersUpTo(b: Board, ms: seq<int>, n: nat): (p: Pass)
    requires |b| == 81 && GridIndices(ms)
    ensures |p.board| == |b|
    decreases n, b
  {
    if n == 0 then Pass(b, false)
    else
      var p := HiddenNumbersUpTo(b, ms, n - 1);
      var q := HiddenVisit(p.board, ms, n);
      Pass(q.board, p.changed || q.changed)
  }

  /** compareToCandidates on one unit: a complete unit is skipped. */
  function HiddenUnit(b: Board, kind: UnitKind, id: int): (p: Pass)
    requires |b| == 81
    ensures |p.board| == 81
  {
    var ms := Members(kind, id);
    MembersIndices(kind, id);
    if IsGroupComplete(b, ms) then Pass(b, false) else HiddenNumbersUpTo(b, ms, 9)
  }

  /** compareToCandidates after units 0..k-1 of the given kind. */
  function HiddenUpTo(b: Board, kind: UnitKind, k: nat): (p: Pass)
    requires |b| == 81
    ensures |p.board| == 81
    decreases k, b
  {
    if k == 0 then Pass(b, false)
    else
      var p := HiddenUpTo(b, kind, k - 1);
      var q := HiddenUnit(p.board, kind, k - 1);
      Pass(q.board, p.changed || q.changed)
  }

  /** One whole compareToCandidates pass over the nine units of a kind. */
  function HiddenPass(b: Board, kind: UnitKind): Pass
    requires |b| == 81
  {
    HiddenUpTo(b, kind, 9)
  }

  /** A hidden single either leaves the board alone or fixes one unset cell to a value
      taken from its own candidates. */
  lemma HiddenVisitFixes(b: Board, ms: seq<int>, nr: int)
    requires |b| == 81 && GridIndices(ms)
    ensures HiddenVisit(b, ms, nr).board == b ||
      exists i :: 0 <= i < |b| && i in ms && !IsSet(b[i].candidates) && nr in b[i].candidates &&
        (forall m :: m in ms && nr in b[m].candidates ==> m == i) &&
        HiddenVisit(b, ms, nr).board == b[i := Fixed(nr)]
  {
    var h := Holders(b, ms, nr);
    HoldersSpec(b, ms, nr);
    if |h| == 1 && !IsSet(b[h[0]].candidates) {
      assert h[0] in h;
    }
  }

  /** The converse: when exactly one member of the unit lists nr, an unset one is fixed to
      nr and the flag rises, and a set one is left alone. */
  lemma HiddenVisitSoleHolder(b: Board, ms: seq<int>, nr: int, i: int)
    requires |b| == 81 && GridIndices(ms) && Increasing(ms)
    requires 0 <= i < 81 && i in ms && nr in b[i].candidates
    requires forall t :: 0 <= t < |ms| && ms[t] != i ==> nr !in b[ms[t]].candidates
    ensures !IsSet(b[i].candidates) ==> HiddenVisit(b, ms, nr) == Pass(b[i := Fixed(nr)], true)
    ensures IsSet(b[i].candidates) ==> HiddenVisit(b, ms, nr) == Pass(b, false)
  {
    var h := Holders(b, ms, nr);
    HoldersSpec(b, ms, nr);
    HoldersIncreasing(b, ms, nr);
    assert i in h;
    forall t | 0 <= t < |h| ensures h[t] == i {
      var u :| 0 <= u < |ms| && ms[u] == h[t];
    }
    IncreasingAllSame(h, i);
  }

  lemma HiddenVisitDeduces(b: Board, ms: seq<int>, nr: int)
    requires |b| == 81 && GridIndices(ms)
    ensures Deduces(b, HiddenVisit(b, ms, nr))
  {
    DeducesNothing(b);
    var h := Holders(b, ms, nr);
    HoldersSpec(b, ms, nr);
    if |h| == 1 && !IsSet(b[h[0]].candidates) {
      var p := HiddenVisit(b, ms, nr);
      forall i | 0 <= i < |b| ensures Sublist(p.board[i].candidates, b[i].candidates) {
        if i == h[0] {
          SingletonSublist(nr, b[i].candidates);
        } else {
          SublistRefl(b[i].candidates);
        }
      }
      assert NewlySet(b, p.board, h[0]);
    }
  }

  lemma {:induction false} HiddenNumbersUpToDeduces(b: Board, ms: seq<int>, n: nat)
    requires |b| == 81 && GridIndices(ms)
    ensures Deduces(b, HiddenNumbersUpTo(b, ms, n))
  {
    if n == 0 {
      DeducesNothing(b);
    } else {
      var p := HiddenNumbersUpTo(b, ms, n - 1);
      HiddenNumbersUpToDeduces(b, ms, n - 1);
      HiddenVisitDeduces(p.board, ms, n);
      DeducesCompose(b, p, HiddenVisit(p.board, ms, n));
    }
  }

  lemma {:induction false} HiddenUpToDeduces(b: Board, kind: UnitKind, k: nat)
    requires |b| == 81
    ensures Deduces(b, HiddenUpTo(b, kind, k))
  {
    if k == 0 {
      DeducesNothing(b);
    } else {
      var p := HiddenUpTo(b, kind, k - 1);
      HiddenUpToDeduces(b, kind, k - 1);
      HiddenUnitDeduces(p.board, kind, k - 1);
      DeducesStep(b, p, HiddenUnit(p.board, kind, k - 1), HiddenUpTo(b, kind, k));
    }
  }

  lemma HiddenUnitDeduces(b: Board, kind: UnitKind, id: int)
    requires |b| == 81
    ensures Deduces(b, HiddenUnit(b, kind, id))
  {
    MembersIndices(kind, id);
    if IsGroupComplete(b, Members(kind, id)) {
      DeducesNothing(b);
    } else {
      HiddenNumbersUpToDeduces(b, Members(kind, id), 9);
    }
  }

  /** A hidden single is a sound deduction: the digit nr occurs somewhere in the unit of
      every solution, and that cell must list nr, so the only cell listing it is that cell. */
  lemma HiddenVisitKeepsSolution(b: Board, ms: seq<int>, nr: int, s: seq<int>, k: int)
    requires |b| == 81 && GridIndices(ms) && Compatible(s, b) && k in ms && s[k] == nr
    ensures Compatible(s, HiddenVisit(b, ms, nr).board)
  {
    var h := Holders(b, ms, nr);
    HoldersSpec(b, ms, nr);
    if |h| == 1 && !IsSet(b[h[0]].candidates) {
      assert k in h;
    }
  }

  lemma {:induction false} HiddenNumbersUpToKeepsSolution(b: Board, ms: seq<int>, n: nat, s: seq<int>)
    requires |b| == 81 && GridIndices(ms) && n <= 9
    requires ShowsAll(s, ms) && Compatible(s, b)
    ensures Compatible(s, HiddenNumbersUpTo(b, ms, n).board)
  {
    if n > 0 {
      HiddenNumbersUpToKeepsSolution(b, ms, n - 1, s);
      assert Shows(s, ms, n);
      var t :| 0 <= t < |ms| && 0 <= ms[t] < |s| && s[ms[t]] == n;
      HiddenVisitKeepsSolution(HiddenNumbersUpTo(b, ms, n - 1).board, ms, n, s, ms[t]);
    }
  }

  lemma {:induction false} HiddenUpToKeepsSolution(b: Board, kind: UnitKind, k: nat, s: seq<int>)
    requires |b| == 81 && k <= 9
    requires IsSolution(s) && Compatible(s, b)
    ensures Compatible(s, HiddenUpTo(b, kind, k).board)
  {
    if k > 0 {
      HiddenUpToKeepsSolution(b, kind, k - 1, s);
      HiddenUnitKeepsSolution(HiddenUpTo(b, kind, k - 1).board, kind, k - 1, s);
    }
  }

  lemma HiddenUnitKeepsSolution(b: Board, kind: UnitKind, id: int, s: seq<int>)
    requires |b| == 81 && 0 <= id < 9
    requires IsSolution(s) && Compatible(s, b)
    ensures Compatible(s, HiddenUnit(b, kind, id).board)
  {
    MembersIndices(kind, id);
    if !IsGroupComplete(b, Members(kind, id)) {
      SolutionShowsAll(s, kind, id);
      HiddenNumbersUpToKeepsSolution(b, Members(kind, id), 9, s);
    }
  }

  // ---------------------------------------------------------------------------
  // Pointing pairs / box-line reduction: eliminateFromAxis
  // ---------------------------------------------------------------------------

  /** Cell m is one that eliminateCandidateFromAxisOutsideRegion strips of nr: it lies
      outside the region, lists nr and is unset. */
  predicate Eliminable(b: Board, nr: int, regionID: int, m: int)
    requires 0 <= m < |b|
  {
    Key(m, Region) != regionID && nr in b[m].candidates && !IsSet(b[m].candidates)
  }

  /** The loop's visit to axis cell m: an eliminable cell loses its first nr, and the
      flag rises when one candidate is left. */
  function EliminateVisit(b: Board, nr: int, regionID: int, m: int): Pass
    requires 0 <= m < |b|
  {
    if Eliminable(b, nr, regionID, m) then
      var nc := RemoveFirst(b[m].candidates, nr);
      Pass(b[m := CellState(nc, b[m].absolute)], IsSet(nc))
    else Pass(b, false)
  }

  /** The loop after the first n cells of the axis ms. */
  function EliminateUpTo(b: Board, ms: seq<int>, nr: int, regionID: int, n: nat): (p: Pass)
    requires |b| == 81 && GridIndices(ms) && n <= |ms|
    ensures |p.board| == |b|
    decreases n, b
  {
    if n == 0 then Pass(b, false)
    else
      var p := EliminateUpTo(b, ms, nr, regionID, n - 1);
      var q := EliminateVisit(p.board, nr, regionID, ms[n - 1]);
      Pass(q.board, p.changed || q.changed)
  }

  /** eliminateCandidateFromAxisOutsideRegion over the cells ms of the axis. */
  function EliminateOutside(b: Board, nr: int, regionID: int, ms: seq<int>): Pass
    requires |b| == 81 && GridIndices(ms)
  {
    EliminateUpTo(b, ms, nr, regionID, |ms|)
  }

  /** Cell i after the cells in visited have been stripped of nr: an eliminable cell
      loses its first occurrence of nr and keeps its absolute flag. */
  function Stripped(b: Board, visited: seq<int>, nr: int, regionID: int, i: int): CellState
    requires 0 <= i < |b|
  {
    if i in visited && Eliminable(b, nr, regionID, i) then CellState(RemoveFirst(b[i].candidates, nr), b[i].absolute) else b[i]
  }

  /** What the loop does, cell by cell: an eliminable cell of the axis loses its first
      occurrence of nr and keeps its absolute flag, every other cell is untouched, and
      the flag rises exactly when some removal left one candidate. An axis lists each
      cell once, so every cell is visited at most once. */
  lemma {:induction false} EliminateUpToShape(b: Board, ms: seq<int>, nr: int, regionID: int, n: nat)
    requires |b| == 81 && GridIndices(ms) && Increasing(ms) && n <= |ms|
    ensures forall i :: 0 <= i < |b| ==> EliminateUpTo(b, ms, nr, regionID, n).board[i] == Stripped(b, ms[..n], nr, regionID, i)
    ensures EliminateUpTo(b, ms, nr, regionID, n).changed <==>
      exists t :: 0 <= t < n && Eliminable(b, nr, regionID, ms[t]) && IsSet(RemoveFirst(b[ms[t]].candidates, nr))
  {
    if n > 0 {
      EliminateUpToShape(b, ms, nr, regionID, n - 1);
      var p := EliminateUpTo(b, ms, nr, regionID, n - 1);
      var m := ms[n - 1];
      forall t | 0 <= t < n - 1 ensures ms[t] != m {
        assert ms[t] < ms[n - 1];
      }
      assert m !in ms[..n - 1];
      assert p.board[m] == b[m];
      EliminateUpToStep(b, ms, nr, regionID, n, p);
    }
  }

  /** The last visit of EliminateUpToShape's induction, on the board p it starts from. */
  lemma EliminateUpToStep(b: Board, ms: seq<int>, nr: int, regionID: int, n: nat, p: Pass)
    requires |b| == 81 && GridIndices(ms) && 0 < n <= |ms| && p == EliminateUpTo(b, ms, nr, regionID, n - 1)
    requires ms[n - 1] !in ms[..n - 1] && p.board[ms[n - 1]] == b[ms[n - 1]]
    requires forall i :: 0 <= i < |b| ==> p.board[i] == Stripped(b, ms[..n - 1], nr, regionID, i)
    requires p.changed <==>
      exists t :: 0 <= t < n - 1 && Eliminable(b, nr, regionID, ms[t]) && IsSet(RemoveFirst(b[ms[t]].candidates, nr))
    ensures forall i :: 0 <= i < |b| ==> EliminateUpTo(b, ms, nr, regionID, n).board[i] == Stripped(b, ms[..n], nr, regionID, i)
    ensures EliminateUpTo(b, ms, nr, regionID, n).changed <==>
      exists t :: 0 <= t < n && Eliminable(b, nr, regionID, ms[t]) && IsSet(RemoveFirst(b[ms[t]].candidates, nr))
  {
    var m := ms[n - 1];
    var q := EliminateVisit(p.board, nr, regionID, m);
    assert EliminateUpTo(b, ms, nr, regionID, n) == Pass(q.board, p.changed || q.changed);
    assert ms[..n] == ms[..n - 1] + [m];
    forall i | 0 <= i < |b|
      ensures q.board[i] == Stripped(b, ms[..n], nr, regionID, i)
    {
      assert i in ms[..n] <==> i in ms[..n - 1] || i == m;
    }
    if q.changed {
      assert Eliminable(b, nr, regionID, ms[n - 1]) && IsSet(RemoveFirst(b[ms[n - 1]].candidates, nr));
    }
  }

  /** A removal never empties a list: an unset cell that lists nr has two candidates or more. */
  lemma EliminateVisitKeepsCandidate(b: Board, nr: int, regionID: int, m: int)
    requires 0 <= m < |b| && b[m].candidates != []
    ensures EliminateVisit(b, nr, regionID, m).board[m].candidates != []
  {
  }

  lemma EliminateVisitDeduces(b: Board, nr: int, regionID: int, m: int)
    requires 0 <= m < |b|
    ensures Deduces(b, EliminateVisit(b, nr, regionID, m))
  {
    DeducesNothing(b);
    if Eliminable(b, nr, regionID, m) {
      var p := EliminateVisit(b, nr, regionID, m);
      forall i | 0 <= i < |b| ensures Sublist(p.board[i].candidates, b[i].candidates) {
        if i == m {
          RemoveFirstSublist(b[i].candidates, nr);
        } else {
          SublistRefl(b[i].candidates);
        }
      }
      assert p.changed ==> NewlySet(b, p.board, m);
    }
  }

  lemma {:induction false} EliminateUpToDeduces(b: Board, ms: seq<int>, nr: int, regionID: int, n: nat)
    requires |b| == 81 && GridIndices(ms) && n <= |ms|
    ensures Deduces(b, EliminateUpTo(b, ms, nr, regionID, n))
  {
    if n == 0 {
      DeducesNothing(b);
    } else {
      var p := EliminateUpTo(b, ms, nr, regionID, n - 1);
      EliminateUpToDeduces(b, ms, nr, regionID, n - 1);
      EliminateVisitDeduces(p.board, nr, regionID, ms[n - 1]);
      DeducesStep(b, p, EliminateVisit(p.board, nr, regionID, ms[n - 1]), EliminateUpTo(b, ms, nr, regionID, n));
    }
  }

  /** Removing nr is harmless to a solution that puts nr on no cell of the axis outside
      the region. */
  lemma {:induction false} EliminateUpToKeepsSolution(b: Board, ms: seq<int>, nr: int, regionID: int, n: nat, s: seq<int>)
    requires |b| == 81 && GridIndices(ms) && n <= |ms| && Compatible(s, b)
    requires forall t :: 0 <= t < |ms| && Key(ms[t], Region) != regionID ==> s[ms[t]] != nr
    ensures Compatible(s, EliminateUpTo(b, ms, nr, regionID, n).board)
  {
    if n > 0 {
      EliminateUpToKeepsSolution(b, ms, nr, regionID, n - 1, s);
      var p := EliminateUpTo(b, ms, nr, regionID, n - 1);
      var m := ms[n - 1];
      if Eliminable(p.board, nr, regionID, m) {
        RemoveFirstKeeps(p.board[m].candidates, nr, s[m]);
      }
    }
  }

  /** Every index of h lies on the given axis. */
  predicate OnAxis(h: seq<int>, kind: UnitKind, axis: int)
  {
    forall t :: 0 <= t < |h| ==> Key(h[t], kind) == axis
  }

  /** eliminateFromAxis' handling of number nr in the region with cells ms: skipped when
      nr is set in the region or fewer than two unset cells of the region list it;
      otherwise, when all those cells share a row (a column), nr is removed from that row
      (column) outside the region. */
  function AxisVisit(b: Board, ms: seq<int>, regionID: int, nr: int): Pass
    requires |b| == 81 && GridIndices(ms)
  {
    if NumberSetIn(b, ms, nr) then Pass(b, false)
    else
      var h := UnsetHolders(b, ms, nr);
      if |h| < 2 then Pass(b, false)
      else
        var yAxis := Key(h[0], Row);
        var xAxis := Key(h[0], Column);
        MembersIndices(Row, yAxis);
        MembersIndices(Column, xAxis);
        var p := if OnAxis(h, Row, yAxis) then EliminateOutside(b, nr, regionID, Members(Row, yAxis)) else Pass(b, false);
        var q := if OnAxis(h, Column, xAxis) then EliminateOutside(p.board, nr, regionID, Members(Column, xAxis)) else Pass(p.board, false);
        Pass(q.board, p.changed || q.changed)
  }

  /** The region's handling of numbers 1..n. */
  function AxisNumbersUpTo(b: Board, ms: seq<int>, regionID: int, n: nat): (p: Pass)
    requires |b| == 81 && GridIndices(ms)
    ensures |p.board| == 81
    decreases n, b
  {
    if n == 0 then Pass(b, false)
    else
      var p := AxisNumbersUpTo(b, ms, regionID, n - 1);
      var q := AxisVisit(p.board, ms, regionID, n);
      Pass(q.board, p.changed || q.changed)
  }

  /** eliminateFromAxis on one region: a complete region is skipped. */
  function AxisRegion(b: Board, regionID: int): (p: Pass)
    requires |b| == 81
    ensures |p.board| == 81
  {
    var ms := Members(Region, regionID);
    MembersIndices(Region, regionID);
    if IsGroupComplete(b, ms) then Pass(b, false) else AxisNumbersUpTo(b, ms, regionID, 9)
  }

  /** eliminateFromAxis after regions 0..k-1. */
  function AxisUpTo(b: Board, k: nat): (p: Pass)
    requires |b| == 81
    ensures |p.board| == 81
    decreases k, b
  {
    if k == 0 then Pass(b, false)
    else
      var p := AxisUpTo(b, k - 1);
      var q := AxisRegion(p.board, k - 1);
      Pass(q.board, p.changed || q.changed)
  }

  /** One whole eliminateFromAxis pass. */
  function AxisPass(b: Board): Pass
    requires |b| == 81
  {
    AxisUpTo(b, 9)
  }

  /** Cell m of the grid is unset and lists nr. */
  predicate ListsUnset(b: Board, m: int, nr: int)
    requires 0 <= m < |b|
  {
    nr in b[m].candidates && !IsSet(b[m].candidates)
  }

  /** The skip of eliminateFromAxis when fewer than two cells are found: the list of unset
      holders is that short exactly when no two different members of the region are unset
      and list nr, and then the number leaves the board alone. */
  lemma AxisVisitFewHolders(b: Board, ms: seq<int>, regionID: int, nr: int)
    requires |b| == 81 && GridIndices(ms) && Increasing(ms)
    ensures |UnsetHolders(b, ms, nr)| < 2 <==>
      forall s, t :: 0 <= s < |ms| && 0 <= t < |ms| && ListsUnset(b, ms[s], nr) && ListsUnset(b, ms[t], nr) ==> ms[s] == ms[t]
    ensures |UnsetHolders(b, ms, nr)| < 2 ==> AxisVisit(b, ms, regionID, nr) == Pass(b, false)
  {
    var h := UnsetHolders(b, ms, nr);
    UnsetHoldersSpec(b, ms, nr);
    UnsetHoldersIncreasing(b, ms, nr);
    if |h| >= 2 {
      assert h[0] in ms && h[1] in ms;
      var s :| 0 <= s < |ms| && ms[s] == h[0];
      var t :| 0 <= t < |ms| && ms[t] == h[1];
      assert ListsUnset(b, ms[s], nr) && ListsUnset(b, ms[t], nr) && ms[s] != ms[t];
    } else {
      forall s, t | 0 <= s < |ms| && 0 <= t < |ms| && ListsUnset(b, ms[s], nr) && ListsUnset(b, ms[t], nr)
        ensures ms[s] == ms[t]
      {
        assert ms[s] in ms && ms[t] in ms;
        assert ms[s] in h && ms[t] in h;
      }
    }
  }

  lemma AxisVisitDeduces(b: Board, ms: seq<int>, regionID: int, nr: int)
    requires |b| == 81 && GridIndices(ms)
    ensures Deduces(b, AxisVisit(b, ms, regionID, nr))
  {
    DeducesNothing(b);
    if !NumberSetIn(b, ms, nr) {
      var h := UnsetHolders(b, ms, nr);
      if |h| >= 2 {
        var rows := Members(Row, Key(h[0], Row));
        var cols := Members(Column, Key(h[0], Column));
        MembersIndices(Row, Key(h[0], Row));
        MembersIndices(Column, Key(h[0], Column));
        var p := if OnAxis(h, Row, Key(h[0], Row)) then EliminateOutside(b, nr, regionID, rows) else Pass(b, false);
        EliminateUpToDeduces(b, rows, nr, regionID, |rows|);
        DeducesNothing(p.board);
        EliminateUpToDeduces(p.board, cols, nr, regionID, |cols|);
        var q := if OnAxis(h, Column, Key(h[0], Column)) then EliminateOutside(p.board, nr, regionID, cols) else Pass(p.board, false);
        DeducesCompose(b, p, q);
      }
    }
  }

  lemma {:induction false} AxisNumbersUpToDeduces(b: Board, ms: seq<int>, regionID: int, n: nat)
    requires |b| == 81 && GridIndices(ms)
    ensures Deduces(b, AxisNumbersUpTo(b, ms, regionID, n))
  {
    if n == 0 {
      DeducesNothing(b);
    } else {
      var p := AxisNumbersUpTo(b, ms, regionID, n - 1);
      AxisNumbersUpToDeduces(b, ms, regionID, n - 1);
      AxisVisitDeduces(p.board, ms, regionID, n);
      DeducesStep(b, p, AxisVisit(p.board, ms, regionID, n), AxisNumbersUpTo(b, ms, regionID, n));
    }
  }

  lemma {:induction false} AxisUpToDeduces(b: Board, k: nat)
    requires |b| == 81
    ensures Deduces(b, AxisUpTo(b, k))
  {
    if k == 0 {
      DeducesNothing(b);
    } else {
      var p := AxisUpTo(b, k - 1);
      AxisUpToDeduces(b, k - 1);
      AxisRegionDeduces(p.board, k - 1);
      DeducesStep(b, p, AxisRegion(p.board, k - 1), AxisUpTo(b, k));
    }
  }

  lemma AxisRegionDeduces(b: Board, regionID: int)
    requires |b| == 81
    ensures Deduces(b, AxisRegion(b, regionID))
  {
    MembersIndices(Region, regionID);
    if IsGroupComplete(b, Members(Region, regionID)) {
      DeducesNothing(b);
    } else {
      AxisNumbersUpToDeduces(b, Members(Region, regionID), regionID, 9);
    }
  }

  /** The box-line rule is sound. Every solution puts nr somewhere in the region, on a
      cell k; that cell lists nr and is not set (else nr would be set in the region), so
      it is one of the unset holders and lies on their common axis. A cell on that axis
      outside the region is a peer of k, so the solution does not put nr there. */
  lemma AxisVisitKeepsSolution(b: Board, ms: seq<int>, regionID: int, nr: int, s: seq<int>, k: int)
    requires |b| == 81 && GridIndices(ms) && PeersDiffer(s) && Compatible(s, b)
    requires k in ms && Key(k, Region) == regionID && s[k] == nr
    ensures Compatible(s, AxisVisit(b, ms, regionID, nr).board)
  {
    if !NumberSetIn(b, ms, nr) {
      var h := UnsetHolders(b, ms, nr);
      UnsetHoldersSpec(b, ms, nr);
      NumberSetInIff(b, ms, nr);
      if |h| >= 2 {
        assert k in h;
        var yAxis := Key(h[0], Row);
        var xAxis := Key(h[0], Column);
        var rows := Members(Row, yAxis);
        var cols := Members(Column, xAxis);
        MembersIn(Row, yAxis);
        MembersIn(Column, xAxis);
        var p := if OnAxis(h, Row, yAxis) then EliminateOutside(b, nr, regionID, rows) else Pass(b, false);
        if OnAxis(h, Row, yAxis) {
          forall t | 0 <= t < |rows| && Key(rows[t], Region) != regionID ensures s[rows[t]] != nr {
            assert Peers(rows[t], k);
          }
          EliminateUpToKeepsSolution(b, rows, nr, regionID, |rows|, s);
        }
        if OnAxis(h, Column, xAxis) {
          forall t | 0 <= t < |cols| && Key(cols[t], Region) != regionID ensures s[cols[t]] != nr {
            assert Peers(cols[t], k);
          }
          EliminateUpToKeepsSolution(p.board, cols, nr, regionID, |cols|, s);
        }
      }
    }
  }

  lemma {:induction false} AxisNumbersUpToKeepsSolution(b: Board, ms: seq<int>, regionID: int, n: nat, s: seq<int>)
    requires |b| == 81 && GridIndices(ms) && InUnit(ms, Region, regionID) && n <= 9
    requires ShowsAll(s, ms) && PeersDiffer(s) && Compatible(s, b)
    ensures Compatible(s, AxisNumbersUpTo(b, ms, regionID, n).board)
  {
    if n > 0 {
      AxisNumbersUpToKeepsSolution(b, ms, regionID, n - 1, s);
      assert Shows(s, ms, n);
      var t :| 0 <= t < |ms| && 0 <= ms[t] < |s| && s[ms[t]] == n;
      AxisVisitKeepsSolution(AxisNumbersUpTo(b, ms, regionID, n - 1).board, ms, regionID, n, s, ms[t]);
    }
  }

  lemma {:induction false} AxisUpToKeepsSolution(b: Board, k: nat, s: seq<int>)
    requires |b| == 81 && k <= 9
    requires IsSolution(s) && Compatible(s, b)
    ensures Compatible(s, AxisUpTo(b, k).board)
  {
    if k > 0 {
      AxisUpToKeepsSolution(b, k - 1, s);
      AxisRegionKeepsSolution(AxisUpTo(b, k - 1).board, k - 1, s);
    }
  }

  lemma AxisRegionKeepsSolution(b: Board, regionID: int, s: seq<int>)
    requires |b| == 81 && 0 <= regionID < 9
    requires IsSolution(s) && Compatible(s, b)
    ensures Compatible(s, AxisRegion(b, regionID).board)
  {
    MembersIndices(Region, regionID);
    if !IsGroupComplete(b, Members(Region, regionID)) {
      MembersIn(Region, regionID);
      SolutionShowsAll(s, Region, regionID);
      AxisNumbersUpToKeepsSolution(b, Members(Region, regionID), regionID, 9, s);
    }
  }

  // ---------------------------------------------------------------------------
  // Hidden singles on a puzzle without a solution
  // ---------------------------------------------------------------------------

  /** compareToCandidates fixes a sole holder without asking isValidNumber, so on a
      puzzle with no solution it can set two peers to the same value. On a board where
      only cells (0,0) and (0,5) list 5 and no cell is set, region 0 fixes (0,0) to 5 and
      region 1 then fixes (0,5) to 5: two set cells of row 0 hold 5. With a solution in
      reach this cannot happen (Iteration.TurnConsistent). */
  lemma HiddenSinglesClash(b: Board)
    requires |b| == 81 && forall i :: 0 <= i < 81 ==> !IsSet(b[i].candidates)
    requires 5 in b[0].candidates && 5 in b[5].candidates
    requires forall i :: 0 <= i < 81 && i != 0 && i != 5 ==> 5 !in b[i].candidates
    ensures Consistent(b)
    ensures GridIndices(Members(Region, 0)) && GridIndices(Members(Region, 1)) &&
      var p := HiddenVisit(b, Members(Region, 0), 5);
      var q := HiddenVisit(p.board, Members(Region, 1), 5);
      p.changed && q.changed && !Consistent(q.board)
  {
    var ms0, ms1 := Members(Region, 0), Members(Region, 1);
    MembersIndices(Region, 0);
    MembersIndices(Region, 1);
    MembersIn(Region, 0);
    MembersIn(Region, 1);
    MembersHas(Region, 0, 0);
    MembersHas(Region, 1, 5);
    assert Key(0, Region) == 0 && Key(5, Region) == 1;
    HiddenVisitSoleHolder(b, ms0, 5, 0);
    var b1 := b[0 := Fixed(5)];
    HiddenVisitSoleHolder(b1, ms1, 5, 5);
    var b2 := b1[5 := Fixed(5)];
    assert Peers(0, 5) && IsSet(b2[0].candidates) && IsSet(b2[5].candidates);
  }
}
