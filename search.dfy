/** Depth-first backtracking over boards: solveByExhaustion as a function.

    The search takes the first unset cell in row-major order and tries its candidates
    in list order. A candidate is placed only when IsValidNumber accepts it on the board
    as it stands; the rest of the grid is then searched with that cell fixed. When the
    deeper search comes back with every cell set, the search stops. Otherwise the
    cell's candidate list is restored from the copy taken before the placement (its
    absolute flag stays raised, as makeAbsolute left it) and the next candidate is
    tried. When no candidate is left, or the first unset cell has none, the search
    returns.

    Sudoku.solveByExhaustion iterates the list object the cell held when its loop
    started; makeAbsolute replaces the cell's list by a new one, so later iterations
    still walk the original list. TryCandidates therefore carries the rest of that
    list as cs. */
module Search {
  import opened Candidates
  import opened Grid

  /** The board after solveByExhaustion. */
  function Exhaust(b: Board): (r: Board)
    requires |b| == 81
    ensures |r| == 81
    ensures !IsSolved(r) ==> SameCandidates(r, b)
    decreases UnsetCount(b), 1, 0
  {
    var i := FirstUnset(b, 0);
    if i == |b| then b
    else TryCandidates(b, i, b[i].candidates)
  }

  /** The candidate loop at the first unset cell i, over the candidates cs still to try. */
  function TryCandidates(b: Board, i: int, cs: seq<int>): (r: Board)
    requires |b| == 81 && 0 <= i < 81 && !IsSet(b[i].candidates)
    ensures |r| == 81
    ensures !IsSolved(r) ==> SameCandidates(r, b)
    decreases UnsetCount(b), 0, |cs|
  {
    if cs == [] then b
    else if IsValidNumber(b, i, cs[0]) then
      var placed := b[i := Fixed(cs[0])];
      UnsetCountFix(b, i, Fixed(cs[0]));
      var r := Exhaust(placed);
      if IsSolved(r) then r
      else
        var restored := r[i := CellState(b[i].candidates, r[i].absolute)];
        RestoredSame(b, placed, r, i);
        UnsetCountSame(restored, b);
        TryCandidates(restored, i, cs[1..])
    else TryCandidates(b, i, cs[1..])
  }

  /** Restoring cell i's list after a failed placement gives back b's lists. */
  lemma RestoredSame(b: Board, placed: Board, r: Board, i: int)
    requires 0 <= i < |b| && |placed| == |b| && SameCandidates(r, placed)
    requires forall j :: 0 <= j < |b| && j != i ==> placed[j] == b[j]
    ensures SameCandidates(r[i := CellState(b[i].candidates, r[i].absolute)], b)
  {
  }

  /** Every list of r is b's list, or a single candidate taken from b's list. */
  ghost predicate Refines(r: Board, b: Board)
  {
    |r| == |b| &&
    forall j :: 0 <= j < |b| ==> r[j].candidates == b[j].candidates || (IsSet(r[j].candidates) && r[j].candidates[0] in b[j].candidates)
  }

  lemma RefinesTrans(a: Board, b: Board, c: Board)
    requires Refines(a, b) && Refines(b, c)
    ensures Refines(a, c)
  {
    forall j | 0 <= j < |c|
      ensures a[j].candidates == c[j].candidates || (IsSet(a[j].candidates) && a[j].candidates[0] in c[j].candidates)
    {
      if a[j].candidates != b[j].candidates {
        assert b[j].candidates != c[j].candidates ==> b[j].candidates == [b[j].candidates[0]];
      }
    }
  }

  /** The search changes a cell only by fixing it to one of its own candidates. */
  lemma {:induction false} ExhaustRefines(b: Board)
    requires |b| == 81
    ensures Refines(Exhaust(b), b)
    decreases UnsetCount(b), 1, 0
  {
    var i := FirstUnset(b, 0);
    if i < |b| {
      TryCandidatesRefines(b, i, b[i].candidates);
    }
  }

  lemma {:induction false} TryCandidatesRefines(b: Board, i: int, cs: seq<int>)
    requires |b| == 81 && 0 <= i < 81 && !IsSet(b[i].candidates)
    requires forall t :: 0 <= t < |cs| ==> cs[t] in b[i].candidates
    ensures Refines(TryCandidates(b, i, cs), b)
    decreases UnsetCount(b), 0, |cs|
  {
    var r := TryCandidates(b, i, cs);
    if cs == [] {
    } else if IsValidNumber(b, i, cs[0]) {
      var placed := b[i := Fixed(cs[0])];
      UnsetCountFix(b, i, Fixed(cs[0]));
      var e := Exhaust(placed);
      ExhaustRefines(placed);
      if IsSolved(e) {
        assert Refines(placed, b);
        RefinesTrans(e, placed, b);
      } else {
        var restored := e[i := CellState(b[i].candidates, e[i].absolute)];
        RestoredSame(b, placed, e, i);
        UnsetCountSame(restored, b);
        TryCandidatesRefines(restored, i, cs[1..]);
        RefinesTrans(r, restored, b);
      }
    } else {
      TryCandidatesRefines(b, i, cs[1..]);
    }
  }

  /** Consistency looks only at candidate lists. */
  lemma ConsistentSame(a: Board, b: Board)
    requires SameCandidates(a, b) && Consistent(b)
    ensures Consistent(a)
  {
    forall i, j | 0 <= i < |a| && 0 <= j < |a| && i != j && Peers(i, j) && IsSet(a[i].candidates) && IsSet(a[j].candidates)
      ensures a[i].candidates[0] != a[j].candidates[0]
    {
      assert a[i].candidates == b[i].candidates && a[j].candidates == b[j].candidates;
    }
  }

  /** The search never sets two peers to the same value. */
  lemma {:induction false} ExhaustConsistent(b: Board)
    requires |b| == 81 && Consistent(b)
    ensures Consistent(Exhaust(b))
    decreases UnsetCount(b), 1, 0
  {
    var i := FirstUnset(b, 0);
    if i < |b| {
      TryCandidatesConsistent(b, i, b[i].candidates);
    }
  }

  lemma {:induction false} TryCandidatesConsistent(b: Board, i: int, cs: seq<int>)
    requires |b| == 81 && 0 <= i < 81 && !IsSet(b[i].candidates) && Consistent(b)
    ensures Consistent(TryCandidates(b, i, cs))
    decreases UnsetCount(b), 0, |cs|
  {
    if cs == [] {
    } else if IsValidNumber(b, i, cs[0]) {
      var placed := b[i := Fixed(cs[0])];
      UnsetCountFix(b, i, Fixed(cs[0]));
      PlaceConsistent(b, i, cs[0]);
      var e := Exhaust(placed);
      ExhaustConsistent(placed);
      if !IsSolved(e) {
        var restored := e[i := CellState(b[i].candidates, e[i].absolute)];
        RestoredSame(b, placed, e, i);
        UnsetCountSame(restored, b);
        ConsistentSame(restored, b);
        TryCandidatesConsistent(restored, i, cs[1..]);
      }
    } else {
      TryCandidatesConsistent(b, i, cs[1..]);
    }
  }

  /** The search is complete: when some solution agrees with every candidate list,
      it comes back with every cell set. */
  lemma {:induction false} ExhaustComplete(b: Board, s: seq<int>)
    requires |b| == 81 && IsSolution(s) && Compatible(s, b)
    ensures IsSolved(Exhaust(b))
    decreases UnsetCount(b), 1, 0
  {
    var i := FirstUnset(b, 0);
    if i < |b| {
      TryCandidatesComplete(b, i, b[i].candidates, s);
    }
  }

  lemma {:induction false} TryCandidatesComplete(b: Board, i: int, cs: seq<int>, s: seq<int>)
    requires |b| == 81 && 0 <= i < 81 && !IsSet(b[i].candidates)
    requires IsSolution(s) && Compatible(s, b) && s[i] in cs
    ensures IsSolved(TryCandidates(b, i, cs))
    decreases UnsetCount(b), 0, |cs|
  {
    if cs[0] == s[i] {
      SolutionValueValid(b, i, s);
      var placed := b[i := Fixed(cs[0])];
      UnsetCountFix(b, i, Fixed(cs[0]));
      ExhaustComplete(placed, s);
    } else if IsValidNumber(b, i, cs[0]) {
      var placed := b[i := Fixed(cs[0])];
      UnsetCountFix(b, i, Fixed(cs[0]));
      var e := Exhaust(placed);
      if !IsSolved(e) {
        var restored := e[i := CellState(b[i].candidates, e[i].absolute)];
        RestoredSame(b, placed, e, i);
        UnsetCountSame(restored, b);
        TryCandidatesComplete(restored, i, cs[1..], s);
      }
    } else {
      TryCandidatesComplete(b, i, cs[1..], s);
    }
  }
}
