/** Candidate lists of a single cell, as values.

    A cell holds an ordered list of candidate digits. It is "set" when exactly one
    candidate is left, and that candidate is then its value. The order of the list
    matters: backtracking tries candidates in list order, and the naked-single rule
    compares old and new lists with list inequality. */
module Candidates {

  datatype Option<T> = None | Some(value: T)

  /** The mutable state of one cell: its candidate list and the flag that
      makeAbsolute raises. */
  datatype CellState = CellState(candidates: seq<int>, absolute: bool)

  /** The list every new cell starts with. */
  const AllDigits: seq<int> := [1, 2, 3, 4, 5, 6, 7, 8, 9]

  /** A cell is set when exactly one candidate is left. */
  predicate IsSet(cs: seq<int>)
  {
    |cs| == 1
  }

  /** The value of a set cell, None for an unset one. */
  function GetValue(cs: seq<int>): (r: Option<int>)
    ensures r.Some? <==> IsSet(cs)
    ensures r.Some? ==> cs == [r.value]
  {
    if IsSet(cs) then Some(cs[0]) else None
  }

  /** The state makeAbsolute leaves behind, whatever the previous list was. */
  function Fixed(value: int): CellState
  {
    CellState([value], true)
  }

  /** The 3x3 region of the cell at row y, column x. The row component is chosen by
      comparisons, as the source does, and starts at 0 for rows outside 0..8. */
  function CalcRegionID(y: int, x: int): (r: int)
    ensures 0 <= y < 9 && 0 <= x < 9 ==> r == 3 * (y / 3) + x / 3 && 0 <= r < 9
  {
    var yComp := if y < 3 then 0 else if y < 6 then 3 else if y < 9 then 6 else 0;
    yComp + x / 3
  }

  /** a is an order-preserving sublist of b: b with some elements dropped. */
  predicate Sublist(a: seq<int>, b: seq<int>)
    decreases |b|
  {
    if b == [] then a == []
    else (a != [] && a[0] == b[0] && Sublist(a[1..], b[1..])) || Sublist(a, b[1..])
  }

  lemma {:induction false} SublistRefl(a: seq<int>)
    ensures Sublist(a, a)
    decreases |a|
  {
    if a != [] {
      SublistRefl(a[1..]);
    }
  }

  lemma {:induction false} SublistMember(a: seq<int>, b: seq<int>, v: int)
    requires Sublist(a, b) && v in a
    ensures v in b
    decreases |b|
  {
    if a != [] && b != [] && a[0] == b[0] && Sublist(a[1..], b[1..]) {
      if v != a[0] {
        SublistMember(a[1..], b[1..], v);
      }
    } else if b != [] {
      SublistMember(a, b[1..], v);
    }
  }

  lemma {:induction false} SublistLength(a: seq<int>, b: seq<int>)
    requires Sublist(a, b)
    ensures |a| <= |b|
    decreases |b|
  {
    if b != [] {
      if a != [] && a[0] == b[0] && Sublist(a[1..], b[1..]) {
        SublistLength(a[1..], b[1..]);
      } else {
        SublistLength(a, b[1..]);
      }
    }
  }

  /** Dropping elements twice is dropping elements once. */
  lemma {:induction false} SublistTrans(a: seq<int>, b: seq<int>, c: seq<int>)
    requires Sublist(a, b) && Sublist(b, c)
    ensures Sublist(a, c)
    decreases |c|
  {
    if c == [] {
    } else if Sublist(b, c[1..]) {
      SublistTrans(a, b, c[1..]);
    } else {
      assert b != [] && b[0] == c[0] && Sublist(b[1..], c[1..]);
      if a != [] && a[0] == b[0] && Sublist(a[1..], b[1..]) {
        SublistTrans(a[1..], b[1..], c[1..]);
      } else {
        SublistTrans(a, b[1..], c[1..]);
      }
    }
  }

  lemma {:induction false} EmptySublist(b: seq<int>)
    ensures Sublist([], b)
    decreases |b|
  {
    if b != [] {
      EmptySublist(b[1..]);
    }
  }

  /** A single candidate taken from a list is a sublist of it. */
  lemma {:induction false} SingletonSublist(v: int, b: seq<int>)
    requires v in b
    ensures Sublist([v], b)
    decreases |b|
  {
    if b[0] == v {
      assert [v][1..] == [];
      EmptySublist(b[1..]);
    } else {
      SingletonSublist(v, b[1..]);
    }
  }

  /** Python's list.remove: drop the first occurrence of v. */
  function RemoveFirst(cs: seq<int>, v: int): (r: seq<int>)
    requires v in cs
    ensures |r| == |cs| - 1
  {
    if cs[0] == v then cs[1..]
    else [cs[0]] + RemoveFirst(cs[1..], v)
  }

  /** Exactly one occurrence of v goes. */
  lemma {:induction false} RemoveFirstMultiset(cs: seq<int>, v: int)
    requires v in cs
    ensures multiset(RemoveFirst(cs, v)) == multiset(cs) - multiset{v}
    decreases |cs|
  {
    assert cs == [cs[0]] + cs[1..];
    if cs[0] != v {
      RemoveFirstMultiset(cs[1..], v);
    }
  }

  lemma {:induction false} RemoveFirstSublist(cs: seq<int>, v: int)
    requires v in cs
    ensures Sublist(RemoveFirst(cs, v), cs)
    decreases |cs|
  {
    if cs[0] == v {
      SublistRefl(cs[1..]);
    } else {
      RemoveFirstSublist(cs[1..], v);
      var r := RemoveFirst(cs, v);
      assert r[0] == cs[0] && r[1..] == RemoveFirst(cs[1..], v);
    }
  }

  /** Removing v leaves every other candidate in place. */
  lemma RemoveFirstKeeps(cs: seq<int>, v: int, u: int)
    requires v in cs && u != v
    ensures u in RemoveFirst(cs, v) <==> u in cs
  {
    var r := RemoveFirst(cs, v);
    RemoveFirstMultiset(cs, v);
    assert u in r <==> u in multiset(r);
    assert u in cs <==> u in multiset(cs);
  }
}
