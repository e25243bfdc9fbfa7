/** One turn of Sudoku.solve's loop, as a function on boards.

    A turn clears hasChanged, runs naked singles, hidden singles per region, per row
    and per column, and the box-line rule, and falls back on the backtracking search
    when none of them raised the flag. The loop itself stops once the grid is solved;
    the lemmas below show that on a puzzle with a solution every turn either solves the
    grid or sets at least one more cell, so the loop would end. */
module Iteration {
  import opened Candidates
  import opened Grid
  import opened Rules
  import opened Search

  /** The five rule passes of one turn in the source's order; the flag is hasChanged
      after the last of them. */
  function RuleBattery(b: Board): Pass
    requires |b| == 81
  {
    var p1 := NakedPass(b);
    var p2 := HiddenPass(p1.board, Region);
    var p3 := HiddenPass(p2.board, Row);
    var p4 := HiddenPass(p3.board, Column);
    var p5 := AxisPass(p4.board);
    Pass(p5.board, p1.changed || p2.changed || p3.changed || p4.changed || p5.changed)
  }

  /** The board after one turn. */
  function Turn(b: Board): Board
    requires |b| == 81
  {
    var p := RuleBattery(b);
    if p.changed then p.board else Exhaust(p.board)
  }

  /** Together the rules only shrink lists, never touch a set cell, and raise the flag
      exactly when some unset cell became set. */
  lemma RuleBatteryDeduces(b: Board)
    requires |b| == 81
    ensures Deduces(b, RuleBattery(b))
  {
    var p1 := NakedPass(b);
    NakedUpToDeduces(b, |b|);
    var p2 := HiddenPass(p1.board, Region);
    HiddenUpToDeduces(p1.board, Region, 9);
    DeducesCompose(b, p1, p2);
    var a2 := Pass(p2.board, p1.changed || p2.changed);
    var p3 := HiddenPass(p2.board, Row);
    HiddenUpToDeduces(p2.board, Row, 9);
    DeducesCompose(b, a2, p3);
    var a3 := Pass(p3.board, a2.changed || p3.changed);
    var p4 := HiddenPass(p3.board, Column);
    HiddenUpToDeduces(p3.board, Column, 9);
    DeducesCompose(b, a3, p4);
    var a4 := Pass(p4.board, a3.changed || p4.changed);
    var p5 := AxisPass(p4.board);
    AxisUpToDeduces(p4.board, 9);
    DeducesStep(b, a4, p5, RuleBattery(b));
  }

  /** The rules are sound: a solution that agrees with every list before the pass still
      agrees after it. */
  lemma RuleBatteryKeepsSolution(b: Board, s: seq<int>)
    requires |b| == 81 && IsSolution(s) && Compatible(s, b)
    ensures Compatible(s, RuleBattery(b).board)
  {
    var p1 := NakedPass(b);
    NakedUpToKeepsSolution(b, |b|, s);
    var p2 := HiddenPass(p1.board, Region);
    HiddenUpToKeepsSolution(p1.board, Region, 9, s);
    var p3 := HiddenPass(p2.board, Row);
    HiddenUpToKeepsSolution(p2.board, Row, 9, s);
    var p4 := HiddenPass(p3.board, Column);
    HiddenUpToKeepsSolution(p3.board, Column, 9, s);
    AxisUpToKeepsSolution(p4.board, 9, s);
  }

  /** A pass that raised the flag set at least one more cell. */
  lemma DeducesProgress(b: Board, p: Pass)
    requires Deduces(b, p) && p.changed
    ensures UnsetCount(p.board) < UnsetCount(b)
  {
    var i :| 0 <= i < |b| && NewlySet(b, p.board, i);
    UnsetCountMono(p.board, b);
  }

  /** On a puzzle with a solution that agrees with every list, a turn either solves the
      grid or sets more cells while keeping the solution possible; so solve's loop ends. */
  lemma TurnProgress(b: Board, s: seq<int>)
    requires |b| == 81 && IsSolution(s) && Compatible(s, b)
    ensures IsSolved(Turn(b)) || (UnsetCount(Turn(b)) < UnsetCount(b) && Compatible(s, Turn(b)))
  {
    var p := RuleBattery(b);
    RuleBatteryDeduces(b);
    RuleBatteryKeepsSolution(b, s);
    if p.changed {
      DeducesProgress(b, p);
    } else {
      ExhaustComplete(p.board, s);
    }
  }

  /** With a solution in reach, a turn never sets two peers to the same value. */
  lemma TurnConsistent(b: Board, s: seq<int>)
    requires |b| == 81 && IsSolution(s) && Compatible(s, b)
    ensures Consistent(RuleBattery(b).board)
    ensures Consistent(Turn(b))
  {
    var p := RuleBattery(b);
    RuleBatteryKeepsSolution(b, s);
    CompatibleConsistent(p.board, s);
    if !p.changed {
      ExhaustConsistent(p.board);
    }
  }
}
