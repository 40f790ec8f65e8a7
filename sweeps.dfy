/** The column cursor of the row loops of nextTick (headers/Simulator.h). Each row is walked
    by a while loop over y; advance[y] says whether the pass at column y reaches ++y. In
    phase B a wall is skipped with a `continue` placed before ++y, and in phase C ++y sits
    inside the test for an open, unstamped cell, so in both the cursor stops at the first
    column that fails the test and the loop never ends. The corrected loop advances on every
    pass and leaves the row after M passes; it is the loop shape of the phase sweeps in the
    Engine module. */
module Sweeps {
  /** The column after `steps` passes of a row loop started at column y, or the row length
      once the loop has left the row. */
  function Run(advance: seq<bool>, y: nat, steps: nat): (r: nat)
    requires y <= |advance|
    ensures y <= r <= |advance|
    decreases steps
  {
    if steps == 0 || y == |advance| then y
    else Run(advance, if advance[y] then y + 1 else y, steps - 1)
  }

  /** A pass that does not reach ++y leaves the cursor where it was, for ever: the loop never
      leaves the row. */
  lemma {:induction false} Stalls(advance: seq<bool>, y: nat, steps: nat)
    requires y < |advance| && !advance[y]
    ensures Run(advance, y, steps) == y
    decreases steps
  {
    if steps > 0 {
      Stalls(advance, y, steps - 1);
    }
  }

  /** Phase B as written: ++y is reached exactly at the columns that are not walls. */
  function PhaseBAdvance(walls: seq<bool>): (a: seq<bool>)
    ensures |a| == |walls| && forall j :: 0 <= j < |walls| ==> (a[j] <==> !walls[j])
  {
    seq(|walls|, j requires 0 <= j < |walls| => !walls[j])
  }

  /** Phase C as written: ++y is reached exactly at open columns not yet stamped UT. */
  function PhaseCAdvance(walls: seq<bool>, stamped: seq<bool>): (a: seq<bool>)
    requires |stamped| == |walls|
    ensures |a| == |walls| && forall j :: 0 <= j < |walls| ==> (a[j] <==> !walls[j] && !stamped[j])
  {
    seq(|walls|, j requires 0 <= j < |walls| => !walls[j] && !stamped[j])
  }

  /** Row 0 of a bordered scene is all walls, so phase B never gets past its first column,
      however many passes it makes. */
  lemma PhaseBStallsOnBorder(walls: seq<bool>, steps: nat)
    requires |walls| > 0 && walls[0]
    ensures Run(PhaseBAdvance(walls), 0, steps) == 0
  {
    Stalls(PhaseBAdvance(walls), 0, steps);
  }

  /** Likewise phase C, whatever the stamps. */
  lemma PhaseCStallsOnBorder(walls: seq<bool>, stamped: seq<bool>, steps: nat)
    requires |walls| > 0 && walls[0] && |stamped| == |walls|
    ensures Run(PhaseCAdvance(walls, stamped), 0, steps) == 0
  {
    Stalls(PhaseCAdvance(walls, stamped), 0, steps);
  }

  /** The corrected loop: ++y on every pass. */
  function Always(len: nat): (a: seq<bool>)
    ensures |a| == len && forall j :: 0 <= j < len ==> a[j]
  {
    seq(len, j => true)
  }

  /** The corrected loop moves one column per pass and leaves the row after exactly M - y
      passes, having visited every column from y on. */
  lemma {:induction false} CorrectedLeavesRow(len: nat, y: nat, steps: nat)
    requires y <= len
    ensures Run(Always(len), y, steps) == if y + steps <= len then y + steps else len
    decreases steps
  {
    if steps > 0 && y < len {
      CorrectedLeavesRow(len, y + 1, steps - 1);
    }
  }
}
