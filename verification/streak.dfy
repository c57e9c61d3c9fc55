/**
 The streak scan of a habit row. From a pivot day it counts the marked days
 running forward to the end of the week, then adds the marked days running
 backward from the day before the pivot to the start of the week. The week
 does not wrap: the last day and the first day are not neighbours.
 */
module Streak {

  /** Every day in the half-open range [lo, hi) is marked. */
  predicate AllMarked(days: seq<bool>, lo: nat, hi: nat)
    requires lo <= hi <= |days|
  {
    forall k :: lo <= k < hi ==> days[k]
  }

  /** [lo, hi) is a run of marked days that cannot be extended on either side. */
  predicate MaximalRun(days: seq<bool>, lo: nat, hi: nat) {
    && lo <= hi <= |days|
    && AllMarked(days, lo, hi)
    && (lo == 0 || !days[lo - 1])
    && (hi == |days| || !days[hi])
  }

  /** Number of consecutive marked days starting at day i. */
  function RunForward(days: seq<bool>, i: nat): (n: nat)
    requires i <= |days|
    ensures i + n <= |days|
    ensures AllMarked(days, i, i + n)
    ensures i + n == |days| || !days[i + n]
    decreases |days| - i
  {
    if i == |days| || !days[i] then 0 else 1 + RunForward(days, i + 1)
  }

  /** Number of consecutive marked days ending at day j - 1. */
  function RunBackward(days: seq<bool>, j: nat): (n: nat)
    requires j <= |days|
    ensures n <= j
    ensures AllMarked(days, j - n, j)
    ensures j - n == 0 || !days[j - n - 1]
  {
    if j == 0 || !days[j - 1] then 0 else 1 + RunBackward(days, j - 1)
  }

  /** The streak at a pivot: the forward run from it plus the backward run before it. */
  function StreakAt(days: seq<bool>, index: nat): (n: nat)
    requires index <= |days|
    ensures n <= |days|
  {
    RunForward(days, index) + RunBackward(days, index)
  }

  /**
   The scan as the app performs it: two loops that stop at the first unmarked
   day or at the end of the week.
   */
  method CalculateStreak(days: seq<bool>, index: nat) returns (streak: nat)
    requires index <= |days|
    ensures streak == StreakAt(days, index)
    ensures streak <= |days|
  {
    streak := 0;
    var i := index;
    while i < |days|
      invariant index <= i <= |days|
      invariant streak == i - index
      invariant AllMarked(days, index, i)
      decreases |days| - i
    {
      if days[i] {
        streak := streak + 1;
        i := i + 1;
      } else {
        break;
      }
    }
    ForwardRunIsUnique(days, index, i);
    var forward := streak;
    var j := index;
    while j > 0
      invariant 0 <= j <= index
      invariant streak == forward + (index - j)
      invariant AllMarked(days, j, index)
    {
      if days[j - 1] {
        streak := streak + 1;
        j := j - 1;
      } else {
        break;
      }
    }
    BackwardRunIsUnique(days, index, j);
  }

  /**
   A marked stretch from i stopped by an unmarked day or the end is the
   forward run; a corollary of the contract of RunForward.
   */
  lemma ForwardRunIsUnique(days: seq<bool>, i: nat, e: nat)
    requires i <= e <= |days|
    requires AllMarked(days, i, e)
    requires e == |days| || !days[e]
    ensures RunForward(days, i) == e - i
  {
  }

  /**
   A marked stretch ending at j - 1 stopped by an unmarked day or the start
   is the backward run; a corollary of the contract of RunBackward.
   */
  lemma BackwardRunIsUnique(days: seq<bool>, j: nat, b: nat)
    requires b <= j <= |days|
    requires AllMarked(days, b, j)
    requires b == 0 || !days[b - 1]
    ensures RunBackward(days, j) == j - b
  {
  }

  /**
   On a marked pivot the streak is the length of the maximal run of marked
   days containing it: such a run exists and every such run has that length.
   */
  lemma StreakOnMarkedDay(days: seq<bool>, index: nat)
    requires index < |days| && days[index]
    ensures exists lo: nat, hi: nat :: MaximalRun(days, lo, hi) && lo <= index < hi && StreakAt(days, index) == hi - lo
    ensures forall lo: nat, hi: nat :: MaximalRun(days, lo, hi) && lo <= index < hi ==> StreakAt(days, index) == hi - lo
  {
    var lo := index - RunBackward(days, index);
    var hi := index + RunForward(days, index);
    assert MaximalRun(days, lo, hi);
    forall lo': nat, hi': nat | MaximalRun(days, lo', hi') && lo' <= index < hi'
      ensures StreakAt(days, index) == hi' - lo'
    {
      ForwardRunIsUnique(days, index, hi');
      BackwardRunIsUnique(days, index, lo');
    }
  }

  /**
   On an unmarked pivot the forward count is zero and the streak is the
   length of the run of marked days that ends just before it.
   */
  lemma StreakOnUnmarkedDay(days: seq<bool>, index: nat)
    requires index < |days| && !days[index]
    ensures RunForward(days, index) == 0
    ensures exists lo: nat :: MaximalRun(days, lo, index) && StreakAt(days, index) == index - lo
    ensures forall lo: nat :: MaximalRun(days, lo, index) ==> StreakAt(days, index) == index - lo
    ensures index == 0 ==> StreakAt(days, index) == 0
  {
    assert RunForward(days, index) == 0;
    var lo := index - RunBackward(days, index);
    assert MaximalRun(days, lo, index) && StreakAt(days, index) == index - lo;
    forall lo': nat | MaximalRun(days, lo', index)
      ensures StreakAt(days, index) == index - lo'
    {
      BackwardRunIsUnique(days, index, lo');
    }
  }

  /**
   Both characterisations at once, for a pivot anywhere up to and including
   one past the last day, where the forward count is empty and the streak is
   the run that ends the week.
   */
  lemma StreakIsRunLength(days: seq<bool>, index: nat)
    requires index <= |days|
    ensures index < |days| && days[index] ==>
      forall lo: nat, hi: nat :: MaximalRun(days, lo, hi) && lo <= index < hi ==> StreakAt(days, index) == hi - lo
    ensures (index == |days| || !days[index]) ==>
      forall lo: nat :: MaximalRun(days, lo, index) ==> StreakAt(days, index) == index - lo
  {
    if index < |days| && days[index] {
      StreakOnMarkedDay(days, index);
    } else {
      forall lo: nat | MaximalRun(days, lo, index)
        ensures StreakAt(days, index) == index - lo
      {
        BackwardRunIsUnique(days, index, lo);
      }
    }
  }

  /** The scan never looks across the week boundary: the streak at the last day ignores the first. */
  lemma NoWraparound(days: seq<bool>)
    requires |days| >= 2 && !days[|days| - 2] && days[|days| - 1]
    ensures StreakAt(days, |days| - 1) == 1
  {
    var last := |days| - 1;
    ForwardRunIsUnique(days, last, |days|);
    BackwardRunIsUnique(days, last, last);
  }
}
