/** Day 1: frequency drift.  Part 1 adds up a list of changes; part 2 walks
    the running totals of the list repeated forever and reports the first
    total that was already seen. */
module Day01 {
  import opened Wrappers

  /** `iter().sum()`, folded from the left. */
  function Sum(changes: seq<int>): int {
    if changes == [] then 0 else Sum(changes[..|changes| - 1]) + changes[|changes| - 1]
  }

  lemma {:induction false} SumAppend(a: seq<int>, b: seq<int>)
    ensures Sum(a + b) == Sum(a) + Sum(b)
    decreases |b|
  {
    if b == [] {
      assert a + b == a;
    } else {
      var b' := b[..|b| - 1];
      assert (a + b)[..|a + b| - 1] == a + b';
      SumAppend(a, b');
    }
  }

  /** Element `k` of the list repeated forever (`iter().cycle()`). */
  function Cycled(changes: seq<int>, k: nat): int
    requires |changes| > 0
  {
    if k < |changes| then changes[k] else Cycled(changes, k - |changes|)
  }

  lemma {:induction false} CycledAt(changes: seq<int>, pass: nat, pos: nat)
    requires pos < |changes|
    ensures Cycled(changes, pass * |changes| + pos) == changes[pos]
  {
    if pass > 0 {
      CycledAt(changes, pass - 1, pos);
      assert pass * |changes| + pos - |changes| == (pass - 1) * |changes| + pos;
    }
  }

  /** The frequency after the first `k` changes of the cycled list, starting
      from 0. */
  function RunningTotal(changes: seq<int>, k: nat): int
    requires |changes| > 0
  {
    if k == 0 then 0 else RunningTotal(changes, k - 1) + Cycled(changes, k - 1)
  }

  lemma {:induction false} RunningTotalOfPrefix(changes: seq<int>, k: nat)
    requires k <= |changes| && |changes| > 0
    ensures RunningTotal(changes, k) == Sum(changes[..k])
  {
    if k > 0 {
      RunningTotalOfPrefix(changes, k - 1);
      assert changes[..k][..k - 1] == changes[..k - 1];
    }
  }

  /** Part 1: the sum of all changes, which is the frequency after one pass
      over the list. */
  function Part1(changes: seq<int>): (r: int)
    ensures |changes| > 0 ==> r == RunningTotal(changes, |changes|)
  {
    assert changes[..|changes|] == changes;
    if |changes| > 0 then
      RunningTotalOfPrefix(changes, |changes|);
      Sum(changes)
    else
      Sum(changes)
  }

  /** Every full pass over the list shifts the running total by the sum of
      the list. */
  lemma {:induction false} RunningTotalPeriodic(changes: seq<int>, k: nat)
    requires |changes| > 0
    ensures RunningTotal(changes, k + |changes|) == RunningTotal(changes, k) + Sum(changes)
  {
    if k == 0 {
      RunningTotalOfPrefix(changes, |changes|);
      assert changes[..|changes|] == changes;
    } else {
      RunningTotalPeriodic(changes, k - 1);
      assert k + |changes| - 1 == (k - 1) + |changes|;
    }
  }

  /** The total after `k` steps equals the total after some earlier step
      `j >= 1`: the starting 0 does not count, because the scan only records
      totals after adding a change. */
  predicate Repeats(changes: seq<int>, k: nat)
    requires |changes| > 0
  {
    exists j :: 1 <= j < k && RunningTotal(changes, j) == RunningTotal(changes, k)
  }

  /** Step `k` is the first one whose total repeats an earlier total. */
  predicate FirstRepeatAt(changes: seq<int>, k: nat)
    requires |changes| > 0
  {
    Repeats(changes, k) && forall k' :: 1 <= k' < k ==> !Repeats(changes, k')
  }

  /** The totals after steps `lo` to `hi`: what the scan's `seen` holds. */
  function Totals(changes: seq<int>, lo: nat, hi: nat): set<int>
    requires |changes| > 0
  {
    set j | lo <= j <= hi :: RunningTotal(changes, j)
  }

  /** One more step records one more total. */
  lemma TotalsStep(changes: seq<int>, lo: nat, i: nat)
    requires |changes| > 0
    ensures Totals(changes, lo, i + 1) == Totals(changes, lo, i) + if lo <= i + 1 then {RunningTotal(changes, i + 1)} else {}
  {
    var extra := if lo <= i + 1 then {RunningTotal(changes, i + 1)} else {};
    forall x | x in Totals(changes, lo, i + 1) ensures x in Totals(changes, lo, i) + extra {
      var j :| lo <= j <= i + 1 && RunningTotal(changes, j) == x;
      if j <= i {
        assert x in Totals(changes, lo, i);
      }
    }
  }

  /** Step `i + 1` repeats exactly when its total is among those of steps
      `lo` to `i`. */
  lemma RepeatsBetween(changes: seq<int>, lo: nat, i: nat)
    requires |changes| > 0
    ensures (exists j :: lo <= j < i + 1 && RunningTotal(changes, j) == RunningTotal(changes, i + 1))
            <==> RunningTotal(changes, i + 1) in Totals(changes, lo, i)
  {
    var t := RunningTotal(changes, i + 1);
    if t in Totals(changes, lo, i) {
      var j :| lo <= j <= i && RunningTotal(changes, j) == t;
      assert exists j' :: lo <= j' < i + 1 && RunningTotal(changes, j') == t;
    }
  }

  /** The cycled position moves on by one. */
  lemma NextPass(n: nat, pass: nat, pos: nat)
    requires pos + 1 == n
    ensures pass * n + pos + 1 == (pass + 1) * n
  {
  }

  /** Part 2, as the source computes it: the scan state (`current`, `seen`,
      `done`) is threaded through the cycled list, and the last value the
      scan yields is the answer.  `fuel` bounds the otherwise unbounded scan;
      an empty list yields nothing (the source's `unwrap` would panic). */
  method Part2(changes: seq<int>, fuel: nat) returns (r: Option<int>, ghost step: nat)
    ensures r.Some? ==> |changes| > 0 && 1 <= step <= fuel && FirstRepeatAt(changes, step)
                        && r.value == RunningTotal(changes, step)
    ensures r.None? ==> |changes| == 0 || forall k :: 1 <= k <= fuel ==> !Repeats(changes, k)
  {
    step := 0;
    if |changes| == 0 {
      return None, step;
    }
    var current := 0;
    var seen: set<int> := {};
    var done := false;
    r := None;
    var i := 0;
    var pos := 0;
    ghost var pass := 0;
    while !done && i < fuel
      invariant 0 <= i <= fuel
      invariant pos < |changes| && i == pass * |changes| + pos
      invariant current == RunningTotal(changes, i)
      invariant seen == Totals(changes, 1, i)
      invariant forall k :: 1 <= k < i ==> !Repeats(changes, k)
      invariant done <==> i >= 1 && Repeats(changes, i)
      invariant done ==> r == Some(current)
      invariant !done ==> r.None? || i >= 1
    {
      CycledAt(changes, pass, pos);
      current := current + changes[pos];
      assert current == RunningTotal(changes, i + 1);
      RepeatsBetween(changes, 1, i);
      TotalsStep(changes, 1, i);
      done := current in seen;
      seen := seen + {current};
      r := Some(current);
      i := i + 1;
      if pos + 1 == |changes| {
        NextPass(|changes|, pass, pos);
        pos, pass := 0, pass + 1;
      } else {
        pos := pos + 1;
      }
    }
    if done {
      step := i;
    } else {
      r := None;
    }
  }

  /** The same walk, but with the starting frequency 0 recorded as seen: the
      rule the puzzle states ("+1, -1 first reaches 0 twice"). */
  predicate RepeatsFromStart(changes: seq<int>, k: nat)
    requires |changes| > 0
  {
    exists j :: 0 <= j < k && RunningTotal(changes, j) == RunningTotal(changes, k)
  }

  predicate FirstRepeatFromStartAt(changes: seq<int>, k: nat)
    requires |changes| > 0
  {
    RepeatsFromStart(changes, k) && forall k' :: 1 <= k' < k ==> !RepeatsFromStart(changes, k')
  }

  /** Part 2 with `seen` seeded with the starting frequency. */
  method Part2FromStart(changes: seq<int>, fuel: nat) returns (r: Option<int>, ghost step: nat)
    ensures r.Some? ==> |changes| > 0 && 1 <= step <= fuel && FirstRepeatFromStartAt(changes, step)
                        && r.value == RunningTotal(changes, step)
    ensures r.None? ==> |changes| == 0 || forall k :: 1 <= k <= fuel ==> !RepeatsFromStart(changes, k)
  {
    step := 0;
    if |changes| == 0 {
      return None, step;
    }
    var current := 0;
    var seen: set<int> := {0};
    var done := false;
    r := None;
    var i := 0;
    var pos := 0;
    ghost var pass := 0;
    while !done && i < fuel
      invariant 0 <= i <= fuel
      invariant pos < |changes| && i == pass * |changes| + pos
      invariant current == RunningTotal(changes, i)
      invariant seen == Totals(changes, 0, i)
      invariant forall k :: 1 <= k < i ==> !RepeatsFromStart(changes, k)
      invariant done <==> i >= 1 && RepeatsFromStart(changes, i)
      invariant done ==> r == Some(current)
    {
      CycledAt(changes, pass, pos);
      current := current + changes[pos];
      assert current == RunningTotal(changes, i + 1);
      RepeatsBetween(changes, 0, i);
      TotalsStep(changes, 0, i);
      done := current in seen;
      seen := seen + {current};
      r := Some(current);
      i := i + 1;
      if pos + 1 == |changes| {
        NextPass(|changes|, pass, pos);
        pos, pass := 0, pass + 1;
      } else {
        pos := pos + 1;
      }
    }
    if done {
      step := i;
    } else {
      r := None;
    }
  }

  /** For the changes `+1, -1` the as-written scan first repeats at step 3
      with total 1, while with the start recorded it repeats at step 2 with
      total 0. */
  lemma StartNotRecorded()
    ensures FirstRepeatAt([1, -1], 3) && RunningTotal([1, -1], 3) == 1
    ensures FirstRepeatFromStartAt([1, -1], 2) && RunningTotal([1, -1], 2) == 0
  {
    var c := [1, -1];
    assert RunningTotal(c, 1) == 1;
    assert RunningTotal(c, 2) == 0;
    assert RunningTotal(c, 3) == 1;
    assert Repeats(c, 3);
    assert !Repeats(c, 1);
    assert !Repeats(c, 2);
    assert RepeatsFromStart(c, 2);
    assert !RepeatsFromStart(c, 1);
  }
}
