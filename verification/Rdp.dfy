/**
  * The stack-based Ramer-Douglas-Peucker simplifier and its evaluation budget
  * (compute/src/raster.rs). A run of points enters through its chord distances: `off(start, end, k)`
  * is the perpendicular distance of point `k` from the chord of points `start` and `end`, exact and
  * otherwise arbitrary.
  */
module Rdp {
  import opened Outcomes

  type ChordDistance = (nat, nat, nat) -> real

  /** The tiers' tolerances are positive. */
  type Tolerance = e: real | e >= 0.0

  // --------------------------------------------------- reference definition

  /**
    * `split` is the first interior index before `limit` at the largest positive distance, which is
    * `max`; when no distance is positive, `split` is `start` and `max` is zero.
    */
  ghost predicate IsFirstMaximum(off: ChordDistance, start: nat, end: nat, limit: nat, max: real, split: nat) {
    && (forall k: nat :: start < k < limit ==> off(start, end, k) <= max)
    && if split == start then max == 0.0
       else
         && start < split < limit
         && max == off(start, end, split) > 0.0
         && (forall k: nat :: start < k < split ==> off(start, end, k) < max)
  }

  /** The scan over the interior points before `limit`. */
  function Scan(off: ChordDistance, start: nat, end: nat, limit: nat): (r: (real, nat))
    requires start < limit
    ensures start <= r.1 < limit
    ensures r.1 == start ==> r.0 == 0.0
    decreases limit
  {
    if limit == start + 1 then (0.0, start)
    else
      var (max, split) := Scan(off, start, end, limit - 1);
      var d := off(start, end, limit - 1);
      if d > max then (d, limit - 1) else (max, split)
  }

  lemma {:induction false} ScanFindsFirstMaximum(off: ChordDistance, start: nat, end: nat, limit: nat)
    requires start < limit
    ensures var (max, split) := Scan(off, start, end, limit);
            IsFirstMaximum(off, start, end, limit, max, split)
    decreases limit
  {
    if limit > start + 1 {
      ScanFindsFirstMaximum(off, start, end, limit - 1);
    }
  }

  /**
    * Exactly the tolerances that are not negative always split an interval inside. Below zero an
    * interval without a positive distance is split at its own start, which leaves it as it was.
    */
  lemma SplitsInsideExactly(epsilon: real)
    ensures (forall off: ChordDistance, start: nat, end: nat ::
               start + 1 < end && Scan(off, start, end, end).0 > epsilon ==> start < Scan(off, start, end, end).1)
       <==> epsilon >= 0.0
  {
    var flat: ChordDistance := (start: nat, end: nat, k: nat) => 0.0;
    assert Scan(flat, 0, 2, 1) == (0.0, 0);
    assert Scan(flat, 0, 2, 2) == (0.0, 0);
  }

  /** The index at which an interval is split, if its farthest point is beyond `epsilon`. */
  function SplitAt(off: ChordDistance, epsilon: Tolerance, start: nat, end: nat): (r: Option<nat>)
    ensures r.Some? ==> start < r.value < end
  {
    if end <= start + 1 then None
    else
      var (max, split) := Scan(off, start, end, end);
      if max > epsilon then Some(split) else None
  }

  /** The interior indices that the recursive definition keeps. */
  function Kept(off: ChordDistance, epsilon: Tolerance, start: nat, end: nat): set<nat>
    decreases end - start
  {
    match SplitAt(off, epsilon, start, end)
    case None => {}
    case Some(split) => Kept(off, epsilon, start, split) + {split} + Kept(off, epsilon, split, end)
  }

  /** The interior points of an interval, each of which is evaluated once. */
  function ScanCost(start: nat, end: nat): nat {
    if end <= start + 1 then 0 else end - start - 1
  }

  /** The distance evaluations the recursive definition makes. */
  function Evaluations(off: ChordDistance, epsilon: Tolerance, start: nat, end: nat): nat
    decreases end - start
  {
    ScanCost(start, end) +
    match SplitAt(off, epsilon, start, end)
    case None => 0
    case Some(split) => Evaluations(off, epsilon, start, split) + Evaluations(off, epsilon, split, end)
  }

  /** Everything kept of a run of `n` points: both ends and what the recursion keeps between them. */
  function KeptOfRun(off: ChordDistance, epsilon: Tolerance, n: nat): set<nat> {
    if n == 0 then {} else {0, n - 1} + Kept(off, epsilon, 0, n - 1)
  }

  function EvaluationsOfRun(off: ChordDistance, epsilon: Tolerance, n: nat): nat {
    if n == 0 then 0 else Evaluations(off, epsilon, 0, n - 1)
  }

  // ------------------------------------------------------ what is guaranteed

  lemma {:induction false} KeptIsInterior(off: ChordDistance, epsilon: Tolerance, start: nat, end: nat)
    ensures forall i :: i in Kept(off, epsilon, start, end) ==> start < i < end
    decreases end - start
  {
    match SplitAt(off, epsilon, start, end)
    case None =>
    case Some(split) =>
      KeptIsInterior(off, epsilon, start, split);
      KeptIsInterior(off, epsilon, split, end);
  }

  lemma {:induction false} ChordBound(off: ChordDistance, epsilon: Tolerance, start: nat, end: nat, a: nat, b: nat,
                                      i: nat)
    requires start < end
    requires a in Kept(off, epsilon, start, end) + {start, end}
    requires b in Kept(off, epsilon, start, end) + {start, end}
    requires forall k :: a < k < b ==> k !in Kept(off, epsilon, start, end)
    requires a < i < b
    ensures off(a, b, i) <= epsilon
    decreases end - start
  {
    KeptIsInterior(off, epsilon, start, end);
    match SplitAt(off, epsilon, start, end)
    case None =>
      ScanFindsFirstMaximum(off, start, end, end);
    case Some(split) =>
      KeptIsInterior(off, epsilon, start, split);
      KeptIsInterior(off, epsilon, split, end);
      if b <= split {
        ChordBound(off, epsilon, start, split, a, b, i);
      } else {
        assert split in Kept(off, epsilon, start, end);
        ChordBound(off, epsilon, split, end, a, b, i);
      }
  }

  /** Between consecutive kept points every dropped point is within epsilon of their chord. */
  lemma DroppedPointsAreClose(off: ChordDistance, epsilon: Tolerance, n: nat, a: nat, b: nat, i: nat)
    requires a in KeptOfRun(off, epsilon, n) && b in KeptOfRun(off, epsilon, n)
    requires forall k :: a < k < b ==> k !in KeptOfRun(off, epsilon, n)
    requires a < i < b
    ensures off(a, b, i) <= epsilon
  {
    ChordBound(off, epsilon, 0, n - 1, a, b, i);
  }

  /** The first interior point of largest distance from a chord. */
  ghost predicate IsFarthest(off: ChordDistance, start: nat, end: nat, c: nat) {
    && start < c < end
    && (forall k: nat :: start < k < end ==> off(start, end, k) <= off(start, end, c))
    && (forall k: nat :: start < k < c ==> off(start, end, k) < off(start, end, c))
  }

  /**
    * Every interior point of an interval is evaluated once. When all are within epsilon of the chord
    * nothing between the ends is kept; otherwise the first farthest one is, and both parts go on alike.
    */
  lemma RdpIsExact(off: ChordDistance, epsilon: Tolerance, start: nat, end: nat) returns (c: nat)
    requires start < end
    ensures if forall k: nat :: start < k < end ==> off(start, end, k) <= epsilon
            then Kept(off, epsilon, start, end) == {} && Evaluations(off, epsilon, start, end) == end - start - 1
            else && IsFarthest(off, start, end, c) && off(start, end, c) > epsilon
                 && Kept(off, epsilon, start, end) == Kept(off, epsilon, start, c) + {c} + Kept(off, epsilon, c, end)
                 && Evaluations(off, epsilon, start, end)
                    == end - start - 1 + Evaluations(off, epsilon, start, c) + Evaluations(off, epsilon, c, end)
  {
    c := start;
    if end > start + 1 {
      ScanFindsFirstMaximum(off, start, end, end);
      c := Scan(off, start, end, end).1;
    }
  }

  /** Every point kept between the ends was the first farthest one of an interval, beyond epsilon of its chord. */
  lemma {:induction false} KeptWasFar(off: ChordDistance, epsilon: Tolerance, start: nat, end: nat, k: nat)
    returns (a: nat, b: nat)
    requires start < end && k in Kept(off, epsilon, start, end)
    ensures start <= a < k < b <= end && off(a, b, k) > epsilon && IsFarthest(off, a, b, k)
    decreases end - start
  {
    var split := SplitAt(off, epsilon, start, end).value;
    ScanFindsFirstMaximum(off, start, end, end);
    if k == split {
      a, b := start, end;
    } else if k in Kept(off, epsilon, start, split) {
      a, b := KeptWasFar(off, epsilon, start, split, k);
    } else {
      a, b := KeptWasFar(off, epsilon, split, end, k);
    }
  }

  /** The number of pairs among g things. */
  function Pairs(g: nat): nat {
    if g <= 1 then 0 else g - 1 + Pairs(g - 1)
  }

  lemma {:induction false} PairsClosedForm(g: nat)
    ensures Pairs(g) == g * (g - 1) / 2
  {
    if g > 1 {
      PairsClosedForm(g - 1);
      assert g * (g - 1) == (g - 1) * (g - 2) + 2 * (g - 1);
    }
  }

  lemma {:induction false} SplitCost(g: nat, h: nat)
    requires g >= 1 && h >= 1
    ensures Pairs(g) + Pairs(h) + (g + h - 1) <= Pairs(g + h)
  {
    if h > 1 {
      SplitCost(g, h - 1);
    }
  }

  lemma {:induction false} EvaluationBound(off: ChordDistance, epsilon: Tolerance, start: nat, end: nat)
    requires start < end
    ensures Evaluations(off, epsilon, start, end) <= Pairs(end - start)
    decreases end - start
  {
    match SplitAt(off, epsilon, start, end)
    case None =>
    case Some(split) =>
      EvaluationBound(off, epsilon, start, split);
      EvaluationBound(off, epsilon, split, end);
      SplitCost(split - start, end - split);
  }

  /** One run of n >= 3 points costs at most (n - 1)(n - 2) / 2 evaluations. */
  lemma RunCostBound(off: ChordDistance, epsilon: Tolerance, n: nat)
    requires n >= 3
    ensures EvaluationsOfRun(off, epsilon, n) <= (n - 1) * (n - 2) / 2
  {
    EvaluationBound(off, epsilon, 0, n - 1);
    PairsClosedForm(n - 1);
  }

  // -------------------------------------------------------- the stack machine

  datatype Interval = Interval(start: nat, end: nat)

  ghost predicate ValidStack(stack: seq<Interval>, n: nat) {
    forall k :: 0 <= k < |stack| ==> stack[k].start < stack[k].end < n
  }

  ghost function Pending(off: ChordDistance, epsilon: Tolerance, stack: seq<Interval>): set<nat> {
    if stack == [] then {}
    else
      var top := stack[|stack| - 1];
      Pending(off, epsilon, stack[..|stack| - 1]) + Kept(off, epsilon, top.start, top.end)
  }

  ghost function PendingCost(off: ChordDistance, epsilon: Tolerance, stack: seq<Interval>): nat {
    if stack == [] then 0
    else
      var top := stack[|stack| - 1];
      PendingCost(off, epsilon, stack[..|stack| - 1]) + Evaluations(off, epsilon, top.start, top.end)
  }

  /** Termination measure: twice the gap less one, summed over the stack. */
  ghost function Measure(stack: seq<Interval>): nat {
    if stack == [] then 0
    else
      var top := stack[|stack| - 1];
      Measure(stack[..|stack| - 1]) + if top.start < top.end then 2 * (top.end - top.start) - 1 else 1
  }

  /** The mask and the intervals still on the stack together account for what is kept. */
  ghost predicate Accounts(off: ChordDistance, epsilon: Tolerance, mask: seq<bool>, stack: seq<Interval>) {
    && ValidStack(stack, |mask|)
    && forall i :: 0 <= i < |mask| ==>
         (i in KeptOfRun(off, epsilon, |mask|) <==> mask[i] || i in Pending(off, epsilon, stack))
  }

  lemma Pushed(off: ChordDistance, epsilon: Tolerance, stack: seq<Interval>, top: Interval)
    ensures Pending(off, epsilon, stack + [top])
         == Pending(off, epsilon, stack) + Kept(off, epsilon, top.start, top.end)
    ensures PendingCost(off, epsilon, stack + [top])
         == PendingCost(off, epsilon, stack) + Evaluations(off, epsilon, top.start, top.end)
    ensures top.start < top.end ==> Measure(stack + [top]) == Measure(stack) + 2 * (top.end - top.start) - 1
  {
    assert (stack + [top])[..|stack|] == stack;
  }

  lemma Started(off: ChordDistance, epsilon: Tolerance, mask: seq<bool>)
    requires |mask| > 1
    requires forall i :: 0 <= i < |mask| ==> (mask[i] <==> i == 0 || i == |mask| - 1)
    ensures Accounts(off, epsilon, mask, [Interval(0, |mask| - 1)])
    ensures PendingCost(off, epsilon, [Interval(0, |mask| - 1)]) == EvaluationsOfRun(off, epsilon, |mask|)
  {
    var all := Interval(0, |mask| - 1);
    assert [] + [all] == [all];
    Pushed(off, epsilon, [], all);
    assert Pending(off, epsilon, [all]) == Kept(off, epsilon, 0, |mask| - 1);
  }

  lemma PopLeaf(off: ChordDistance, epsilon: Tolerance, mask: seq<bool>, rest: seq<Interval>, top: Interval)
    requires Accounts(off, epsilon, mask, rest + [top])
    requires SplitAt(off, epsilon, top.start, top.end).None?
    ensures Accounts(off, epsilon, mask, rest)
    ensures PendingCost(off, epsilon, rest) + ScanCost(top.start, top.end) == PendingCost(off, epsilon, rest + [top])
    ensures Measure(rest) < Measure(rest + [top])
  {
    Pushed(off, epsilon, rest, top);
    assert forall k :: 0 <= k < |rest| ==> (rest + [top])[k] == rest[k];
    assert (rest + [top])[|rest|] == top;
  }

  lemma SplitTop(off: ChordDistance, epsilon: Tolerance, rest: seq<Interval>, top: Interval, split: nat)
    requires SplitAt(off, epsilon, top.start, top.end) == Some(split)
    ensures var pushed := rest + [Interval(top.start, split)] + [Interval(split, top.end)];
            && Pending(off, epsilon, rest + [top]) == Pending(off, epsilon, pushed) + {split}
            && PendingCost(off, epsilon, rest + [top])
            == PendingCost(off, epsilon, pushed) + ScanCost(top.start, top.end)
            && Measure(pushed) < Measure(rest + [top])
  {
    var left, right := Interval(top.start, split), Interval(split, top.end);
    Pushed(off, epsilon, rest, top);
    Pushed(off, epsilon, rest, left);
    Pushed(off, epsilon, rest + [left], right);
  }

  lemma ValidSplit(rest: seq<Interval>, top: Interval, split: nat, n: nat)
    requires ValidStack(rest + [top], n) && top.start < split < top.end
    ensures split < n && ValidStack(rest + [Interval(top.start, split)] + [Interval(split, top.end)], n)
  {
    assert (rest + [top])[|rest|] == top;
    assert forall k :: 0 <= k < |rest| ==> (rest + [top])[k] == rest[k];
  }

  lemma PopSplit(off: ChordDistance, epsilon: Tolerance, mask: seq<bool>, rest: seq<Interval>, top: Interval,
                 split: nat)
    requires Accounts(off, epsilon, mask, rest + [top])
    requires SplitAt(off, epsilon, top.start, top.end) == Some(split)
    ensures split < |mask|
    ensures Accounts(off, epsilon, mask[split := true],
                     rest + [Interval(top.start, split)] + [Interval(split, top.end)])
  {
    ValidSplit(rest, top, split, |mask|);
    SplitTop(off, epsilon, rest, top, split);
  }

  /** The caller-selected limit on evaluations; None is unlimited. */
  class RdpBudget {
    var remaining: Option<nat>

    constructor (limit: Option<nat>)
      ensures remaining == limit
    {
      remaining := limit;
    }

    method ReserveEvaluation() returns (ok: bool)
      modifies this
      ensures ok <==> Affords(old(remaining), 1)
      ensures remaining == if ok then Spend(old(remaining), 1) else old(remaining)
    {
      if remaining.Some? {
        if remaining.value == 0 {
          return false;
        }
        remaining := Some(remaining.value - 1);
      }
      return true;
    }
  }

  predicate Affords(budget: Option<nat>, cost: nat) {
    budget.None? || cost <= budget.value
  }

  function Spend(budget: Option<nat>, cost: nat): Option<nat>
    requires Affords(budget, cost)
  {
    if budget.None? then None else Some(budget.value - cost)
  }

  /**
    * The mask is that of the recursive definition, and the run fails exactly when the budget does
    * not cover the evaluations of the recursive definition.
    */
  method RdpKeepMask(off: ChordDistance, epsilon: Tolerance, n: nat, budget: RdpBudget)
    returns (keep: Option<seq<bool>>)
    modifies budget
    ensures keep.Some? <==> Affords(old(budget.remaining), EvaluationsOfRun(off, epsilon, n))
    ensures keep.Some? ==> budget.remaining == Spend(old(budget.remaining), EvaluationsOfRun(off, epsilon, n))
    ensures keep.Some? ==> |keep.value| == n
    ensures keep.Some? ==> forall i :: 0 <= i < n ==> (keep.value[i] <==> i in KeptOfRun(off, epsilon, n))
  {
    if n <= 2 {
      return Some(seq(n, _ => true));
    }
    keep := RunStack(off, epsilon, n, budget);
  }

  /** The loop over the stack of intervals. */
  method RunStack(off: ChordDistance, epsilon: Tolerance, n: nat, budget: RdpBudget)
    returns (keep: Option<seq<bool>>)
    requires n > 2
    modifies budget
    ensures keep.Some? <==> Affords(old(budget.remaining), EvaluationsOfRun(off, epsilon, n))
    ensures keep.Some? ==> budget.remaining == Spend(old(budget.remaining), EvaluationsOfRun(off, epsilon, n))
    ensures keep.Some? ==> |keep.value| == n
    ensures keep.Some? ==> forall i :: 0 <= i < n ==> (keep.value[i] <==> i in KeptOfRun(off, epsilon, n))
  {
    var mask := seq(n, i => i == 0 || i == n - 1);
    var stack := [Interval(0, n - 1)];
    Started(off, epsilon, mask);
    ghost var spent: nat := 0;
    while stack != []
      invariant |mask| == n && Accounts(off, epsilon, mask, stack)
      invariant spent + PendingCost(off, epsilon, stack) == EvaluationsOfRun(off, epsilon, n)
      invariant Affords(old(budget.remaining), spent) && budget.remaining == Spend(old(budget.remaining), spent)
      decreases Measure(stack)
    {
      ghost var cost := ScanCost(stack[|stack| - 1].start, stack[|stack| - 1].end);
      var ok;
      mask, stack, ok := Step(off, epsilon, mask, stack, budget);
      if !ok {
        return None;
      }
      spent := spent + cost;
    }
    return Some(mask);
  }

  /** One iteration: pops an interval, examines it, and marks and pushes where it splits. */
  method Step(off: ChordDistance, epsilon: Tolerance, mask: seq<bool>, stack: seq<Interval>, budget: RdpBudget)
    returns (mask': seq<bool>, stack': seq<Interval>, ok: bool)
    requires stack != [] && Accounts(off, epsilon, mask, stack)
    modifies budget
    ensures var cost := ScanCost(stack[|stack| - 1].start, stack[|stack| - 1].end);
            && (ok <==> Affords(old(budget.remaining), cost))
            && cost <= PendingCost(off, epsilon, stack)
            && (ok ==> budget.remaining == Spend(old(budget.remaining), cost))
            && (ok ==> PendingCost(off, epsilon, stack') + cost == PendingCost(off, epsilon, stack))
    ensures ok ==> |mask'| == |mask| && Accounts(off, epsilon, mask', stack') && Measure(stack') < Measure(stack)
  {
    var top, rest := stack[|stack| - 1], stack[..|stack| - 1];
    assert stack == rest + [top];
    mask', stack' := mask, rest;
    var found;
    found, ok := FindSplit(off, epsilon, top.start, top.end, budget);
    if ok && found.Some? {
      PopSplit(off, epsilon, mask, rest, top, found.value);
      SplitTop(off, epsilon, rest, top, found.value);
      mask' := mask[found.value := true];
      stack' := rest + [Interval(top.start, found.value)] + [Interval(found.value, top.end)];
    } else if ok {
      PopLeaf(off, epsilon, mask, rest, top);
    }
  }

  /** Examines one interval: where it splits, or that the budget ran out. */
  method FindSplit(off: ChordDistance, epsilon: Tolerance, start: nat, end: nat, budget: RdpBudget)
    returns (found: Option<nat>, ok: bool)
    modifies budget
    ensures ok <==> Affords(old(budget.remaining), ScanCost(start, end))
    ensures ok ==> budget.remaining == Spend(old(budget.remaining), ScanCost(start, end))
    ensures ok ==> found == SplitAt(off, epsilon, start, end)
  {
    if end <= start + 1 {
      return None, true;
    }
    var max, split := 0.0, start;
    for index := start + 1 to end
      invariant (max, split) == Scan(off, start, end, index)
      invariant Affords(old(budget.remaining), index - start - 1)
      invariant budget.remaining == Spend(old(budget.remaining), index - start - 1)
    {
      var reserved := budget.ReserveEvaluation();
      if !reserved {
        return None, false;
      }
      var distance := off(start, end, index);
      if distance > max {
        max, split := distance, index;
      }
    }
    found := if max > epsilon then Some(split) else None;
    ok := true;
  }
}
