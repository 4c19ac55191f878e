/**
  * Tile generation from pages of drives (compute/src/lib.rs, compute/src/raster.rs). Cancellation
  * and progress callbacks are left out.
  */
module Generate {
  import opened Outcomes
  import opened Rdp
  import opened PositionPage
  import opened Simplify
  import opened Ledger
  import opened Drawing
  import opened Packing
  import opened Publish
  import Sorting

  const TIERS: seq<LodTier> := [
    LodTier(2, 4, 120.0, 3_000.0, 240.0),
    LodTier(5, 7, 30.0, 800.0, 60.0),
    LodTier(8, 10, 3.0, 50.0, 6.0),
    LodTier(11, 13, 2.0, 20.0, 3.0)
  ]

  /**
    * Which points are valid, and the effects of processing one valid run for a tier. Everything
    * above single runs depends on the geometry only through this.
    */
  datatype Kernel<!P> = Kernel(valid: P -> bool, effects: (nat, seq<P>) -> seq<Event>)

  predicate InTier(t: nat, raw: RawSegment) {
    && t < 4 && TIERS[t].zoomMin <= raw.tile.zoom <= TIERS[t].zoomMax
    && raw.tile.x < 8192 && raw.tile.y < 8192
  }

  // -------------------------------------------------------- effects of a drive

  /** The run that ends before `index`, unless it is empty. */
  function Closed<P>(points: seq<P>, start: nat, index: nat): seq<seq<P>>
    requires index <= |points|
  {
    if start < index then [points[start..index]] else []
  }

  /** The maximal runs of valid points that begin at `start` or later; `index` is scanned next. */
  function RunsFrom<P>(points: seq<P>, valid: P -> bool, start: nat, index: nat): seq<seq<P>>
    requires index <= |points|
    decreases |points| - index
  {
    if index == |points| then Closed(points, start, index)
    else if !valid(points[index]) then Closed(points, start, index) + RunsFrom(points, valid, index + 1, index + 1)
    else RunsFrom(points, valid, start, index + 1)
  }

  function Runs<P>(points: seq<P>, valid: P -> bool): seq<seq<P>> {
    RunsFrom(points, valid, 0, 0)
  }

  /** A maximal stretch of valid points. */
  predicate IsRun<P>(points: seq<P>, valid: P -> bool, a: nat, b: nat) {
    && a < b <= |points|
    && (forall k :: a <= k < b ==> valid(points[k]))
    && (a == 0 || !valid(points[a - 1]))
    && (b == |points| || !valid(points[b]))
  }

  datatype Stretch = Stretch(from: nat, to: nat)

  predicate Covers(stretches: seq<Stretch>, k: nat) {
    exists i :: 0 <= i < |stretches| && stretches[i].from <= k < stretches[i].to
  }

  /** A run is the points of a maximal stretch from an index on. */
  predicate IsStretch<P(==)>(points: seq<P>, valid: P -> bool, start: nat, run: seq<P>, s: Stretch) {
    start <= s.from && IsRun(points, valid, s.from, s.to) && run == points[s.from..s.to]
  }

  predicate InOrder(stretches: seq<Stretch>) {
    forall i, j :: 0 <= i < j < |stretches| ==> stretches[i].to < stretches[j].from
  }

  /** The stretches of a list of runs: maximal, in order, and covering every valid point from an index on. */
  ghost predicate Stretches<P>(points: seq<P>, valid: P -> bool, start: nat, runs: seq<seq<P>>,
                               stretches: seq<Stretch>) {
    && |stretches| == |runs|
    && (forall i :: 0 <= i < |runs| ==> IsStretch(points, valid, start, runs[i], stretches[i]))
    && InOrder(stretches)
    && (forall k :: start <= k < |points| && valid(points[k]) ==> Covers(stretches, k))
  }

  lemma CoversMore(first: seq<Stretch>, rest: seq<Stretch>, k: nat)
    ensures Covers(first, k) || Covers(rest, k) ==> Covers(first + rest, k)
  {
    if Covers(first, k) {
      var i :| 0 <= i < |first| && first[i].from <= k < first[i].to;
      assert (first + rest)[i] == first[i];
    } else if Covers(rest, k) {
      var i :| 0 <= i < |rest| && rest[i].from <= k < rest[i].to;
      assert (first + rest)[|first| + i] == rest[i];
    }
  }

  lemma ClosedStretch<P>(points: seq<P>, valid: P -> bool, start: nat, index: nat) returns (stretches: seq<Stretch>)
    requires start <= index <= |points| && (forall k :: start <= k < index ==> valid(points[k]))
    requires (start == 0 || !valid(points[start - 1])) && (index == |points| || !valid(points[index]))
    ensures var closed := Closed(points, start, index);
            && |stretches| == |closed| <= 1
            && (forall i :: 0 <= i < |closed| ==>
                  IsStretch(points, valid, start, closed[i], stretches[i]) && stretches[i].to <= index)
            && (forall k :: start <= k < index ==> Covers(stretches, k))
  {
    stretches := if start < index then [Stretch(start, index)] else [];
    if start < index {
      assert stretches[0] == Stretch(start, index);
    }
  }

  lemma OrderJoins(first: seq<Stretch>, rest: seq<Stretch>, index: nat)
    requires |first| <= 1 && InOrder(rest)
    requires forall i :: 0 <= i < |first| ==> first[i].to <= index
    requires forall i :: 0 <= i < |rest| ==> index < rest[i].from
    ensures InOrder(first + rest)
  {
  }

  lemma AllCovered<P>(points: seq<P>, valid: P -> bool, start: nat, index: nat, first: seq<Stretch>, rest: seq<Stretch>)
    requires start <= index < |points| && !valid(points[index])
    requires forall k :: start <= k < index ==> Covers(first, k)
    requires forall k :: index + 1 <= k < |points| && valid(points[k]) ==> Covers(rest, k)
    ensures forall k :: start <= k < |points| && valid(points[k]) ==> Covers(first + rest, k)
  {
    forall k | start <= k < |points| && valid(points[k]) ensures Covers(first + rest, k) {
      CoversMore(first, rest, k);
    }
  }

  lemma LaterStretches<P>(points: seq<P>, valid: P -> bool, start: nat, index: nat, later: seq<seq<P>>,
                          rest: seq<Stretch>)
    requires start <= index && Stretches(points, valid, index + 1, later, rest)
    ensures forall i :: 0 <= i < |later| ==> IsStretch(points, valid, start, later[i], rest[i]) && index < rest[i].from
  {
    forall i | 0 <= i < |later| ensures IsStretch(points, valid, start, later[i], rest[i]) && index < rest[i].from {
      assert IsStretch(points, valid, index + 1, later[i], rest[i]);
    }
  }

  /** A closed run, an invalid point, and the runs after it. */
  lemma StretchesJoin<P>(points: seq<P>, valid: P -> bool, start: nat, index: nat, later: seq<seq<P>>,
                         rest: seq<Stretch>)
    returns (stretches: seq<Stretch>)
    requires start <= index < |points| && (forall k :: start <= k < index ==> valid(points[k]))
    requires (start == 0 || !valid(points[start - 1])) && !valid(points[index])
    requires Stretches(points, valid, index + 1, later, rest)
    ensures Stretches(points, valid, start, Closed(points, start, index) + later, stretches)
  {
    var first := ClosedStretch(points, valid, start, index);
    stretches := first + rest;
    AllCovered(points, valid, start, index, first, rest);
    LaterStretches(points, valid, start, index, later, rest);
    OrderJoins(first, rest, index);
  }

  lemma {:induction false} StretchesFrom<P>(points: seq<P>, valid: P -> bool, start: nat, index: nat)
    returns (stretches: seq<Stretch>)
    requires start <= index <= |points| && (forall k :: start <= k < index ==> valid(points[k]))
    requires start == 0 || !valid(points[start - 1])
    ensures Stretches(points, valid, start, RunsFrom(points, valid, start, index), stretches)
    decreases |points| - index
  {
    if index == |points| {
      stretches := ClosedStretch(points, valid, start, index);
    } else if valid(points[index]) {
      stretches := StretchesFrom(points, valid, start, index + 1);
    } else {
      var rest := StretchesFrom(points, valid, index + 1, index + 1);
      stretches := StretchesJoin(points, valid, start, index, RunsFrom(points, valid, index + 1, index + 1), rest);
    }
  }

  /** The runs of a drive are exactly its maximal stretches of valid points, in order. */
  lemma RunsAreMaximal<P>(points: seq<P>, valid: P -> bool) returns (stretches: seq<Stretch>)
    ensures Stretches(points, valid, 0, Runs(points, valid), stretches)
  {
    stretches := StretchesFrom(points, valid, 0, 0);
  }

  function RunsEvents<P>(kernel: Kernel<P>, t: nat, runs: seq<seq<P>>): seq<Event>
    requires t < 4
  {
    if runs == [] then []
    else RunsEvents(kernel, t, runs[..|runs| - 1]) + kernel.effects(t, runs[|runs| - 1])
  }

  function TierEvents<P>(kernel: Kernel<P>, t: nat, points: seq<P>): seq<Event>
    requires t < 4
  {
    RunsEvents(kernel, t, Runs(points, kernel.valid)) + [Complete(t)]
  }

  function TiersEvents<P>(kernel: Kernel<P>, tiers: nat, points: seq<P>): seq<Event>
    requires tiers <= 4
  {
    if tiers == 0 then []
    else TiersEvents(kernel, tiers - 1, points) + TierEvents(kernel, tiers - 1, points)
  }

  function DriveEvents<P>(kernel: Kernel<P>, drive: Drive<P>): seq<Event> {
    [Points(|drive.points|)] + TiersEvents(kernel, |TIERS|, drive.points)
  }

  function AllEvents<P>(kernel: Kernel<P>, drives: seq<Drive<P>>): seq<Event> {
    if drives == [] then []
    else AllEvents(kernel, drives[..|drives| - 1]) + DriveEvents(kernel, drives[|drives| - 1])
  }

  // ------------------------------------------------------- shape of the effects

  /** Every emission stays in its tier and every index is a tier. */
  ghost predicate WellPlaced(e: Event) {
    match e
    case Emit(t, raw) => InTier(t, raw)
    case Complete(t) => t < 4
    case _ => true
  }

  ghost predicate AllPlaced(events: seq<Event>) {
    forall i :: 0 <= i < |events| ==> WellPlaced(events[i])
  }

  lemma PlacedIsValid(events: seq<Event>)
    requires AllPlaced(events)
    ensures ValidEvents(events, 4)
  {
    forall i | 0 <= i < |events|
      ensures ValidEvent(events[i], 4)
    {
      assert WellPlaced(events[i]);
    }
  }

  lemma PlacedConcat(a: seq<Event>, b: seq<Event>)
    requires AllPlaced(a) && AllPlaced(b)
    ensures AllPlaced(a + b)
    ensures Total(a + b).completed == Total(a).completed + Total(b).completed
    ensures Total(a + b).points == Total(a).points + Total(b).points
  {
    TotalConcat(a, b);
  }

  lemma TotalOne(e: Event)
    ensures Total([e]) == Single(e)
  {
    TotalSnoc([], e);
    assert [] + [e] == [e];
    PlusLaws(NOTHING, Single(e), NOTHING);
    PlusLaws(Single(e), NOTHING, NOTHING);
  }

  /** A run only evaluates and emits, and it emits inside the tier. */
  ghost predicate RunsStayInTier<P(!new)>(kernel: Kernel<P>) {
    forall t, run :: 0 <= t < 4 ==> TierEffects(t, kernel.effects(t, run))
  }

  ghost predicate TierEffects(t: nat, events: seq<Event>) {
    forall i :: 0 <= i < |events| ==>
      events[i].Evaluate? || (events[i].Emit? && events[i].tier == t && InTier(t, events[i].segment))
  }

  lemma NothingCompleted(events: seq<Event>, e: Event)
    requires e.Emit? || e.Evaluate?
    ensures Total(events + [e]).completed == Total(events).completed
    ensures Total(events + [e]).points == Total(events).points
  {
    TotalSnoc(events, e);
    assert Single(e).completed == multiset{};
  }

  lemma {:induction false} RunCompletesNothing(t: nat, events: seq<Event>)
    requires TierEffects(t, events)
    ensures AllPlaced(events)
    ensures Total(events).completed == multiset{} && Total(events).points == 0
  {
    if events != [] {
      var init, last := events[..|events| - 1], events[|events| - 1];
      assert events == init + [last];
      NothingCompleted(init, last);
      RunCompletesNothing(t, init);
    }
  }

  lemma {:induction false} RunsEventsPlaced<P(!new)>(kernel: Kernel<P>, t: nat, runs: seq<seq<P>>)
    requires RunsStayInTier(kernel) && t < 4
    ensures AllPlaced(RunsEvents(kernel, t, runs))
    ensures Total(RunsEvents(kernel, t, runs)).completed == multiset{} && Total(RunsEvents(kernel, t, runs)).points == 0
  {
    if runs != [] {
      var init, last := runs[..|runs| - 1], runs[|runs| - 1];
      RunsEventsPlaced(kernel, t, init);
      RunCompletesNothing(t, kernel.effects(t, last));
      PlacedConcat(RunsEvents(kernel, t, init), kernel.effects(t, last));
    }
  }

  lemma TierEventsPlaced<P(!new)>(kernel: Kernel<P>, t: nat, points: seq<P>)
    requires RunsStayInTier(kernel) && t < 4
    ensures AllPlaced(TierEvents(kernel, t, points))
    ensures Total(TierEvents(kernel, t, points)).completed == multiset{t}
    ensures Total(TierEvents(kernel, t, points)).points == 0
  {
    var runs := Runs(points, kernel.valid);
    RunsEventsPlaced(kernel, t, runs);
    TotalOne(Complete(t));
    PlacedConcat(RunsEvents(kernel, t, runs), [Complete(t)]);
  }

  function EachTier(tiers: nat): multiset<nat> {
    if tiers == 0 then multiset{} else EachTier(tiers - 1) + multiset{tiers - 1}
  }

  lemma {:induction false} TiersEventsPlaced<P(!new)>(kernel: Kernel<P>, tiers: nat, points: seq<P>)
    requires RunsStayInTier(kernel) && tiers <= 4
    ensures AllPlaced(TiersEvents(kernel, tiers, points))
    ensures Total(TiersEvents(kernel, tiers, points)).completed == EachTier(tiers)
    ensures Total(TiersEvents(kernel, tiers, points)).points == 0
  {
    if tiers > 0 {
      TiersEventsPlaced(kernel, tiers - 1, points);
      TierEventsPlaced(kernel, tiers - 1, points);
      PlacedConcat(TiersEvents(kernel, tiers - 1, points), TierEvents(kernel, tiers - 1, points));
    }
  }

  lemma DriveEventsPlaced<P(!new)>(kernel: Kernel<P>, drive: Drive<P>)
    requires RunsStayInTier(kernel)
    ensures AllPlaced(DriveEvents(kernel, drive))
    ensures Total(DriveEvents(kernel, drive)).completed == EachTier(|TIERS|)
    ensures Total(DriveEvents(kernel, drive)).points == |drive.points|
  {
    TiersEventsPlaced(kernel, |TIERS|, drive.points);
    PointsFirst(|drive.points|, TiersEvents(kernel, |TIERS|, drive.points));
  }

  lemma PointsFirst(count: nat, events: seq<Event>)
    requires AllPlaced(events)
    ensures AllPlaced([Points(count)] + events)
    ensures Total([Points(count)] + events).completed == Total(events).completed
    ensures Total([Points(count)] + events).points == count + Total(events).points
  {
    TotalOne(Points(count));
    PlacedConcat([Points(count)], events);
  }

  lemma EachTierOnce(t: nat)
    ensures EachTier(|TIERS|)[t] == if t < 4 then 1 else 0
  {
    assert EachTier(0) == multiset{} && EachTier(1) == multiset{0} && EachTier(2) == multiset{0, 1};
    assert EachTier(3) == multiset{0, 1, 2} && EachTier(4) == multiset{0, 1, 2, 3};
  }

  /** The points of all drives. */
  function PointsOf<P>(drives: seq<Drive<P>>): nat {
    if drives == [] then 0 else PointsOf(drives[..|drives| - 1]) + |drives[|drives| - 1].points|
  }

  /** Every drive completes every tier exactly once, and its points are counted once. */
  lemma {:induction false} AllEventsPlaced<P(!new)>(kernel: Kernel<P>, drives: seq<Drive<P>>, t: nat)
    requires RunsStayInTier(kernel)
    ensures AllPlaced(AllEvents(kernel, drives))
    ensures Total(AllEvents(kernel, drives)).completed[t] == if t < 4 then |drives| else 0
    ensures Total(AllEvents(kernel, drives)).points == PointsOf(drives)
  {
    if drives != [] {
      var init, last := drives[..|drives| - 1], drives[|drives| - 1];
      AllEventsPlaced(kernel, init, t);
      DriveEventsPlaced(kernel, last);
      EachTierOnce(t);
      PlacedConcat(AllEvents(kernel, init), DriveEvents(kernel, last));
    }
  }

  // ------------------------------------------------------- order independence

  function Sum<T>(f: T -> Tally, xs: seq<T>): Tally {
    if xs == [] then NOTHING else Plus(Sum(f, xs[..|xs| - 1]), f(xs[|xs| - 1]))
  }

  lemma SumSnoc<T>(f: T -> Tally, xs: seq<T>, x: T)
    ensures Sum(f, xs + [x]) == Plus(Sum(f, xs), f(x))
  {
    assert (xs + [x])[..|xs|] == xs;
  }

  lemma {:induction false} SumConcat<T>(f: T -> Tally, a: seq<T>, b: seq<T>)
    ensures Sum(f, a + b) == Plus(Sum(f, a), Sum(f, b))
  {
    if b == [] {
      assert a + b == a;
      PlusLaws(Sum(f, a), NOTHING, NOTHING);
    } else {
      var init, last := b[..|b| - 1], b[|b| - 1];
      calc {
        Sum(f, a + b);
        { assert a + b == (a + init) + [last]; SumSnoc(f, a + init, last); }
        Plus(Sum(f, a + init), f(last));
        { SumConcat(f, a, init); }
        Plus(Plus(Sum(f, a), Sum(f, init)), f(last));
        { PlusLaws(Sum(f, a), Sum(f, init), f(last)); }
        Plus(Sum(f, a), Plus(Sum(f, init), f(last)));
        { assert b == init + [last]; SumSnoc(f, init, last); }
        Plus(Sum(f, a), Sum(f, b));
      }
    }
  }

  lemma MoveToEnd<T>(f: T -> Tally, before: seq<T>, x: T, after: seq<T>)
    ensures Sum(f, before + [x] + after) == Plus(Sum(f, before + after), f(x))
  {
    var p, q, r := Sum(f, before), f(x), Sum(f, after);
    calc {
      Sum(f, before + [x] + after);
      { SumConcat(f, before + [x], after); SumSnoc(f, before, x); }
      Plus(Plus(p, q), r);
      { PlusLaws(p, q, r); }
      Plus(p, Plus(q, r));
      { PlusLaws(q, r, r); }
      Plus(p, Plus(r, q));
      { PlusLaws(p, r, q); }
      Plus(Plus(p, r), q);
      { SumConcat(f, before, after); }
      Plus(Sum(f, before + after), q);
    }
  }

  lemma CancelOne<T>(a: multiset<T>, b: multiset<T>, x: T)
    requires a + multiset{x} == b + multiset{x}
    ensures a == b
  {
    forall y
      ensures a[y] == b[y]
    {
      assert (a + multiset{x})[y] == (b + multiset{x})[y];
    }
  }

  lemma RemoveOne<T>(init: seq<T>, last: T, b: seq<T>) returns (j: nat)
    requires multiset(init + [last]) == multiset(b)
    ensures j < |b| && b[j] == last && multiset(init) == multiset(b[..j] + b[j + 1..])
    ensures b == b[..j] + [last] + b[j + 1..]
  {
    assert last in multiset(init + [last]);
    assert last in b;
    j :| 0 <= j < |b| && b[j] == last;
    assert b == b[..j] + [last] + b[j + 1..];
    var p, q := multiset(b[..j]), multiset(b[j + 1..]);
    assert multiset(b) == p + multiset{last} + q;
    assert multiset(init) + multiset{last} == (p + q) + multiset{last};
    CancelOne(multiset(init), p + q, last);
    assert multiset(b[..j] + b[j + 1..]) == p + q;
  }

  lemma {:induction false} SumIgnoresOrder<T>(f: T -> Tally, a: seq<T>, b: seq<T>)
    requires multiset(a) == multiset(b)
    ensures Sum(f, a) == Sum(f, b)
    decreases |a|
  {
    if a == [] {
      assert |b| == |multiset(b)|;
    } else {
      var init, last := a[..|a| - 1], a[|a| - 1];
      assert a == init + [last];
      var j := RemoveOne(init, last, b);
      SumIgnoresOrder(f, init, b[..j] + b[j + 1..]);
      MoveToEnd(f, b[..j], last, b[j + 1..]);
    }
  }

  function DriveTally<P>(kernel: Kernel<P>): Drive<P> -> Tally {
    drive => Total(DriveEvents(kernel, drive))
  }

  lemma {:induction false} TallyIsSum<P>(kernel: Kernel<P>, drives: seq<Drive<P>>)
    ensures Total(AllEvents(kernel, drives)) == Sum(DriveTally(kernel), drives)
  {
    if drives != [] {
      var init, last := drives[..|drives| - 1], drives[|drives| - 1];
      TallyIsSum(kernel, init);
      TotalConcat(AllEvents(kernel, init), DriveEvents(kernel, last));
    }
  }

  /** The tally is a function of the multiset of drives. */
  lemma TallyIgnoresOrder<P>(kernel: Kernel<P>, a: seq<Drive<P>>, b: seq<Drive<P>>)
    requires multiset(a) == multiset(b)
    ensures Total(AllEvents(kernel, a)) == Total(AllEvents(kernel, b))
  {
    TallyIsSum(kernel, a);
    TallyIsSum(kernel, b);
    SumIgnoresOrder(DriveTally(kernel), a, b);
  }

  // ------------------------------------------------------- effects of one run

  function EmitAll(t: nat, segments: seq<RawSegment>): seq<Event> {
    seq(|segments|, (i: nat) requires i < |segments| => Emit(t, segments[i]))
  }

  /** A run is simplified under the budget, and the segments of what is left are merged. */
  ghost function RunEvents<P>(g: Geometry<P>, t: nat, run: seq<P>): seq<Event> {
    if t < 4 then
      [Evaluate(RunCost(run, g.metric, TIERS[t]))]
      + EmitAll(t, Drawn(g, TIERS[t], Simplified(run, g.metric, TIERS[t])))
    else []
  }

  ghost function KernelOf<P>(g: Geometry<P>): Kernel<P> {
    Kernel(g.metric.valid, (t: nat, run: seq<P>) => RunEvents(g, t, run))
  }

  lemma EmitsStayInTier(t: nat, segments: seq<RawSegment>, cost: nat)
    requires forall i :: 0 <= i < |segments| ==> InTier(t, segments[i])
    ensures TierEffects(t, [Evaluate(cost)] + EmitAll(t, segments))
  {
  }

  lemma DrawnIsInTier<P>(g: Geometry<P>, t: nat, points: seq<P>)
    requires t < 4
    ensures forall i :: 0 <= i < |Drawn(g, TIERS[t], points)| ==> InTier(t, Drawn(g, TIERS[t], points)[i])
  {
    var tier := TIERS[t];
    forall i | 0 <= i < |Drawn(g, tier, points)| ensures InTier(t, Drawn(g, tier, points)[i]) {
      DrawnStaysInside(g, tier, points, i);
    }
  }

  /** Whatever the geometry, every run stays in its tier: its segments come from the grid walk. */
  lemma KernelStaysInTier<P(!new)>(g: Geometry<P>)
    ensures RunsStayInTier(KernelOf(g))
  {
    forall t: nat, run: seq<P> | 0 <= t < 4 ensures TierEffects(t, RunEvents(g, t, run)) {
      var points := Simplified(run, g.metric, TIERS[t]);
      DrawnIsInTier(g, t, points);
      EmitsStayInTier(t, Drawn(g, TIERS[t], points), RunCost(run, g.metric, TIERS[t]));
    }
  }

  lemma {:induction false} EmitsCostNothing(events: seq<Event>)
    requires forall i :: 0 <= i < |events| ==> events[i].Emit?
    ensures Total(events).cost == 0
  {
    if events != [] {
      EmitsCostNothing(events[..|events| - 1]);
    }
  }

  /** The cost of a run is the number of evaluations its simplification makes. */
  lemma RunCostIsEvaluations<P>(g: Geometry<P>, t: nat, run: seq<P>)
    requires t < 4
    ensures Total(RunEvents(g, t, run)).cost == RunCost(run, g.metric, TIERS[t])
  {
    var cost := Evaluate(RunCost(run, g.metric, TIERS[t]));
    var emits := EmitAll(t, Drawn(g, TIERS[t], Simplified(run, g.metric, TIERS[t])));
    TotalOne(cost);
    TotalConcat([cost], emits);
    EmitsCostNothing(emits);
  }

  // -------------------------------------------------------- evaluations in all

  /** What the runs, the tiers of a drive and drives cost, given what a run costs in a tier. */
  function RunsCost<P>(cost: (nat, seq<P>) -> nat, t: nat, runs: seq<seq<P>>): nat {
    if runs == [] then 0 else RunsCost(cost, t, runs[..|runs| - 1]) + cost(t, runs[|runs| - 1])
  }

  function TiersCost<P>(cost: (nat, seq<P>) -> nat, valid: P -> bool, tiers: nat, points: seq<P>): nat {
    if tiers == 0 then 0
    else TiersCost(cost, valid, tiers - 1, points) + RunsCost(cost, tiers - 1, Runs(points, valid))
  }

  function DrivesCost<P>(cost: Drive<P> -> nat, drives: seq<Drive<P>>): nat {
    if drives == [] then 0 else DrivesCost(cost, drives[..|drives| - 1]) + cost(drives[|drives| - 1])
  }

  ghost predicate Prices<P(!new)>(cost: (nat, seq<P>) -> nat, kernel: Kernel<P>) {
    forall t: nat, run: seq<P> :: t < 4 ==> Total(kernel.effects(t, run)).cost == cost(t, run)
  }

  lemma CostConcat(a: seq<Event>, b: seq<Event>)
    ensures Total(a + b).cost == Total(a).cost + Total(b).cost
  {
    TotalConcat(a, b);
  }

  lemma CostOne(e: Event)
    ensures Total([e]).cost == if e.Evaluate? then e.cost else 0
  {
    TotalOne(e);
  }

  lemma {:induction false} RunsCostIs<P(!new)>(cost: (nat, seq<P>) -> nat, kernel: Kernel<P>, t: nat, runs: seq<seq<P>>)
    requires t < 4 && Prices(cost, kernel)
    ensures Total(RunsEvents(kernel, t, runs)).cost == RunsCost(cost, t, runs)
  {
    if runs != [] {
      var init, last := runs[..|runs| - 1], runs[|runs| - 1];
      RunsCostIs(cost, kernel, t, init);
      CostConcat(RunsEvents(kernel, t, init), kernel.effects(t, last));
    }
  }

  lemma {:induction false} TiersCostIs<P(!new)>(cost: (nat, seq<P>) -> nat, kernel: Kernel<P>, tiers: nat,
                                                points: seq<P>)
    requires tiers <= 4 && Prices(cost, kernel)
    ensures Total(TiersEvents(kernel, tiers, points)).cost == TiersCost(cost, kernel.valid, tiers, points)
  {
    if tiers > 0 {
      var runs := Runs(points, kernel.valid);
      TiersCostIs(cost, kernel, tiers - 1, points);
      RunsCostIs(cost, kernel, tiers - 1, runs);
      CostOne(Complete(tiers - 1));
      CostConcat(RunsEvents(kernel, tiers - 1, runs), [Complete(tiers - 1)]);
      CostConcat(TiersEvents(kernel, tiers - 1, points), TierEvents(kernel, tiers - 1, points));
    }
  }

  lemma DriveCostIs<P(!new)>(cost: (nat, seq<P>) -> nat, kernel: Kernel<P>, tiers: nat, points: seq<P>)
    requires tiers <= 4 && Prices(cost, kernel)
    ensures Total([Points(|points|)] + TiersEvents(kernel, tiers, points)).cost
         == TiersCost(cost, kernel.valid, tiers, points)
  {
    TiersCostIs(cost, kernel, tiers, points);
    CostOne(Points(|points|));
    CostConcat([Points(|points|)], TiersEvents(kernel, tiers, points));
  }

  lemma {:induction false} DrivesCostIs<P(!new)>(cost: Drive<P> -> nat, kernel: Kernel<P>, drives: seq<Drive<P>>)
    requires forall drive :: Total(DriveEvents(kernel, drive)).cost == cost(drive)
    ensures Total(AllEvents(kernel, drives)).cost == DrivesCost(cost, drives)
  {
    if drives != [] {
      var init, last := drives[..|drives| - 1], drives[|drives| - 1];
      DrivesCostIs(cost, kernel, init);
      CostConcat(AllEvents(kernel, init), DriveEvents(kernel, last));
    }
  }

  /** The evaluations of a run in a tier, and of a drive in all tiers. */
  function RunCostIn<P>(metric: Metric<P>): (nat, seq<P>) -> nat {
    (t: nat, run: seq<P>) => if t < 4 then RunCost(run, metric, TIERS[t]) else 0
  }

  function DriveCostIn<P>(metric: Metric<P>): Drive<P> -> nat {
    (drive: Drive<P>) => TiersCost(RunCostIn(metric), metric.valid, |TIERS|, drive.points)
  }

  /** The evaluations of all valid runs, in all tiers, of all drives. */
  function EvaluationsOf<P>(metric: Metric<P>, drives: seq<Drive<P>>): nat {
    DrivesCost(DriveCostIn(metric), drives)
  }

  lemma KernelIsPriced<P(!new)>(g: Geometry<P>)
    ensures Prices(RunCostIn(g.metric), KernelOf(g))
  {
    forall t: nat, run: seq<P> | t < 4 ensures Total(KernelOf(g).effects(t, run)).cost == RunCostIn(g.metric)(t, run) {
      RunCostIsEvaluations(g, t, run);
    }
  }

  /** The cost of all effects is the evaluations of all valid runs, in all tiers, of all drives. */
  lemma CostIsEvaluations<P(!new)>(g: Geometry<P>, drives: seq<Drive<P>>)
    ensures Total(AllEvents(KernelOf(g), drives)).cost == EvaluationsOf(g.metric, drives)
  {
    KernelIsPriced(g);
    PricedDrives(RunCostIn(g.metric), KernelOf(g), DriveCostIn(g.metric), drives);
  }

  lemma PricedDrives<P(!new)>(cost: (nat, seq<P>) -> nat, kernel: Kernel<P>, driveCost: Drive<P> -> nat,
                              drives: seq<Drive<P>>)
    requires Prices(cost, kernel)
    requires forall drive :: driveCost(drive) == TiersCost(cost, kernel.valid, |TIERS|, drive.points)
    ensures Total(AllEvents(kernel, drives)).cost == DrivesCost(driveCost, drives)
  {
    forall drive: Drive<P> ensures Total(DriveEvents(kernel, drive)).cost == driveCost(drive) {
      DriveCostIs(cost, kernel, |TIERS|, drive.points);
    }
    DrivesCostIs(driveCost, kernel, drives);
  }
}
