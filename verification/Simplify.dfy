/** Simplification of the valid runs of a drive for one LOD tier (compute/src/raster.rs). */
module Simplify {
  import opened Outcomes
  import opened Rdp
  import opened Guard

  datatype LodTier = LodTier(zoomMin: nat, zoomMax: nat, epsilon: Tolerance, maxSegment: real, curveGuard: real)

  /** The geometry of points; all of it is exact and otherwise arbitrary. */
  datatype Metric<!P> = Metric(perpendicular: (P, P, P) -> real, distance: (P, P) -> real, valid: P -> bool)

  function ChordsOf<P>(points: seq<P>, metric: Metric<P>): ChordDistance {
    (start: nat, end: nat, k: nat) =>
      if start < |points| && end < |points| && k < |points|
      then metric.perpendicular(points[k], points[start], points[end]) else 0.0
  }

  function StepsOf<P>(points: seq<P>, metric: Metric<P>): nat -> real {
    (k: nat) => if 0 < k < |points| then metric.distance(points[k - 1], points[k]) else 0.0
  }

  function SettingOf<P>(points: seq<P>, metric: Metric<P>, tier: LodTier): Setting {
    Setting(ChordsOf(points, metric), StepsOf(points, metric), tier.maxSegment, tier.curveGuard)
  }

  /** The kept indices in order. */
  function KeptIndices<P>(points: seq<P>, metric: Metric<P>, tier: LodTier): seq<nat> {
    var kept := KeptOfRun(ChordsOf(points, metric), tier.epsilon, |points|);
    Marked(seq(|points|, (i: nat) => i in kept), 0)
  }

  /** The evaluations that simplifying a run costs. */
  function RunCost<P>(points: seq<P>, metric: Metric<P>, tier: LodTier): nat {
    EvaluationsOfRun(ChordsOf(points, metric), tier.epsilon, |points|)
  }

  lemma KeptIndicesAreExact<P>(points: seq<P>, metric: Metric<P>, tier: LodTier)
    ensures var kept := KeptIndices(points, metric, tier);
            && Ascending(kept) && Within(kept, |points|)
            && (forall i :: i in kept <==> i in KeptOfRun(ChordsOf(points, metric), tier.epsilon, |points|))
            && (|points| >= 2 ==> |kept| >= 2 && kept[0] == 0 && kept[|kept| - 1] == |points| - 1)
  {
    var off := ChordsOf(points, metric);
    var all := KeptOfRun(off, tier.epsilon, |points|);
    var mask := seq(|points|, (i: nat) => i in all);
    MarkedIsExact(mask, 0);
    if points != [] {
      KeptIsInterior(off, tier.epsilon, 0, |points| - 1);
    }
    var kept := KeptIndices(points, metric, tier);
    forall i
      ensures i in kept <==> i in all
    {
    }
    assert forall i :: 0 <= i < |kept| ==> kept[i] in kept;
    if |points| >= 2 {
      assert 0 in kept && |points| - 1 in kept;
    }
  }

  /** What `simplify_controlled` returns. */
  function Simplified<P(==)>(points: seq<P>, metric: Metric<P>, tier: LodTier): seq<P> {
    KeptIndicesAreExact(points, metric, tier);
    var kept := KeptIndices(points, metric, tier);
    if |points| <= 2 then points
    else if tier.maxSegment <= 0.0 then seq(|kept|, (i: nat) requires i < |kept| => points[kept[i]])
    else
      var g := SettingOf(points, metric, tier);
      BreaksInRange(points, g, kept);
      Emit(points, [points[0]], AllBreaks(g, kept))
  }

  lemma BreaksInRange<P>(points: seq<P>, g: Setting, kept: seq<nat>)
    requires kept != [] && Ascending(kept) && kept[|kept| - 1] == |points| - 1
    ensures Within(AllBreaks(g, kept), |points|)
  {
    AllBreaksChain(g, kept);
    ChainInRange(g, kept[0], AllBreaks(g, kept), |points| - 1);
  }

  lemma KeptEnds<P>(points: seq<P>, metric: Metric<P>, tier: LodTier)
    requires |points| >= 2
    ensures var kept := KeptIndices(points, metric, tier);
            kept != [] && Ascending(kept) && kept[0] == 0 && kept[|kept| - 1] == |points| - 1
  {
    KeptIndicesAreExact(points, metric, tier);
  }

  // ------------------------------------------------------ in terms of the points

  /** The length of a path from point to point. */
  function Length<P>(points: seq<P>, metric: Metric<P>): real {
    if |points| < 2 then 0.0 else metric.distance(points[0], points[1]) + Length(points[1..], metric)
  }

  /** Both guard limits of a tier, for the points between two indices. */
  ghost predicate WithinGuard<P>(points: seq<P>, metric: Metric<P>, tier: LodTier, a: nat, b: nat)
    requires a < b < |points|
  {
    && Length(points[a..b + 1], metric) <= tier.maxSegment
    && (tier.curveGuard > 0.0 ==>
          forall k :: a < k < b ==> metric.perpendicular(points[k], points[a], points[b]) <= tier.curveGuard)
  }

  lemma {:induction false} PathIsLength<P>(points: seq<P>, metric: Metric<P>, tier: LodTier, a: nat, b: nat)
    requires a <= b < |points|
    ensures PathLength(SettingOf(points, metric, tier), a, b) == Length(points[a..b + 1], metric)
    decreases b - a
  {
    if a < b {
      PathIsLength(points, metric, tier, a + 1, b);
      PathLengthAdds(SettingOf(points, metric, tier), a, a + 1, b);
      PathLengthAdds(SettingOf(points, metric, tier), a, a + 1, a + 1);
      assert points[a..b + 1][1..] == points[a + 1..b + 1];
    }
  }

  lemma LimitsAre<P>(points: seq<P>, metric: Metric<P>, tier: LodTier, a: nat, b: nat)
    requires a < b < |points|
    ensures InLimits(SettingOf(points, metric, tier), a, b) <==> WithinGuard(points, metric, tier, a, b)
  {
    PathIsLength(points, metric, tier, a, b);
    var off := ChordsOf(points, metric);
    assert forall k: nat :: a < k < b ==> off(a, b, k) == metric.perpendicular(points[k], points[a], points[b]);
  }

  /** Between consecutive kept points every dropped point is within the tier's tolerance of their chord. */
  lemma DroppedAreWithinTolerance<P>(points: seq<P>, metric: Metric<P>, tier: LodTier, i: nat, k: nat)
    requires var kept := KeptIndices(points, metric, tier); i + 1 < |kept| && kept[i] < k < kept[i + 1]
    ensures var kept := KeptIndices(points, metric, tier);
            && kept[i + 1] < |points|
            && metric.perpendicular(points[k], points[kept[i]], points[kept[i + 1]]) <= tier.epsilon
  {
    KeptIndicesAreExact(points, metric, tier);
    var kept, off := KeptIndices(points, metric, tier), ChordsOf(points, metric);
    assert kept[i] in kept && kept[i + 1] in kept;
    forall j | kept[i] < j < kept[i + 1] ensures j !in KeptOfRun(off, tier.epsilon, |points|) {
      NoneBetween(kept, i, j);
    }
    DroppedPointsAreClose(off, tier.epsilon, |points|, kept[i], kept[i + 1], k);
  }

  lemma NoneBetween(kept: seq<nat>, i: nat, j: nat)
    requires Ascending(kept) && i + 1 < |kept| && kept[i] < j < kept[i + 1]
    ensures j !in kept
  {
  }

  /** A breakpoint lies inside an interval beyond a guard limit, between two consecutive kept indices. */
  ghost predicate WasNeeded<P>(points: seq<P>, metric: Metric<P>, tier: LodTier, kept: seq<nat>, b: nat) {
    exists i: nat, from: nat, to: nat ::
      && i + 1 < |kept| && kept[i] <= from < b < to <= kept[i + 1] && to < |points|
      && !WithinGuard(points, metric, tier, from, to)
  }

  /** The gap before a breakpoint is a single step or within both limits. */
  ghost predicate GapIsGuarded<P>(points: seq<P>, metric: Metric<P>, tier: LodTier, breaks: seq<nat>, i: nat)
    requires i < |breaks|
  {
    var before := Preceding(0, breaks, i);
    && before < breaks[i] < |points|
    && (breaks[i] == before + 1 || WithinGuard(points, metric, tier, before, breaks[i]))
  }

  lemma GuardedGap<P>(points: seq<P>, metric: Metric<P>, tier: LodTier, breaks: seq<nat>, i: nat)
    requires i < |breaks| && points != [] && FineGap(SettingOf(points, metric, tier), 0, breaks, |points| - 1, i)
    ensures GapIsGuarded(points, metric, tier, breaks, i)
  {
    LimitsAre(points, metric, tier, Preceding(0, breaks, i), breaks[i]);
  }

  lemma NeededBreak<P>(points: seq<P>, metric: Metric<P>, tier: LodTier, b: nat)
    requires |points| >= 3
    requires var kept := KeptIndices(points, metric, tier);
             b in AllBreaks(SettingOf(points, metric, tier), kept) && b !in kept
    ensures WasNeeded(points, metric, tier, KeptIndices(points, metric, tier), b)
  {
    KeptIndicesAreExact(points, metric, tier);
    var kept := KeptIndices(points, metric, tier);
    var i, from, to := ExtraBreakWasNeeded(SettingOf(points, metric, tier), kept, b);
    LimitsAre(points, metric, tier, from, to);
  }

  /**
    * The breakpoints start at the first point, strictly ascend to the last, keep every index RDP
    * keeps, and leave only gaps that are single steps or within both guard limits. No breakpoint is
    * added but inside an interval beyond a limit.
    */
  lemma GuardedBreakpoints<P>(points: seq<P>, metric: Metric<P>, tier: LodTier)
    returns (kept: seq<nat>, breaks: seq<nat>)
    requires |points| >= 3
    ensures kept == KeptIndices(points, metric, tier)
    ensures breaks == AllBreaks(SettingOf(points, metric, tier), kept)
    ensures breaks != [] && breaks[|breaks| - 1] == |points| - 1
    ensures forall i :: 0 <= i < |breaks| ==> GapIsGuarded(points, metric, tier, breaks, i)
    ensures forall i :: i in kept ==> i == 0 || i in breaks
    ensures forall b :: b in breaks ==> b in kept || WasNeeded(points, metric, tier, kept, b)
  {
    var g := SettingOf(points, metric, tier);
    kept := KeptIndices(points, metric, tier);
    KeptEnds(points, metric, tier);
    breaks := BreaksOfRun(g, kept, |points| - 1);
    ChainReachesEnd(g, 0, breaks, |points| - 1);
    forall i | 0 <= i < |breaks| ensures GapIsGuarded(points, metric, tier, breaks, i) {
      GuardedGap(points, metric, tier, breaks, i);
    }
    forall b | b in breaks && b !in kept ensures WasNeeded(points, metric, tier, kept, b) {
      NeededBreak(points, metric, tier, b);
    }
  }

  /**
    * Under a positive limit the output is a subsequence with the input's ends and no equal neighbours.
    * It takes the points at breakpoints, and leaves out only those equal to the one taken before.
    */
  lemma SimplifiedIsSubsequence<P>(points: seq<P>, metric: Metric<P>, tier: LodTier) returns (at: seq<nat>)
    requires |points| >= 3 && tier.maxSegment > 0.0
    ensures var result := Simplified(points, metric, tier);
            && Embeds(points, result, at) && result != []
            && result[0] == points[0] && result[|result| - 1] == points[|points| - 1]
            && NoEqualNeighbours(result)
    ensures Takes(points, [0], AllBreaks(SettingOf(points, metric, tier), KeptIndices(points, metric, tier)), at)
  {
    var g, breaks := GuardedBreaks(points, metric, tier);
    assert Simplified(points, metric, tier) == Emit(points, [points[0]], breaks);
    at := EmitAt(points, [points[0]], [0], breaks);
    EmitIsSubsequence(g, points, [points[0]], [0], 0, breaks, |points| - 1);
    EmitTakes(g, points, [points[0]], [0], 0, breaks, |points| - 1);
  }

  lemma GuardedBreaks<P>(points: seq<P>, metric: Metric<P>, tier: LodTier) returns (g: Setting, breaks: seq<nat>)
    requires |points| >= 3
    ensures g == SettingOf(points, metric, tier) && breaks == AllBreaks(g, KeptIndices(points, metric, tier))
    ensures Chain(g, 0, breaks, |points| - 1) && Within(breaks, |points|)
  {
    KeptEnds(points, metric, tier);
    g := SettingOf(points, metric, tier);
    var kept := KeptIndices(points, metric, tier);
    AllBreaksChain(g, kept);
    BreaksInRange(points, g, kept);
    breaks := AllBreaks(g, kept);
  }

  /** At most two points are left as they are. */
  lemma FewPointsAreKept<P>(points: seq<P>, metric: Metric<P>, tier: LodTier)
    requires |points| <= 2
    ensures Simplified(points, metric, tier) == points && RunCost(points, metric, tier) == 0
  {
  }

  /** Without a positive limit the output is exactly the kept points, which can have equal neighbours. */
  lemma UnguardedIsKept<P>(points: seq<P>, metric: Metric<P>, tier: LodTier)
    requires |points| >= 3 && tier.maxSegment <= 0.0
    ensures Embeds(points, Simplified(points, metric, tier), KeptIndices(points, metric, tier))
  {
    KeptIndicesAreExact(points, metric, tier);
  }

  // ------------------------------------------------------------------ the loop

  lemma {:induction false} MarkedDependsOnMask(a: seq<bool>, b: seq<bool>, from: nat)
    requires |a| == |b| && from <= |a| && forall i :: 0 <= i < |a| ==> (a[i] <==> b[i])
    ensures Marked(a, from) == Marked(b, from)
    decreases |a| - from
  {
    assert a == b;
  }

  /** Succeeds exactly when the budget covers the run, and then returns the simplified points. */
  method SimplifyControlled<P(==)>(points: seq<P>, metric: Metric<P>, tier: LodTier, budget: RdpBudget)
    returns (r: Option<seq<P>>)
    modifies budget
    ensures r.Some? <==> Affords(old(budget.remaining), RunCost(points, metric, tier))
    ensures r.Some? ==> budget.remaining == Spend(old(budget.remaining), RunCost(points, metric, tier))
    ensures r.Some? ==> r.value == Simplified(points, metric, tier)
  {
    if |points| <= 2 {
      return Some(points);
    }
    var mask := RdpKeepMask(ChordsOf(points, metric), tier.epsilon, |points|, budget);
    if mask.None? {
      return None;
    }
    var kept := Marked(mask.value, 0);
    ghost var wanted := KeptOfRun(ChordsOf(points, metric), tier.epsilon, |points|);
    MarkedDependsOnMask(mask.value, seq(|points|, (i: nat) => i in wanted), 0);
    KeptIndicesAreExact(points, metric, tier);
    if |kept| <= 1 || tier.maxSegment <= 0.0 {
      return Some(seq(|kept|, (i: nat) requires i < |kept| => points[kept[i]]));
    }
    var g := SettingOf(points, metric, tier);
    BreaksInRange(points, g, kept);
    var result := EmitWindows(g, points, kept);
    return Some(result);
  }

  method EmitWindows<P(==)>(g: Setting, points: seq<P>, kept: seq<nat>) returns (result: seq<P>)
    requires |kept| >= 2 && Ascending(kept) && Within(kept, |points|) && Within(AllBreaks(g, kept), |points|)
    ensures result == Emit(points, [points[kept[0]]], AllBreaks(g, kept))
  {
    result := [points[kept[0]]];
    assert kept[..1] == [kept[0]];
    for index := 0 to |kept| - 1
      invariant Within(AllBreaks(g, kept[..index + 1]), |points|)
      invariant result == Emit(points, [points[kept[0]]], AllBreaks(g, kept[..index + 1]))
    {
      result := AppendGuarded(g, points, kept[index], kept[index + 1], result);
      assert kept[..index + 2] == kept[..index + 1] + [kept[index + 1]];
      AllBreaksSnoc(g, kept[..index + 1], kept[index + 1]);
      EmitConcat(points, [points[kept[0]]], AllBreaks(g, kept[..index + 1]), Breaks(g, kept[index], kept[index + 1]));
    }
    assert kept[..|kept|] == kept;
  }

  lemma {:induction false} EmitConcat<P>(points: seq<P>, output: seq<P>, a: seq<nat>, b: seq<nat>)
    requires Within(a, |points|) && Within(b, |points|)
    ensures Within(a + b, |points|)
    ensures Emit(points, output, a + b) == Emit(points, Emit(points, output, a), b)
    decreases |a|
  {
    if a == [] {
      assert a + b == b;
    } else {
      var p := points[a[0]];
      var next := if output != [] && output[|output| - 1] == p then output else output + [p];
      EmitConcat(points, next, a[1..], b);
      assert (a + b)[1..] == a[1..] + b;
    }
  }
}
