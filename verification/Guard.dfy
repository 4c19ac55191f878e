/**
  * Guard subdivision and the whole simplification of one run (compute/src/raster.rs). Lengths and
  * chord distances are exact and otherwise arbitrary.
  */
module Guard {
  import opened Outcomes
  import opened Rdp

  /** The geometry of a run and the limits of its tier; `step(k)` is the length from point k - 1 to k. */
  datatype Setting = Setting(off: ChordDistance, step: nat -> real, maxSegment: real, curveGuard: real)

  // --------------------------------------------------------------- reference

  function PathLength(g: Setting, lo: nat, hi: nat): real {
    if hi <= lo then 0.0 else PathLength(g, lo, hi - 1) + g.step(hi)
  }

  /** Largest positive chord distance of an interior point and its first index, `lo` standing for none. */
  function Curve(g: Setting, lo: nat, hi: nat): (real, nat)
    requires lo < hi
  {
    Scan(g.off, lo, hi, hi)
  }

  predicate TooLong(g: Setting, lo: nat, hi: nat) {
    PathLength(g, lo, hi) > g.maxSegment
  }

  predicate TooCurvy(g: Setting, lo: nat, hi: nat)
    requires lo < hi
  {
    g.curveGuard > 0.0 && Curve(g, lo, hi).0 > g.curveGuard
  }

  /** The first index from `k` on at which half of the path is walked, else the middle index. */
  function MidpointFrom(g: Setting, lo: nat, hi: nat, target: real, k: nat): (r: nat)
    requires lo < k <= hi && lo + 1 < hi
    ensures lo < r < hi
    decreases hi - k
  {
    if k == hi then lo + (hi - lo) / 2
    else if PathLength(g, lo, k) >= target then k
    else MidpointFrom(g, lo, hi, target, k + 1)
  }

  function Midpoint(g: Setting, lo: nat, hi: nat): (r: Option<nat>)
    ensures r.Some? <==> lo + 1 < hi
    ensures r.Some? ==> lo < r.value < hi
  {
    if hi <= lo + 1 then None
    else Some(MidpointFrom(g, lo, hi, PathLength(g, lo, hi) / 2.0, lo + 1))
  }

  predicate HalfWalked(g: Setting, lo: nat, hi: nat, k: nat) {
    2.0 * PathLength(g, lo, k) >= PathLength(g, lo, hi)
  }

  lemma {:induction false} MidpointFromIsFirst(g: Setting, lo: nat, hi: nat, k: nat)
    requires lo < k <= hi && lo + 1 < hi && forall j :: lo < j < k ==> !HalfWalked(g, lo, hi, j)
    ensures var m := MidpointFrom(g, lo, hi, PathLength(g, lo, hi) / 2.0, k);
            if HalfWalked(g, lo, hi, m) && k <= m then forall j :: lo < j < m ==> !HalfWalked(g, lo, hi, j)
            else m == lo + (hi - lo) / 2 && forall j :: lo < j < hi ==> !HalfWalked(g, lo, hi, j)
    decreases hi - k
  {
    if k < hi && !HalfWalked(g, lo, hi, k) {
      MidpointFromIsFirst(g, lo, hi, k + 1);
    }
  }

  /** The midpoint is the first interior index at half of the path or beyond, or the middle index when there is none. */
  lemma MidpointIsFirstHalf(g: Setting, lo: nat, hi: nat)
    requires lo + 1 < hi
    ensures var m := Midpoint(g, lo, hi).value;
            if HalfWalked(g, lo, hi, m) then forall j :: lo < j < m ==> !HalfWalked(g, lo, hi, j)
            else m == lo + (hi - lo) / 2 && forall j :: lo < j < hi ==> !HalfWalked(g, lo, hi, j)
  {
    MidpointFromIsFirst(g, lo, hi, lo + 1);
  }

  /** Where an interval that breaks a limit is divided. */
  function Choose(g: Setting, lo: nat, hi: nat): (r: Option<nat>)
    requires lo < hi
    ensures r.Some? ==> lo < r.value < hi
  {
    if !TooLong(g, lo, hi) && !TooCurvy(g, lo, hi) then None
    else
      var split := Curve(g, lo, hi).1;
      var midpoint := Midpoint(g, lo, hi);
      if TooCurvy(g, lo, hi) then (if split != lo then Some(split) else midpoint)
      else if midpoint.Some? then midpoint
      else if split != lo then Some(split) else None
  }

  /** The ends of the intervals that remain, in order. */
  function Breaks(g: Setting, lo: nat, hi: nat): seq<nat>
    decreases hi - lo
  {
    if lo >= hi then []
    else
      match Choose(g, lo, hi)
      case None => [hi]
      case Some(c) => Breaks(g, lo, c) + Breaks(g, c, hi)
  }

  // ------------------------------------------------------ what is divided, and where

  /** The path is short enough, and no interior point is too far from the chord. */
  ghost predicate InLimits(g: Setting, lo: nat, hi: nat) {
    PathLength(g, lo, hi) <= g.maxSegment && !Strays(g, lo, hi)
  }

  ghost predicate Strays(g: Setting, lo: nat, hi: nat) {
    g.curveGuard > 0.0 && exists k: nat :: lo < k < hi && g.off(lo, hi, k) > g.curveGuard
  }

  /** The first interior point at half of the path or beyond, or the middle one when there is none. */
  ghost predicate IsHalfway(g: Setting, lo: nat, hi: nat, c: nat) {
    && lo < c < hi
    && if HalfWalked(g, lo, hi, c) then forall j :: lo < j < c ==> !HalfWalked(g, lo, hi, j)
       else c == lo + (hi - lo) / 2 && forall j :: lo < j < hi ==> !HalfWalked(g, lo, hi, j)
  }

  /** An interval that strays is divided at its farthest point, one that is only too long halfway. */
  ghost predicate DividesAt(g: Setting, lo: nat, hi: nat, c: nat) {
    if Strays(g, lo, hi) then IsFarthest(g.off, lo, hi, c) else IsHalfway(g, lo, hi, c)
  }

  lemma StraysExactly(g: Setting, lo: nat, hi: nat)
    requires lo < hi
    ensures TooCurvy(g, lo, hi) <==> Strays(g, lo, hi)
    ensures TooCurvy(g, lo, hi) ==> IsFarthest(g.off, lo, hi, Curve(g, lo, hi).1)
  {
    ScanFindsFirstMaximum(g.off, lo, hi, hi);
  }

  /** An interval of one step or within both limits stays whole; any other is divided, and so are its parts. */
  lemma BreaksAreExact(g: Setting, lo: nat, hi: nat) returns (c: nat)
    requires lo < hi
    ensures if hi == lo + 1 || InLimits(g, lo, hi) then Breaks(g, lo, hi) == [hi]
            else DividesAt(g, lo, hi, c) && lo < c < hi && Breaks(g, lo, hi) == Breaks(g, lo, c) + Breaks(g, c, hi)
  {
    StraysExactly(g, lo, hi);
    c := lo;
    if hi > lo + 1 && !InLimits(g, lo, hi) {
      MidpointIsFirstHalf(g, lo, hi);
      c := Choose(g, lo, hi).value;
    }
  }

  /** Every breakpoint before the end lies inside an interval that broke a limit. */
  lemma {:induction false} BreakWasNeeded(g: Setting, lo: nat, hi: nat, b: nat) returns (from: nat, to: nat)
    requires lo < hi && b in Breaks(g, lo, hi) && b != hi
    ensures lo <= from < b < to <= hi && !InLimits(g, from, to)
    decreases hi - lo
  {
    var c := BreaksAreExact(g, lo, hi);
    if b == c {
      from, to := lo, hi;
    } else if b in Breaks(g, lo, c) {
      from, to := BreakWasNeeded(g, lo, c, b);
    } else {
      from, to := BreakWasNeeded(g, c, hi, b);
    }
  }

  /** A breakpoint that is not kept lies inside an interval that broke a limit, between two kept indices. */
  lemma {:induction false} ExtraBreakWasNeeded(g: Setting, kept: seq<nat>, b: nat) returns (i: nat, from: nat, to: nat)
    requires Ascending(kept) && b in AllBreaks(g, kept) && b !in kept
    ensures i + 1 < |kept| && kept[i] <= from < b < to <= kept[i + 1] && !InLimits(g, from, to)
  {
    i := 0;
    if b in Breaks(g, kept[0], kept[1]) {
      from, to := BreakWasNeeded(g, kept[0], kept[1], b);
    } else {
      i, from, to := ExtraBreakWasNeeded(g, kept[1..], b);
      i := i + 1;
    }
  }

  /** A path is its parts, down to single steps. */
  lemma {:induction false} PathLengthAdds(g: Setting, lo: nat, mid: nat, hi: nat)
    requires lo <= mid <= hi
    ensures PathLength(g, lo, hi) == PathLength(g, lo, mid) + PathLength(g, mid, hi)
    ensures hi > 0 ==> PathLength(g, hi - 1, hi) == g.step(hi)
  {
    if mid < hi {
      PathLengthAdds(g, lo, mid, hi - 1);
    }
    assert hi > 0 ==> PathLength(g, hi - 1, hi - 1) == 0.0;
  }

  /** An interval that guard subdivision leaves whole. */
  ghost predicate Fine(g: Setting, lo: nat, hi: nat) {
    hi == lo + 1 || InLimits(g, lo, hi)
  }

  /** From `lo` the breakpoints strictly ascend to `hi`, and every gap is fine. */
  ghost predicate Chain(g: Setting, lo: nat, breaks: seq<nat>, hi: nat)
    decreases |breaks|
  {
    if breaks == [] then lo == hi
    else lo < breaks[0] && Fine(g, lo, breaks[0]) && Chain(g, breaks[0], breaks[1..], hi)
  }

  lemma {:induction false} ChainConcat(g: Setting, lo: nat, a: seq<nat>, mid: nat, b: seq<nat>, hi: nat)
    requires Chain(g, lo, a, mid) && Chain(g, mid, b, hi)
    ensures Chain(g, lo, a + b, hi)
    decreases |a|
  {
    if a == [] {
      assert a + b == b;
    } else {
      ChainConcat(g, a[0], a[1..], mid, b, hi);
      assert (a + b)[1..] == a[1..] + b;
    }
  }

  lemma {:induction false} BreaksChain(g: Setting, lo: nat, hi: nat)
    requires lo <= hi
    ensures Chain(g, lo, Breaks(g, lo, hi), hi)
    decreases hi - lo
  {
    if lo < hi {
      var c := BreaksAreExact(g, lo, hi);
      if Fine(g, lo, hi) {
        assert Chain(g, hi, [], hi);
      } else {
        BreaksChain(g, lo, c);
        BreaksChain(g, c, hi);
        ChainConcat(g, lo, Breaks(g, lo, c), c, Breaks(g, c, hi), hi);
      }
    }
  }

  /** What a chain says of each of its gaps. */
  lemma {:induction false} ChainGap(g: Setting, lo: nat, breaks: seq<nat>, hi: nat, i: nat)
    requires Chain(g, lo, breaks, hi)
    requires i < |breaks|
    ensures var before := if i == 0 then lo else breaks[i - 1];
            before < breaks[i] <= hi && Fine(g, before, breaks[i])
    ensures i == |breaks| - 1 ==> breaks[i] == hi
    decreases |breaks|
  {
    if i > 0 {
      ChainGap(g, breaks[0], breaks[1..], hi, i - 1);
    } else {
      ChainEnd(g, breaks[0], breaks[1..], hi);
    }
  }

  lemma {:induction false} ChainEnd(g: Setting, lo: nat, breaks: seq<nat>, hi: nat)
    requires Chain(g, lo, breaks, hi)
    ensures lo <= hi
    decreases |breaks|
  {
    if breaks != [] {
      ChainEnd(g, breaks[0], breaks[1..], hi);
    }
  }

  // ------------------------------------------------------------------ a run

  /** The indices marked in a mask, from `from` on. */
  function Marked(mask: seq<bool>, from: nat): seq<nat>
    requires from <= |mask|
    decreases |mask| - from
  {
    if from == |mask| then []
    else if mask[from] then [from] + Marked(mask, from + 1)
    else Marked(mask, from + 1)
  }

  predicate Ascending(s: seq<nat>) {
    forall i, j :: 0 <= i < j < |s| ==> s[i] < s[j]
  }

  lemma {:induction false} MarkedIsExact(mask: seq<bool>, from: nat)
    requires from <= |mask|
    ensures Ascending(Marked(mask, from))
    ensures forall i :: i in Marked(mask, from) <==> from <= i < |mask| && mask[i]
    decreases |mask| - from
  {
    if from < |mask| {
      MarkedIsExact(mask, from + 1);
      var rest := Marked(mask, from + 1);
      assert forall j :: 0 <= j < |rest| ==> rest[j] in rest;
    }
  }

  /** The breakpoints of all windows of consecutive kept indices. */
  function AllBreaks(g: Setting, kept: seq<nat>): seq<nat> {
    if |kept| <= 1 then [] else Breaks(g, kept[0], kept[1]) + AllBreaks(g, kept[1..])
  }

  lemma {:induction false} AllBreaksChain(g: Setting, kept: seq<nat>)
    requires kept != [] && Ascending(kept)
    ensures Chain(g, kept[0], AllBreaks(g, kept), kept[|kept| - 1])
  {
    if |kept| > 1 {
      BreaksChain(g, kept[0], kept[1]);
      AllBreaksChain(g, kept[1..]);
      ChainConcat(g, kept[0], Breaks(g, kept[0], kept[1]), kept[1], AllBreaks(g, kept[1..]), kept[|kept| - 1]);
    }
  }

  /** Guard subdivision only adds points: every kept index stays a breakpoint. */
  lemma {:induction false} KeptAreBreaks(g: Setting, kept: seq<nat>, i: nat)
    requires Ascending(kept) && 1 <= i < |kept|
    ensures kept[i] in AllBreaks(g, kept)
  {
    if i > 1 {
      KeptAreBreaks(g, kept[1..], i - 1);
    } else {
      BreaksChain(g, kept[0], kept[1]);
      ChainReachesEnd(g, kept[0], Breaks(g, kept[0], kept[1]), kept[1]);
    }
  }

  /** Every gap of a chain, the one from `lo` included, is fine. */
  ghost predicate FineGaps(g: Setting, lo: nat, breaks: seq<nat>, hi: nat) {
    forall i :: 0 <= i < |breaks| ==> FineGap(g, lo, breaks, hi, i)
  }

  function Preceding(lo: nat, breaks: seq<nat>, i: nat): nat
    requires i < |breaks|
  {
    if i == 0 then lo else breaks[i - 1]
  }

  ghost predicate FineGap(g: Setting, lo: nat, breaks: seq<nat>, hi: nat, i: nat)
    requires i < |breaks|
  {
    Preceding(lo, breaks, i) < breaks[i] <= hi && Fine(g, Preceding(lo, breaks, i), breaks[i])
  }

  lemma ChainHasFineGaps(g: Setting, lo: nat, breaks: seq<nat>, hi: nat)
    requires Chain(g, lo, breaks, hi)
    ensures FineGaps(g, lo, breaks, hi)
  {
    forall i | 0 <= i < |breaks| ensures FineGap(g, lo, breaks, hi, i) {
      ChainGap(g, lo, breaks, hi, i);
    }
  }

  lemma AllKeptAreBreaks(g: Setting, kept: seq<nat>)
    requires kept != [] && Ascending(kept)
    ensures forall k :: k in kept ==> k == kept[0] || k in AllBreaks(g, kept)
  {
    forall k | k in kept
      ensures k == kept[0] || k in AllBreaks(g, kept)
    {
      var i :| 0 <= i < |kept| && kept[i] == k;
      if i > 0 {
        KeptAreBreaks(g, kept, i);
      }
    }
  }

  /** Guard subdivision of a whole run, from its first to its last kept index. */
  lemma GuardedRun(g: Setting, kept: seq<nat>, last: nat)
    requires kept != [] && Ascending(kept) && kept[0] == 0 && kept[|kept| - 1] == last
    ensures Chain(g, 0, AllBreaks(g, kept), last)
    ensures forall k :: k in kept ==> k == 0 || k in AllBreaks(g, kept)
  {
    AllBreaksChain(g, kept);
    AllKeptAreBreaks(g, kept);
  }

  lemma BreaksOfRun(g: Setting, kept: seq<nat>, last: nat) returns (breaks: seq<nat>)
    requires kept != [] && Ascending(kept) && kept[0] == 0 && kept[|kept| - 1] == last
    ensures breaks == AllBreaks(g, kept) && Chain(g, 0, breaks, last) && FineGaps(g, 0, breaks, last)
    ensures forall k :: k in kept ==> k == 0 || k in breaks
  {
    GuardedRun(g, kept, last);
    breaks := AllBreaks(g, kept);
    ChainHasFineGaps(g, 0, breaks, last);
  }

  lemma {:induction false} AllBreaksSnoc(g: Setting, kept: seq<nat>, next: nat)
    requires kept != []
    ensures AllBreaks(g, kept + [next]) == AllBreaks(g, kept) + Breaks(g, kept[|kept| - 1], next)
  {
    if |kept| == 1 {
      assert (kept + [next])[1..] == [next];
      assert AllBreaks(g, [next]) == [];
      assert Breaks(g, kept[0], next) + [] == [] + Breaks(g, kept[0], next);
    } else {
      AllBreaksSnoc(g, kept[1..], next);
      assert (kept + [next])[1..] == kept[1..] + [next];
    }
  }

  lemma ChainReachesEnd(g: Setting, lo: nat, breaks: seq<nat>, hi: nat)
    requires Chain(g, lo, breaks, hi) && lo < hi
    ensures breaks != [] && breaks[|breaks| - 1] == hi
  {
    if breaks != [] {
      ChainGap(g, lo, breaks, hi, |breaks| - 1);
    }
  }

  // ------------------------------------------------------------------ output

  predicate Within(breaks: seq<nat>, n: nat) {
    forall i :: 0 <= i < |breaks| ==> breaks[i] < n
  }

  /** Appends the points at the breakpoints, skipping one equal to the last point written. */
  function Emit<P(==)>(points: seq<P>, output: seq<P>, breaks: seq<nat>): seq<P>
    requires Within(breaks, |points|)
    decreases |breaks|
  {
    if breaks == [] then output
    else
      var p := points[breaks[0]];
      Emit(points, if output != [] && output[|output| - 1] == p then output else output + [p], breaks[1..])
  }

  predicate NoEqualNeighbours<P(==)>(s: seq<P>) {
    forall i :: 0 < i < |s| ==> s[i - 1] != s[i]
  }

  /** `at` witnesses that `s` is a subsequence of `points`. */
  ghost predicate Embeds<P>(points: seq<P>, s: seq<P>, at: seq<nat>) {
    && |at| == |s| && Ascending(at)
    && (forall i :: 0 <= i < |at| ==> at[i] < |points|)
    && (forall i :: 0 <= i < |at| ==> s[i] == points[at[i]])
  }

  /** The indices of the points that are appended, after those in `at`. */
  ghost function EmitAt<P>(points: seq<P>, output: seq<P>, at: seq<nat>, breaks: seq<nat>): seq<nat>
    requires Within(breaks, |points|)
    decreases |breaks|
  {
    if breaks == [] then at
    else
      var p := points[breaks[0]];
      if output != [] && output[|output| - 1] == p then EmitAt(points, output, at, breaks[1..])
      else EmitAt(points, output + [p], at + [breaks[0]], breaks[1..])
  }

  lemma {:induction false} EmitIsSubsequence<P>(g: Setting, points: seq<P>, output: seq<P>, at: seq<nat>,
                                                lo: nat, breaks: seq<nat>, hi: nat)
    requires Chain(g, lo, breaks, hi) && lo <= hi < |points|
    requires Within(breaks, |points|)
    requires output != [] && NoEqualNeighbours(output) && output[|output| - 1] == points[lo]
    requires Embeds(points, output, at) && at[|at| - 1] <= lo
    ensures var result := Emit(points, output, breaks);
            && Embeds(points, result, EmitAt(points, output, at, breaks)) && NoEqualNeighbours(result)
            && output <= result && result[|result| - 1] == points[hi]
    decreases |breaks|
  {
    if breaks != [] {
      var p := points[breaks[0]];
      ChainEnd(g, breaks[0], breaks[1..], hi);
      if output[|output| - 1] == p {
        EmitIsSubsequence(g, points, output, at, breaks[0], breaks[1..], hi);
      } else {
        EmbedsAppend(points, output, at, breaks[0]);
        EmitIsSubsequence(g, points, output + [p], at + [breaks[0]], breaks[0], breaks[1..], hi);
        assert output <= output + [p];
      }
    }
  }

  lemma EmbedsAppend<P>(points: seq<P>, output: seq<P>, at: seq<nat>, b: nat)
    requires Embeds(points, output, at) && output != [] && at[|at| - 1] < b < |points|
    requires NoEqualNeighbours(output) && output[|output| - 1] != points[b]
    ensures Embeds(points, output + [points[b]], at + [b]) && NoEqualNeighbours(output + [points[b]])
  {
  }

  /** The j-th index taken is the last one at or before `b`, and its point is equal. */
  predicate StandsAt<P(==)>(points: seq<P>, at: seq<nat>, b: nat, j: nat) {
    j < |at| && at[j] <= b < |points| && (j + 1 < |at| ==> b < at[j + 1]) && points[at[j]] == points[b]
  }

  ghost predicate StandsFor<P>(points: seq<P>, at: seq<nat>, b: nat) {
    exists j: nat :: StandsAt(points, at, b, j)
  }

  lemma {:induction false} ChainIsAbove(g: Setting, lo: nat, breaks: seq<nat>, hi: nat)
    requires Chain(g, lo, breaks, hi)
    ensures forall b :: b in breaks ==> lo < b <= hi
    decreases |breaks|
  {
    if breaks != [] {
      ChainIsAbove(g, breaks[0], breaks[1..], hi);
      ChainEnd(g, breaks[0], breaks[1..], hi);
      assert forall b :: b in breaks ==> b == breaks[0] || b in breaks[1..];
    }
  }

  /** The output takes indices in order, each a breakpoint, and leaves out only points equal to the one before. */
  ghost predicate Takes<P>(points: seq<P>, at: seq<nat>, breaks: seq<nat>, at': seq<nat>) {
    && at <= at'
    && (forall k :: |at| <= k < |at'| ==> at'[k] in breaks)
    && (forall b :: b in breaks ==> StandsFor(points, at', b))
  }

  lemma TakesFirst<P>(g: Setting, points: seq<P>, at: seq<nat>, lo: nat, breaks: seq<nat>, hi: nat, taken: seq<nat>,
                      at': seq<nat>)
    requires Chain(g, lo, breaks, hi) && breaks != [] && hi < |points|
    requires at != [] && (taken == at || taken == at + [breaks[0]])
    requires taken[|taken| - 1] <= breaks[0] < |points| && points[taken[|taken| - 1]] == points[breaks[0]]
    requires Takes(points, taken, breaks[1..], at')
    ensures Takes(points, at, breaks, at')
  {
    ChainIsAbove(g, breaks[0], breaks[1..], hi);
    var j := |taken| - 1;
    assert at'[j] == taken[j] && (j + 1 < |at'| ==> at'[j + 1] in breaks[1..]);
    assert StandsAt(points, at', breaks[0], j);
    assert forall b :: b in breaks ==> b == breaks[0] || b in breaks[1..];
  }

  lemma {:induction false} EmitTakes<P>(g: Setting, points: seq<P>, output: seq<P>, at: seq<nat>, lo: nat,
                                        breaks: seq<nat>, hi: nat)
    requires Chain(g, lo, breaks, hi) && lo <= hi < |points| && Within(breaks, |points|)
    requires output != [] && at != [] && at[|at| - 1] <= lo && output[|output| - 1] == points[at[|at| - 1]]
    ensures Takes(points, at, breaks, EmitAt(points, output, at, breaks))
    decreases |breaks|
  {
    if breaks != [] {
      var p := points[breaks[0]];
      ChainEnd(g, breaks[0], breaks[1..], hi);
      var all := EmitAt(points, output, at, breaks);
      if output[|output| - 1] == p {
        EmitTakes(g, points, output, at, breaks[0], breaks[1..], hi);
        TakesFirst(g, points, at, lo, breaks, hi, at, all);
      } else {
        EmitTakes(g, points, output + [p], at + [breaks[0]], breaks[0], breaks[1..], hi);
        TakesFirst(g, points, at, lo, breaks, hi, at + [breaks[0]], all);
      }
    }
  }

  lemma ChainInRange(g: Setting, lo: nat, breaks: seq<nat>, hi: nat)
    requires Chain(g, lo, breaks, hi)
    ensures Within(breaks, hi + 1)
  {
    forall i | 0 <= i < |breaks|
      ensures breaks[i] < hi + 1
    {
      ChainGap(g, lo, breaks, hi, i);
    }
  }

  // -------------------------------------------------------------- the loops

  /** The guard's scan of one interval: path length and the first farthest interior point. */
  method MeasureInterval(g: Setting, lo: nat, hi: nat) returns (length: real, max: real, curveSplit: Option<nat>)
    requires lo < hi
    ensures length == PathLength(g, lo, hi)
    ensures max == Curve(g, lo, hi).0
    ensures curveSplit == if Curve(g, lo, hi).1 == lo then None else Some(Curve(g, lo, hi).1)
  {
    length, max, curveSplit := 0.0, 0.0, None;
    for index := lo + 1 to hi
      invariant length == PathLength(g, lo, index - 1)
      invariant max == Scan(g.off, lo, hi, index).0
      invariant curveSplit == if Scan(g.off, lo, hi, index).1 == lo then None else Some(Scan(g.off, lo, hi, index).1)
    {
      length := length + g.step(index);
      var perpendicular := g.off(lo, hi, index);
      if perpendicular > max {
        max, curveSplit := perpendicular, Some(index);
      }
    }
    length := length + g.step(hi);
  }

  method MidpointByPathLength(g: Setting, lo: nat, hi: nat, length: real) returns (midpoint: Option<nat>)
    requires length == PathLength(g, lo, hi)
    ensures midpoint == Midpoint(g, lo, hi)
  {
    if hi <= lo + 1 {
      return None;
    }
    var target := length / 2.0;
    var walked := 0.0;
    for index := lo + 1 to hi
      invariant walked == PathLength(g, lo, index - 1)
      invariant MidpointFrom(g, lo, hi, target, lo + 1) == MidpointFrom(g, lo, hi, target, index)
    {
      walked := walked + g.step(index);
      if walked >= target {
        return Some(index);
      }
    }
    var half := (hi - lo) / 2;
    return Some(lo + if half > 1 then half else 1);
  }

  method ChooseBreak(g: Setting, lo: nat, hi: nat) returns (chosen: Option<nat>)
    requires lo < hi
    ensures chosen == Choose(g, lo, hi)
  {
    var length, max, curveSplit := MeasureInterval(g, lo, hi);
    var tooLong := length > g.maxSegment;
    var tooCurvy := g.curveGuard > 0.0 && max > g.curveGuard;
    chosen := None;
    if tooLong || tooCurvy {
      var midpoint := MidpointByPathLength(g, lo, hi, length);
      chosen := if tooCurvy then (if curveSplit.Some? then curveSplit else midpoint)
                else (if midpoint.Some? then midpoint else curveSplit);
    }
  }

  /** The breakpoints of the intervals on a stack, top first. */
  ghost function PendingBreaks(g: Setting, stack: seq<Interval>): seq<nat> {
    if stack == [] then []
    else
      var top := stack[|stack| - 1];
      Breaks(g, top.start, top.end) + PendingBreaks(g, stack[..|stack| - 1])
  }

  lemma PendingTop(g: Setting, rest: seq<Interval>, top: Interval)
    ensures PendingBreaks(g, rest + [top]) == Breaks(g, top.start, top.end) + PendingBreaks(g, rest)
    ensures top.start < top.end ==> Measure(rest + [top]) == Measure(rest) + 2 * (top.end - top.start) - 1
    ensures Measure(rest) < Measure(rest + [top])
  {
    assert (rest + [top])[..|rest|] == rest;
  }

  lemma PendingWritten(g: Setting, rest: seq<Interval>, top: Interval, written: seq<nat>)
    requires top.start < top.end && Choose(g, top.start, top.end) == None
    ensures (written + [top.end]) + PendingBreaks(g, rest) == written + PendingBreaks(g, rest + [top])
    ensures Measure(rest) < Measure(rest + [top])
  {
    PendingTop(g, rest, top);
    assert Breaks(g, top.start, top.end) == [top.end];
  }

  lemma PendingDivided(g: Setting, rest: seq<Interval>, top: Interval, c: nat)
    requires top.start < top.end && Choose(g, top.start, top.end) == Some(c)
    ensures var divided := rest + [Interval(c, top.end)] + [Interval(top.start, c)];
            && PendingBreaks(g, divided) == PendingBreaks(g, rest + [top])
            && Measure(divided) < Measure(rest + [top])
  {
    var left, right := Interval(top.start, c), Interval(c, top.end);
    PendingTop(g, rest, top);
    PendingTop(g, rest, right);
    PendingTop(g, rest + [right], left);
    assert Breaks(g, top.start, top.end) == Breaks(g, left.start, left.end) + Breaks(g, right.start, right.end);
    var a, b, c := Breaks(g, left.start, left.end), Breaks(g, right.start, right.end), PendingBreaks(g, rest);
    assert (a + b) + c == a + (b + c);
  }

  /** The explicit stack emits exactly the recursive breakpoints, and it always empties. */
  method AppendGuarded<P(==)>(g: Setting, points: seq<P>, start: nat, end: nat, output: seq<P>) returns (result: seq<P>)
    requires start <= end < |points|
    ensures Within(Breaks(g, start, end), |points|)
    ensures result == Emit(points, output, Breaks(g, start, end))
  {
    BreaksChain(g, start, end);
    ChainInRange(g, start, Breaks(g, start, end), end);
    result := output;
    var stack := [Interval(start, end)];
    ghost var written: seq<nat> := [];
    PendingOne(g, Interval(start, end));
    while stack != []
      invariant written + PendingBreaks(g, stack) == Breaks(g, start, end)
      invariant Within(written, |points|)
      invariant result == Emit(points, output, written)
      decreases Measure(stack)
    {
      result, stack, written := GuardStep(g, points, output, result, stack, written);
    }
    assert written + [] == written;
  }

  lemma PendingOne(g: Setting, top: Interval)
    ensures PendingBreaks(g, [top]) == Breaks(g, top.start, top.end)
  {
    PendingTop(g, [], top);
    assert [] + [top] == [top];
  }

  /** One iteration: pops an interval and either divides it or writes its end. */
  method GuardStep<P(==)>(g: Setting, points: seq<P>, ghost output: seq<P>, result: seq<P>, stack: seq<Interval>,
                          ghost written: seq<nat>)
    returns (result': seq<P>, stack': seq<Interval>, ghost written': seq<nat>)
    requires stack != [] && Within(written + PendingBreaks(g, stack), |points|)
    requires Within(written, |points|) && result == Emit(points, output, written)
    ensures written' + PendingBreaks(g, stack') == written + PendingBreaks(g, stack)
    ensures Within(written', |points|) && result' == Emit(points, output, written')
    ensures Measure(stack') < Measure(stack)
  {
    var top, rest := stack[|stack| - 1], stack[..|stack| - 1];
    assert stack == rest + [top];
    result', stack', written' := result, rest, written;
    if top.start >= top.end {
      PendingTop(g, rest, top);
      return;
    }
    var chosen := ChooseBreak(g, top.start, top.end);
    if chosen.Some? {
      PendingDivided(g, rest, top, chosen.value);
      stack' := rest + [Interval(chosen.value, top.end)] + [Interval(top.start, chosen.value)];
      return;
    }
    PendingWritten(g, rest, top, written);
    assert ((written + [top.end]) + PendingBreaks(g, rest))[|written|] == top.end;
    EmitOneMore(points, output, written, top.end);
    written' := written + [top.end];
    if result == [] || result[|result| - 1] != points[top.end] {
      result' := result + [points[top.end]];
    }
  }

  lemma {:induction false} EmitOneMore<P>(points: seq<P>, output: seq<P>, breaks: seq<nat>, b: nat)
    requires Within(breaks, |points|)
    requires b < |points|
    ensures var before := Emit(points, output, breaks);
            var p := points[b];
            && Within(breaks + [b], |points|)
            && Emit(points, output, breaks + [b])
            == if before != [] && before[|before| - 1] == p then before else before + [p]
    decreases |breaks|
  {
    if breaks == [] {
      assert (breaks + [b])[1..] == [];
    } else {
      var p := points[breaks[0]];
      var next := if output != [] && output[|output| - 1] == p then output else output + [p];
      EmitOneMore(points, next, breaks[1..], b);
      assert (breaks + [b])[1..] == breaks[1..] + [b];
    }
  }
}
