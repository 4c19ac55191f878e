/**
  * The page consumer of a generation (compute/src/lib.rs): the accumulators and budgets that it
  * updates in place, drive by drive, and the latch that keeps the first error.
  */
module Consumer {
  import opened Outcomes
  import opened Rdp
  import opened PositionPage
  import opened Simplify
  import opened Drawing
  import opened Ledger
  import opened Packing
  import opened Publish
  import opened Generate
  import opened Generation

  class PageConsumer<P(!new, ==)> {
    const geometry: Geometry<P>
    ghost const kernel: Kernel<P>
    const budget: RdpBudget
    var tiers: seq<Tier>
    var used: nat
    var tileCount: nat
    var points: nat
    var firstError: Option<Error>

    constructor (geometry: Geometry<P>, limit: Option<nat>)
      ensures Snapshot() == Initial(4, limit) && firstError.None?
      ensures kernel == KernelOf(geometry) && Faithful()
      ensures fresh(budget)
    {
      this.geometry := geometry;
      kernel := KernelOf(geometry);
      budget := new RdpBudget(limit);
      tiers := seq(4, _ => Tier(map[], 0));
      used, tileCount, points, firstError := 0, 0, 0, None;
    }

    /** `kernel` stands for the effects of the geometry, looked up run by run. */
    ghost predicate Faithful() {
      && kernel.valid == geometry.metric.valid
      && forall t, run {:trigger Visited(t, run)} ::
           Visited(t, run) ==> kernel.effects(t, run) == RunEvents(geometry, t, run)
    }

    predicate Visited(t: nat, run: seq<P>) {
      true
    }

    /** The accumulation state as a value. */
    function Snapshot(): State
      reads this, budget
    {
      State(tiers, used, tileCount, budget.remaining, points)
    }

    /** Adds a segment, or rejects it and changes nothing. */
    method MergeRawSegment(t: nat, raw: RawSegment) returns (error: Option<Error>)
      requires t < |tiers|
      modifies this`tiers, this`used, this`tileCount
      ensures |tiers| == |old(tiers)|
      ensures match Merge(old(Snapshot()), t, raw)
              case None => error == Some(MergeError(old(Snapshot()), t, raw)) && Snapshot() == old(Snapshot())
              case Some(s) => error.None? && Snapshot() == s
    {
      var key := KeyOf(raw);
      if key.None? {
        return Some(CoordinateTooWide);
      }
      var weights := tiers[t].weights;
      if raw.tile !in weights {
        if tileCount >= MAX_TILES {
          return Some(TooManyTiles);
        }
        if used >= MAX_ENTRIES {
          return Some(TooManyEntries);
        }
        used := used + 1;
        tileCount := tileCount + 1;
        tiers := tiers[t := tiers[t].(weights := weights[raw.tile := map[key.value := 1]])];
        return None;
      }
      var segments := weights[raw.tile];
      if key.value !in segments {
        if |segments| >= MAX_ENTRIES {
          return Some(TileFull);
        }
        if used >= MAX_ENTRIES {
          return Some(TooManyEntries);
        }
        used := used + 1;
        segments := segments[key.value := 1];
      } else {
        if segments[key.value] >= MAX_U64 {
          return Some(WeightOverflow);
        }
        segments := segments[key.value := segments[key.value] + 1];
      }
      tiers := tiers[t := tiers[t].(weights := weights[raw.tile := segments])];
      return None;
    }

    method MergeAll(t: nat, segments: seq<RawSegment>) returns (error: Option<Error>)
      requires t < 4 == |tiers|
      modifies this`tiers, this`used, this`tileCount
      ensures |tiers| == 4
      ensures Effect(old(Snapshot()), EmitAll(t, segments)) == Ended(error, Snapshot())
    {
      ghost var events := EmitAll(t, segments);
      EffectOfNothing(Snapshot());
      for i := 0 to |segments|
        invariant |tiers| == 4
        invariant Effect(old(Snapshot()), events[..i]) == Success(Snapshot())
      {
        EffectSnoc(old(Snapshot()), events[..i], events[i], Snapshot());
        assert events[..i] + [events[i]] == events[..i + 1];
        error := MergeRawSegment(t, segments[i]);
        if error.Some? {
          EffectConcat(old(Snapshot()), events[..i + 1], events[i + 1..]);
          assert events == events[..i + 1] + events[i + 1..];
          return;
        }
      }
      assert events[..|segments|] == events;
      error := None;
    }

    /** Simplifies a valid run and merges its segments. */
    method VisitRun(t: nat, run: seq<P>) returns (error: Option<Error>)
      requires Faithful()
      requires t < 4 == |tiers|
      modifies this`tiers, this`used, this`tileCount, budget
      ensures |tiers| == 4
      ensures Effect(old(Snapshot()), kernel.effects(t, run)) == Ended(error, Snapshot())
    {
      ghost var cost := Evaluate(RunCost(run, geometry.metric, TIERS[t]));
      ghost var emits := EmitAll(t, Drawn(geometry, TIERS[t], Simplified(run, geometry.metric, TIERS[t])));
      EffectOne(Snapshot(), cost);
      EffectConcat(Snapshot(), [cost], emits);
      assert Visited(t, run);
      assert kernel.effects(t, run) == [cost] + emits;
      var simplified := SimplifyControlled(run, geometry.metric, TIERS[t], budget);
      if simplified.None? {
        return Some(LimitExceeded);
      }
      var segments := AddDrive(geometry, TIERS[t], simplified.value);
      error := MergeAll(t, segments);
    }

    /** Visits the run that ends before `index`, if there is one, after the runs visited and before the rest. */
    method CloseRun(t: nat, drive: seq<P>, runStart: nat, index: nat, ghost start: State, ghost visited: seq<seq<P>>,
                    ghost rest: seq<seq<P>>)
      returns (error: Option<Error>)
      requires Faithful()
      requires t < 4 == |tiers| && index <= |drive|
      requires Effect(start, RunsEvents(kernel, t, visited)) == Success(Snapshot())
      modifies this`tiers, this`used, this`tileCount, budget
      ensures |tiers| == 4
      ensures var closed := visited + Closed(drive, runStart, index);
              match error
              case None => Effect(start, RunsEvents(kernel, t, closed)) == Success(Snapshot())
              case Some(e) => Effect(start, RunsEvents(kernel, t, closed + rest)) == Failure(e)
    {
      if runStart < index {
        ghost var run := drive[runStart..index];
        RunsEventsSnoc(kernel, t, visited, run);
        EffectConcat(start, RunsEvents(kernel, t, visited), kernel.effects(t, run));
        error := VisitRun(t, drive[runStart..index]);
        if error.Some? {
          RunsFail(kernel, t, start, visited + [run], rest);
        }
      } else {
        assert visited + [] == visited;
        error := None;
      }
    }

    /** Visits the maximal valid runs in order; an invalid point ends a run. */
    method VisitRuns(t: nat, drive: seq<P>) returns (error: Option<Error>)
      requires Faithful()
      requires t < 4 == |tiers|
      modifies this`tiers, this`used, this`tileCount, budget
      ensures |tiers| == 4
      ensures Effect(old(Snapshot()), RunsEvents(kernel, t, Runs(drive, kernel.valid))) == Ended(error, Snapshot())
    {
      ghost var all, start := Runs(drive, kernel.valid), Snapshot();
      ghost var visited: seq<seq<P>> := [];
      assert [] + all == all;
      EffectOfNothing(start);
      var runStart := 0;
      for index := 0 to |drive|
        invariant |tiers| == 4
        invariant visited + RunsFrom(drive, kernel.valid, runStart, index) == all
        invariant Effect(start, RunsEvents(kernel, t, visited)) == Success(Snapshot())
      {
        if !geometry.metric.valid(drive[index]) {
          ghost var closed, rest := Closed(drive, runStart, index), RunsFrom(drive, kernel.valid, index + 1, index + 1);
          RunCloses(drive, kernel.valid, runStart, index, visited);
          error := CloseRun(t, drive, runStart, index, start, visited, rest);
          if error.Some? {
            return;
          }
          visited := visited + closed;
          runStart := index + 1;
        }
      }
      assert all + [] == all;
      error := CloseRun(t, drive, runStart, |drive|, start, visited, []);
    }

    /** One LOD tier of a drive: its runs, and then the tier's count of drives. */
    method VisitTier(t: nat, drive: seq<P>) returns (error: Option<Error>)
      requires Faithful()
      requires t < 4 == |tiers|
      modifies this`tiers, this`used, this`tileCount, budget
      ensures |tiers| == 4
      ensures Effect(old(Snapshot()), TierEvents(kernel, t, drive)) == Ended(error, Snapshot())
    {
      EffectConcat(Snapshot(), RunsEvents(kernel, t, Runs(drive, kernel.valid)), [Complete(t)]);
      error := VisitRuns(t, drive);
      if error.Some? {
        return;
      }
      EffectOne(Snapshot(), Complete(t));
      if tiers[t].drives >= MAX_U64 {
        return Some(DrivesOverflow);
      }
      tiers := tiers[t := tiers[t].(drives := tiers[t].drives + 1)];
    }

    method VisitTiers(drive: seq<P>) returns (error: Option<Error>)
      requires Faithful()
      requires |tiers| == 4
      modifies this`tiers, this`used, this`tileCount, budget
      ensures |tiers| == 4
      ensures Effect(old(Snapshot()), TiersEvents(kernel, |TIERS|, drive)) == Ended(error, Snapshot())
    {
      EffectOfNothing(Snapshot());
      var t := 0;
      while t < |TIERS|
        invariant 0 <= t <= |TIERS| && |tiers| == 4
        invariant Effect(old(Snapshot()), TiersEvents(kernel, t, drive)) == Success(Snapshot())
      {
        EffectConcat(old(Snapshot()), TiersEvents(kernel, t, drive), TierEvents(kernel, t, drive));
        error := VisitTier(t, drive);
        t := t + 1;
        if error.Some? {
          TiersFail(kernel, drive, old(Snapshot()), t);
          return;
        }
      }
      error := None;
    }

    /** All LOD tiers of one drive, each completed once. */
    method VisitDrive(drive: Drive<P>) returns (error: Option<Error>)
      requires Faithful()
      requires |tiers| == 4
      modifies this`tiers, this`used, this`tileCount, this`points, budget
      ensures |tiers| == 4
      ensures Effect(old(Snapshot()), DriveEvents(kernel, drive)) == Ended(error, Snapshot())
    {
      EffectOne(Snapshot(), Points(|drive.points|));
      EffectConcat(Snapshot(), [Points(|drive.points|)], TiersEvents(kernel, |TIERS|, drive.points));
      if points + |drive.points| > MAX_I64 {
        return Some(PointsOverflow);
      }
      points := points + |drive.points|;
      error := VisitTiers(drive.points);
    }

    /** Consumes one page. The first error is kept: every later page gets it and changes nothing. */
    method Consume(page: seq<Drive<P>>) returns (error: Option<Error>)
      requires Faithful()
      requires |tiers| == 4
      modifies this, budget
      ensures |tiers| == 4 && error == firstError
      ensures old(firstError).Some? ==> firstError == old(firstError) && Snapshot() == old(Snapshot())
      ensures old(firstError).None? ==> error == ErrorIn(PageResult(kernel, old(Snapshot()), page))
      ensures error.None? ==> PageResult(kernel, old(Snapshot()), page) == Success(Snapshot())
    {
      if firstError.Some? {
        return firstError;
      }
      error := ConsumeDrives(page);
      firstError := error;
    }

    method ConsumeDrives(page: seq<Drive<P>>) returns (error: Option<Error>)
      requires Faithful()
      requires |tiers| == 4
      modifies this`tiers, this`used, this`tileCount, this`points, budget
      ensures |tiers| == 4
      ensures error == ErrorIn(PageResult(kernel, old(Snapshot()), page))
      ensures error.None? ==> PageResult(kernel, old(Snapshot()), page) == Success(Snapshot())
    {
      if !ValidTypedPage(page) {
        return Some(PageRefused);
      }
      error := VisitDrives(page);
    }

    method VisitDrives(page: seq<Drive<P>>) returns (error: Option<Error>)
      requires Faithful()
      requires |tiers| == 4
      modifies this`tiers, this`used, this`tileCount, this`points, budget
      ensures |tiers| == 4
      ensures Effect(old(Snapshot()), AllEvents(kernel, page)) == Ended(error, Snapshot())
    {
      ghost var start := Snapshot();
      EffectOfNothing(start);
      for i := 0 to |page|
        invariant |tiers| == 4
        invariant Effect(start, AllEvents(kernel, page[..i])) == Success(Snapshot())
      {
        error := VisitNext(page, i, start);
        if error.Some? {
          DrivesFail(kernel, start, page[..i + 1], page[i + 1..]);
          assert page[..i + 1] + page[i + 1..] == page;
          return;
        }
      }
      assert page[..|page|] == page;
      error := None;
    }

    /** Visits one more drive of a page. */
    method VisitNext(page: seq<Drive<P>>, i: nat, ghost start: State) returns (error: Option<Error>)
      requires Faithful() && i < |page|
      requires |tiers| == 4
      requires Effect(start, AllEvents(kernel, page[..i])) == Success(Snapshot())
      modifies this`tiers, this`used, this`tileCount, this`points, budget
      ensures |tiers| == 4
      ensures Effect(start, AllEvents(kernel, page[..i + 1])) == Ended(error, Snapshot())
    {
      DriveAdded(kernel, start, page, i, Snapshot());
      error := VisitDrive(page[i]);
    }

    /** The latch holds the first error of the pages consumed, and the state is theirs while it is empty. */
    ghost predicate Latched(start: State, pages: seq<seq<Drive<P>>>)
      reads this, budget
    {
      && |tiers| == 4
      && firstError == ErrorIn(PagesResult(kernel, start, pages))
      && (firstError.None? ==> PagesResult(kernel, start, pages) == Success(Snapshot()))
    }

    method ConsumeNext(page: seq<Drive<P>>, ghost start: State, ghost pages: seq<seq<Drive<P>>>)
      returns (error: Option<Error>)
      requires Faithful()
      requires Latched(start, pages)
      modifies this, budget
      ensures error == firstError && Latched(start, pages + [page])
    {
      PagesResultSnoc(kernel, start, pages, page);
      error := Consume(page);
    }
  }

  // -------------------------------------------------------------------- errors

  /** What can stop a consumer. */
  datatype Error = PageRefused | PointsOverflow | LimitExceeded | CoordinateTooWide | TooManyTiles | TooManyEntries
                 | TileFull | WeightOverflow | DrivesOverflow | NoSuchTier

  /** The first test that a rejected segment fails. */
  function MergeError(s: State, t: nat, raw: RawSegment): Error
    requires t < |s.tiers|
  {
    if KeyOf(raw).None? then CoordinateTooWide
    else if raw.tile !in s.tiers[t].weights then if s.tileCount >= MAX_TILES then TooManyTiles else TooManyEntries
    else if KeyOf(raw).value in s.tiers[t].weights[raw.tile] then WeightOverflow
    else if |s.tiers[t].weights[raw.tile]| >= MAX_ENTRIES then TileFull
    else TooManyEntries
  }

  /** Each reason for which a segment is refused holds, and none of those tested before it does. */
  lemma ErrorsHaveCauses(s: State, t: nat, raw: RawSegment)
    requires t < |s.tiers| && Merge(s, t, raw).None?
    ensures var error, weights := MergeError(s, t, raw), s.tiers[t].weights;
            && (error == CoordinateTooWide <==> !InRange(raw))
            && (error == TooManyTiles <==> InRange(raw) && raw.tile !in weights && s.tileCount >= 4096)
            && (error == TileFull ==> raw.tile in weights && |weights[raw.tile]| >= 1_048_576)
            && (error == TooManyEntries ==> s.used >= 1_048_576)
            && (error == WeightOverflow ==>
                  raw.tile in weights && exists key :: key in weights[raw.tile] && weights[raw.tile][key] >= MAX_U64)
            && error in {CoordinateTooWide, TooManyTiles, TileFull, TooManyEntries, WeightOverflow}
  {
  }

  function ErrorOf(s: State, e: Event): Error
    requires ValidEvent(e, |s.tiers|)
  {
    match e
    case Points(_) => PointsOverflow
    case Evaluate(_) => LimitExceeded
    case Emit(t, raw) => MergeError(s, t, raw)
    case Complete(_) => DrivesOverflow
  }

  function Tried(s: State, e: Event): Result<State, Error> {
    if !ValidEvent(e, |s.tiers|) then Failure(NoSuchTier)
    else
      match Apply(s, e)
      case None => Failure(ErrorOf(s, e))
      case Some(r) => Success(r)
  }

  /** Events one after another, up to the first error. */
  function TriedAll(s: State, events: seq<Event>): Result<State, Error> {
    if events == [] then Success(s)
    else
      var before :- TriedAll(s, events[..|events| - 1]);
      Tried(before, events[|events| - 1])
  }

  lemma {:induction false} TriedConcat(s: State, a: seq<Event>, b: seq<Event>)
    ensures TriedAll(s, a + b) == match TriedAll(s, a)
                                  case Failure(e) => Failure(e)
                                  case Success(r) => TriedAll(r, b)
    decreases |b|
  {
    if b == [] {
      assert a + b == a;
    } else {
      TriedConcat(s, a, b[..|b| - 1]);
      assert (a + b)[..|a + b| - 1] == a + b[..|b| - 1];
    }
  }

  /** Without an error the events have the effect that the ledger gives them. */
  lemma {:induction false} TriedIsApplied(s: State, events: seq<Event>)
    requires ValidEvents(events, |s.tiers|)
    ensures TriedAll(s, events).Success? <==> ApplyAll(s, events).Some?
    ensures TriedAll(s, events).Success? ==> ApplyAll(s, events) == Some(TriedAll(s, events).value)
  {
    if events != [] {
      TriedIsApplied(s, events[..|events| - 1]);
    }
  }

  function ErrorIn(r: Result<State, Error>): Option<Error> {
    if r.Failure? then Some(r.error) else None
  }

  function Ended(error: Option<Error>, s: State): Result<State, Error> {
    match error
    case None => Success(s)
    case Some(e) => Failure(e)
  }

  // ------------------------------------------------------ the effect of events

  /** Names an application: what `Effect` says is looked up only where this stands. */
  predicate Applied(s: State, events: seq<Event>) {
    true
  }

  ghost predicate Applies(f: (State, seq<Event>) -> Result<State, Error>) {
    forall s, events {:trigger Applied(s, events)} :: Applied(s, events) ==> f(s, events) == TriedAll(s, events)
  }

  /** What events lead to. */
  ghost function Effect(s: State, events: seq<Event>): Result<State, Error> {
    assert Applies((s: State, events: seq<Event>) => TriedAll(s, events));
    var f: (State, seq<Event>) -> Result<State, Error> :| Applies(f);
    f(s, events)
  }

  lemma EffectIs(s: State, events: seq<Event>)
    ensures Effect(s, events) == TriedAll(s, events)
  {
    assert Applied(s, events);
  }

  lemma EffectConcat(s: State, a: seq<Event>, b: seq<Event>)
    ensures Effect(s, a + b) == match Effect(s, a)
                                case Failure(e) => Failure(e)
                                case Success(r) => Effect(r, b)
  {
    EffectIs(s, a);
    EffectIs(s, a + b);
    TriedConcat(s, a, b);
    if Effect(s, a).Success? {
      EffectIs(Effect(s, a).value, b);
    }
  }

  lemma EffectOfNothing(s: State)
    ensures Effect(s, []) == Success(s)
  {
    EffectIs(s, []);
  }

  lemma EffectOne(s: State, e: Event)
    ensures Effect(s, [e]) == Tried(s, e)
  {
    EffectIs(s, [e]);
    assert [e][..0] == [];
  }

  lemma EffectSnoc(s: State, events: seq<Event>, e: Event, r: State)
    requires Effect(s, events) == Success(r)
    ensures Effect(s, events + [e]) == Tried(r, e)
  {
    EffectConcat(s, events, [e]);
    EffectOne(r, e);
  }

  // ---------------------------------------------- runs, tiers and drives joined

  /** An invalid point closes the run before it. */
  lemma RunCloses<P>(points: seq<P>, valid: P -> bool, start: nat, index: nat, visited: seq<seq<P>>)
    requires index < |points| && !valid(points[index])
    ensures visited + RunsFrom(points, valid, start, index)
         == (visited + Closed(points, start, index)) + RunsFrom(points, valid, index + 1, index + 1)
  {
  }

  lemma RunsEventsSnoc<P>(kernel: Kernel<P>, t: nat, runs: seq<seq<P>>, run: seq<P>)
    requires t < 4
    ensures RunsEvents(kernel, t, runs + [run]) == RunsEvents(kernel, t, runs) + kernel.effects(t, run)
  {
    assert (runs + [run])[..|runs|] == runs;
  }

  lemma {:induction false} RunsFail<P>(kernel: Kernel<P>, t: nat, s: State, a: seq<seq<P>>, b: seq<seq<P>>)
    requires t < 4 && Effect(s, RunsEvents(kernel, t, a)).Failure?
    ensures Effect(s, RunsEvents(kernel, t, a + b)) == Effect(s, RunsEvents(kernel, t, a))
    decreases |b|
  {
    if b == [] {
      assert a + b == a;
    } else {
      var init, last := b[..|b| - 1], b[|b| - 1];
      RunsFail(kernel, t, s, a, init);
      RunsEventsSnoc(kernel, t, a + init, last);
      EffectConcat(s, RunsEvents(kernel, t, a + init), kernel.effects(t, last));
      assert a + b == (a + init) + [last];
    }
  }

  lemma {:induction false} TiersFail<P>(kernel: Kernel<P>, points: seq<P>, s: State, t: nat)
    requires t <= |TIERS| && Effect(s, TiersEvents(kernel, t, points)).Failure?
    ensures Effect(s, TiersEvents(kernel, |TIERS|, points)) == Effect(s, TiersEvents(kernel, t, points))
    decreases |TIERS| - t
  {
    if t < |TIERS| {
      EffectConcat(s, TiersEvents(kernel, t, points), TierEvents(kernel, t, points));
      TiersFail(kernel, points, s, t + 1);
    }
  }

  lemma AllEventsSnoc<P>(kernel: Kernel<P>, drives: seq<Drive<P>>, drive: Drive<P>)
    ensures AllEvents(kernel, drives + [drive]) == AllEvents(kernel, drives) + DriveEvents(kernel, drive)
  {
    assert (drives + [drive])[..|drives|] == drives;
  }

  lemma {:induction false} AllEventsConcat<P>(kernel: Kernel<P>, a: seq<Drive<P>>, b: seq<Drive<P>>)
    ensures AllEvents(kernel, a + b) == AllEvents(kernel, a) + AllEvents(kernel, b)
    decreases |b|
  {
    if b == [] {
      assert a + b == a;
    } else {
      var init, last := b[..|b| - 1], b[|b| - 1];
      calc {
        AllEvents(kernel, a + b);
        { assert a + b == (a + init) + [last]; AllEventsSnoc(kernel, a + init, last); }
        AllEvents(kernel, a + init) + DriveEvents(kernel, last);
        { AllEventsConcat(kernel, a, init); }
        (AllEvents(kernel, a) + AllEvents(kernel, init)) + DriveEvents(kernel, last);
        AllEvents(kernel, a) + (AllEvents(kernel, init) + DriveEvents(kernel, last));
        { assert b == init + [last]; AllEventsSnoc(kernel, init, last); }
        AllEvents(kernel, a) + AllEvents(kernel, b);
      }
    }
  }

  lemma DriveAdded<P>(kernel: Kernel<P>, s: State, page: seq<Drive<P>>, i: nat, r: State)
    requires i < |page| && Effect(s, AllEvents(kernel, page[..i])) == Success(r)
    ensures Effect(s, AllEvents(kernel, page[..i + 1])) == Effect(r, DriveEvents(kernel, page[i]))
  {
    AllEventsSnoc(kernel, page[..i], page[i]);
    assert page[..i] + [page[i]] == page[..i + 1];
    EffectConcat(s, AllEvents(kernel, page[..i]), DriveEvents(kernel, page[i]));
  }

  lemma DrivesFail<P>(kernel: Kernel<P>, s: State, a: seq<Drive<P>>, b: seq<Drive<P>>)
    requires Effect(s, AllEvents(kernel, a)).Failure?
    ensures Effect(s, AllEvents(kernel, a + b)) == Effect(s, AllEvents(kernel, a))
  {
    AllEventsConcat(kernel, a, b);
    EffectConcat(s, AllEvents(kernel, a), AllEvents(kernel, b));
  }

  // --------------------------------------------------------------- whole runs

  /** What a page leads to. */
  ghost function PageResult<P>(kernel: Kernel<P>, s: State, page: seq<Drive<P>>): Result<State, Error> {
    if ValidTypedPage(page) then Effect(s, AllEvents(kernel, page)) else Failure(PageRefused)
  }

  /** What pages lead to: the first error, or the state after all of them. */
  ghost function PagesResult<P>(kernel: Kernel<P>, s: State, pages: seq<seq<Drive<P>>>): Result<State, Error> {
    if pages == [] then Success(s)
    else
      var before :- PagesResult(kernel, s, pages[..|pages| - 1]);
      PageResult(kernel, before, pages[|pages| - 1])
  }

  lemma PagesResultSnoc<P>(kernel: Kernel<P>, s: State, pages: seq<seq<Drive<P>>>, page: seq<Drive<P>>)
    ensures PagesResult(kernel, s, pages + [page]) == match PagesResult(kernel, s, pages)
                                                      case Failure(e) => Failure(e)
                                                      case Success(r) => PageResult(kernel, r, page)
  {
    assert (pages + [page])[..|pages|] == pages;
  }

  lemma {:induction false} PagesFail<P>(kernel: Kernel<P>, s: State, pages: seq<seq<Drive<P>>>, i: nat)
    requires i <= |pages| && PagesResult(kernel, s, pages[..i]).Failure?
    ensures PagesResult(kernel, s, pages) == PagesResult(kernel, s, pages[..i])
    decreases |pages| - i
  {
    if i == |pages| {
      assert pages[..i] == pages;
    } else {
      PagesResultSnoc(kernel, s, pages[..i], pages[i]);
      assert pages[..i] + [pages[i]] == pages[..i + 1];
      PagesFail(kernel, s, pages, i + 1);
    }
  }

  /** Pages get through exactly when all are valid and their drives, taken together, do. */
  lemma {:induction false} PagesSucceedExactly<P>(kernel: Kernel<P>, s: State, pages: seq<seq<Drive<P>>>)
    ensures var whole := Effect(s, AllEvents(kernel, Flatten(pages)));
            && (PagesResult(kernel, s, pages).Success? <==> ValidPages(pages) && whole.Success?)
            && (PagesResult(kernel, s, pages).Success? ==> PagesResult(kernel, s, pages) == whole)
  {
    if pages == [] {
      EffectOfNothing(s);
    } else {
      var init, last := pages[..|pages| - 1], pages[|pages| - 1];
      PagesSucceedExactly(kernel, s, init);
      AllEventsConcat(kernel, Flatten(init), last);
      EffectConcat(s, AllEvents(kernel, Flatten(init)), AllEvents(kernel, last));
      assert pages == init + [last];
      assert ValidPages(pages) <==> ValidPages(init) && ValidTypedPage(last);
    }
  }

  lemma FinalStateIsEffect<P(!new)>(kernel: Kernel<P>, limit: Option<nat>, drives: seq<Drive<P>>)
    requires RunsStayInTier(kernel)
    ensures FinalState(kernel, limit, drives).Some?
       <==> Effect(Initial(4, limit), AllEvents(kernel, drives)).Success?
    ensures var final := FinalState(kernel, limit, drives);
            var effect := Effect(Initial(4, limit), AllEvents(kernel, drives));
            final.Some? ==> effect == Success(final.value)
  {
    StateIsPublishable(kernel, limit, drives);
    EffectIs(Initial(4, limit), AllEvents(kernel, drives));
    TriedIsApplied(Initial(4, limit), AllEvents(kernel, drives));
  }

  /** Pages end in the state that is published, or in an error. */
  lemma PagesEndInFinalState<P(!new)>(g: Geometry<P>, limit: Option<nat>, pages: seq<seq<Drive<P>>>)
    ensures RunsStayInTier(KernelOf(g))
    ensures var r := PagesResult(KernelOf(g), Initial(4, limit), pages);
            var final := FinalState(KernelOf(g), limit, Flatten(pages));
            && (r.Success? <==> ValidPages(pages) && final.Some?)
            && (r.Success? ==> final == Some(r.value))
  {
    KernelStaysInTier(g);
    PagesSucceedExactly(KernelOf(g), Initial(4, limit), pages);
    FinalStateIsEffect(KernelOf(g), limit, Flatten(pages));
  }

  /**
    * A generation returns what is packed from the state after all pages, and fails when they do. It
    * succeeds exactly when every page is valid, all drives get through, and the payload is within its
    * bound of bytes and the drive count within 63 bits.
    */
  lemma OutcomeOfPages<P(!new)>(g: Geometry<P>, limit: Option<nat>, pages: seq<seq<Drive<P>>>)
    ensures match PagesResult(KernelOf(g), Initial(4, limit), pages)
            case Failure(_) => Outcome(g, limit, pages) == None
            case Success(s) =>
              && Publishable(s, |Flatten(pages)|) && Outcome(g, limit, pages) == Packed(s, |Flatten(pages)|)
              && (Outcome(g, limit, pages).Some?
                  <==> PayloadBytes(AllShards(s.tiers)) <= 8 * 1024 * 1024 && |Flatten(pages)| <= MAX_I64)
  {
    PagesEndInFinalState(g, limit, pages);
    StateIsPublishable(KernelOf(g), limit, Flatten(pages));
    var r := PagesResult(KernelOf(g), Initial(4, limit), pages);
    if r.Success? {
      PackingErrorsCannotFire(r.value, |Flatten(pages)|);
    }
  }

  /**
    * A visitor that hands over every page, whether or not it heeds the errors it is told. What is
    * reported is the first error of the pages in order; without one the generation goes on to packing
    * from the state after all pages.
    */
  method VisitPages<P(!new, ==)>(geometry: Geometry<P>, limit: Option<nat>, pages: seq<seq<Drive<P>>>, heeds: bool)
    returns (error: Option<Error>, consumer: PageConsumer<P>)
    ensures error == ErrorIn(PagesResult(KernelOf(geometry), Initial(4, limit), pages))
    ensures error.None? ==> PagesResult(KernelOf(geometry), Initial(4, limit), pages) == Success(consumer.Snapshot())
  {
    ghost var kernel := KernelOf(geometry);
    consumer := new PageConsumer(geometry, limit);
    ghost var start := consumer.Snapshot();
    var i := 0;
    while i < |pages|
      invariant 0 <= i <= |pages| && consumer.kernel == kernel && consumer.Faithful()
      invariant fresh(consumer) && fresh(consumer.budget)
      invariant consumer.Latched(start, pages[..i])
    {
      var told := consumer.ConsumeNext(pages[i], start, pages[..i]);
      assert pages[..i] + [pages[i]] == pages[..i + 1];
      i := i + 1;
      if told.Some? && heeds {
        break;
      }
    }
    error := consumer.firstError;
    assert i == |pages| ==> pages[..i] == pages;
    if error.Some? {
      PagesFail(kernel, start, pages, i);
    }
  }
}
