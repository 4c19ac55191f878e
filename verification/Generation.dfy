/** What a whole generation returns, and how that depends on pages, order and budget (compute/src/lib.rs). */
module Generation {
  import opened Outcomes
  import opened Rdp
  import opened PositionPage
  import opened Simplify
  import opened Ledger
  import opened Drawing
  import opened Packing
  import opened Publish
  import opened Generate
  import Sorting

  // -------------------------------------------------- states that are published

  lemma {:induction false} MarksArePlaced(events: seq<Event>, m: Mark)
    requires AllPlaced(events) && m in Total(events).marks
    ensures exists raw: RawSegment :: raw.tile == m.tile && InTier(m.tier, raw)
  {
    if events != [] {
      var init, last := events[..|events| - 1], events[|events| - 1];
      if m in Total(init).marks {
        MarksArePlaced(init, m);
      } else {
        assert m in Single(last).marks;
        assert WellPlaced(last);
        assert last.segment.tile == m.tile && InTier(m.tier, last.segment);
      }
    }
  }

  /** Stored tiles lie in their tier's zoom range and inside the grid. */
  ghost predicate TilesInTier(tiers: seq<Tier>) {
    forall t, tile :: 0 <= t < |tiers| && tile in tiers[t].weights ==> PlacedTile(t, tile)
  }

  predicate PlacedTile(t: nat, tile: TileKey) {
    t < 4 && TIERS[t].zoomMin <= tile.zoom <= TIERS[t].zoomMax && tile.x < 8192 && tile.y < 8192
  }

  lemma StoredTilesArePlaced(s: State, events: seq<Event>, limit: Option<nat>)
    requires AllPlaced(events) && Represents(s, Total(events), limit) && |s.tiers| == 4
    ensures TilesInTier(s.tiers)
  {
    forall t, tile | 0 <= t < |s.tiers| && tile in s.tiers[t].weights
      ensures PlacedTile(t, tile)
    {
      assert CompactSegments(s.tiers[t].weights[tile]);
      var key :| key in s.tiers[t].weights[tile];
      var m := Mark(t, tile, key);
      assert Weight(s.tiers, m) > 0;
      MarksArePlaced(events, m);
    }
  }

  lemma RangesAreStacked(tiers: seq<Tier>)
    requires TilesInTier(tiers)
    ensures Stacked(tiers)
  {
    forall s, t, a, b | 0 <= s < t < |tiers| && a in tiers[s].weights && b in tiers[t].weights
      ensures a.zoom < b.zoom
    {
      assert PlacedTile(s, a) && PlacedTile(t, b);
      assert TIERS[s].zoomMax < TIERS[t].zoomMin;
    }
  }

  lemma {:induction false} TaggedSize(t: nat, tiles: set<TileKey>)
    ensures |set tile | tile in tiles :: (t, tile)| == |tiles|
    decreases |tiles|
  {
    var tagged := set tile | tile in tiles :: (t, tile);
    if tiles != {} {
      var x :| x in tiles;
      TaggedSize(t, tiles - {x});
      var rest := set tile | tile in tiles - {x} :: (t, tile);
      assert tagged == rest + {(t, x)};
      assert (t, x) !in rest;
    }
  }

  ghost function Tagged(n: nat, tiles: set<TileKey>): set<(nat, TileKey)> {
    set tile | tile in tiles :: (n, tile)
  }

  lemma StoredTilesSplit(tiers: seq<Tier>, tier: Tier)
    ensures StoredTiles(tiers + [tier]) == StoredTiles(tiers) + Tagged(|tiers|, tier.weights.Keys)
    ensures StoredTiles(tiers) !! Tagged(|tiers|, tier.weights.Keys)
  {
    var n, all := |tiers|, tiers + [tier];
    assert forall t :: 0 <= t < n ==> all[t] == tiers[t];
    forall x ensures x in StoredTiles(all) <==> x in StoredTiles(tiers) || x in Tagged(n, tier.weights.Keys) {
      if x in Tagged(n, tier.weights.Keys) {
        assert all[n] == tier && x.1 in all[n].weights;
      }
    }
  }

  lemma StoredTilesStep(tiers: seq<Tier>, tier: Tier)
    ensures |StoredTiles(tiers + [tier])| == |StoredTiles(tiers)| + |tier.weights|
  {
    StoredTilesSplit(tiers, tier);
    TaggedSize(|tiers|, tier.weights.Keys);
    assert |tier.weights.Keys| == |tier.weights|;
  }

  lemma {:induction false} TileTotalCounts(tiers: seq<Tier>)
    ensures TileTotal(tiers) == |StoredTiles(tiers)|
  {
    if tiers == [] {
      assert StoredTiles(tiers) == {};
    } else {
      var init, last := tiers[..|tiers| - 1], tiers[|tiers| - 1];
      TileTotalCounts(init);
      StoredTilesStep(init, last);
      assert tiers == init + [last];
    }
  }

  /** What is known of the state after all drives. */
  ghost predicate Publishable(s: State, drives: nat) {
    && |s.tiers| == 4 && Compact(s.tiers) && TilesInTier(s.tiers) && Stacked(s.tiers)
    && s.tileCount == TileTotal(s.tiers) <= MAX_TILES
    && forall t :: 0 <= t < 4 ==> s.tiers[t].drives == drives
  }

  lemma StateIsPublishable<P(!new)>(kernel: Kernel<P>, limit: Option<nat>, drives: seq<Drive<P>>)
    requires RunsStayInTier(kernel)
    ensures ValidEvents(AllEvents(kernel, drives), 4)
    ensures ApplyAll(Initial(4, limit), AllEvents(kernel, drives)).Some? ==>
              Publishable(ApplyAll(Initial(4, limit), AllEvents(kernel, drives)).value, |drives|)
  {
    var events := AllEvents(kernel, drives);
    AllEventsPlaced(kernel, drives, 0);
    PlacedIsValid(events);
    if ApplyAll(Initial(4, limit), events).Some? {
      var s := ApplyAll(Initial(4, limit), events).value;
      EventsSucceedExactly(4, limit, events);
      BudgetCountsWhatIsStored(4, limit, events);
      StoredTilesArePlaced(s, events, limit);
      RangesAreStacked(s.tiers);
      TileTotalCounts(s.tiers);
      forall t | 0 <= t < 4
        ensures s.tiers[t].drives == |drives|
      {
        AllEventsPlaced(kernel, drives, t);
      }
    }
  }

  /**
    * After any drives, whatever the geometry: the stored tiles lie in their tiers, the tile count is
    * theirs and within its cap, and every tier has counted every drive.
    */
  lemma FinalStateIsPublishable<P(!new)>(g: Geometry<P>, limit: Option<nat>, drives: seq<Drive<P>>)
    ensures ValidEvents(AllEvents(KernelOf(g), drives), 4)
    ensures ApplyAll(Initial(4, limit), AllEvents(KernelOf(g), drives)).Some? ==>
              Publishable(ApplyAll(Initial(4, limit), AllEvents(KernelOf(g), drives)).value, |drives|)
  {
    KernelStaysInTier(g);
    StateIsPublishable(KernelOf(g), limit, drives);
  }

  lemma PublishableShards(s: State, drives: nat)
    requires Publishable(s, drives)
    ensures var shards := AllShards(s.tiers);
            && |shards| == s.tileCount <= MAX_TILES
            && Sorting.Ascending(ShardOrder, shards)
            && Sorting.Separates(ShardOrder, Elements(shards)) && SortShards(shards) == shards
            && AllAligned(shards)
            && (forall x :: x in shards ==> IsShardOf(s.tiers, x) && ConsumerAccepts(x.blob))
  {
    ShardsOfAllTiers(s.tiers);
    AscendingSeparates(AllShards(s.tiers));
    AcceptedIsAligned(AllShards(s.tiers));
  }

  /**
    * After all drives only the byte bound of the payload and the width of the drive count can still
    * fail: the drive counts agree, the tile cap holds, and no blob is empty or misaligned.
    */
  lemma PackingErrorsCannotFire(s: State, drives: nat)
    requires Publishable(s, drives)
    ensures Sorting.Separates(ShardOrder, Elements(AllShards(s.tiers)))
    ensures var r := Finish(s.tiers, s.points);
            && (r.Success? <==> PayloadBytes(AllShards(s.tiers)) <= MAX_PAYLOAD_BYTES && drives <= MAX_I64)
            && (r.Failure? ==> r.error == OverBound || r.error == CountOverflow)
            && (r == Failure(OverBound) ==> |AllShards(s.tiers)| <= MAX_TILES)
  {
    PublishableShards(s, drives);
    CollectExactly(s.tiers);
  }

  // ------------------------------------------------------------------- outcome

  function Flatten<P>(pages: seq<seq<Drive<P>>>): seq<Drive<P>> {
    if pages == [] then [] else Flatten(pages[..|pages| - 1]) + pages[|pages| - 1]
  }

  predicate ValidPages<P>(pages: seq<seq<Drive<P>>>) {
    forall i :: 0 <= i < |pages| ==> ValidTypedPage(pages[i])
  }

  /** The state in which a generation over drives ends, if it gets through. */
  ghost function FinalState<P(!new)>(kernel: Kernel<P>, limit: Option<nat>, drives: seq<Drive<P>>): Option<State>
    requires RunsStayInTier(kernel)
  {
    StateIsPublishable(kernel, limit, drives);
    ApplyAll(Initial(4, limit), AllEvents(kernel, drives))
  }

  /** What is packed from a final state; None is any error. */
  ghost function Packed(s: State, drives: nat): Option<TileOutput>
    requires Publishable(s, drives)
  {
    PackingErrorsCannotFire(s, drives);
    match Finish(s.tiers, s.points)
    case Failure(_) => None
    case Success(output) => Some(output)
  }

  /** What a generation over the given drives returns. */
  ghost function OutputOf<P(!new)>(kernel: Kernel<P>, limit: Option<nat>, drives: seq<Drive<P>>): Option<TileOutput>
    requires RunsStayInTier(kernel)
  {
    StateIsPublishable(kernel, limit, drives);
    var s :- FinalState(kernel, limit, drives);
    Packed(s, |drives|)
  }

  /** What a generation over pages returns. */
  ghost function Outcome<P(!new)>(g: Geometry<P>, limit: Option<nat>, pages: seq<seq<Drive<P>>>): Option<TileOutput> {
    KernelStaysInTier(g);
    if ValidPages(pages) then OutputOf(KernelOf(g), limit, Flatten(pages)) else None
  }

  lemma DrivesMayBeReordered<P(!new)>(kernel: Kernel<P>, limit: Option<nat>, x: seq<Drive<P>>, y: seq<Drive<P>>)
    requires RunsStayInTier(kernel) && multiset(x) == multiset(y)
    ensures OutputOf(kernel, limit, x) == OutputOf(kernel, limit, y)
  {
    assert |x| == |multiset(x)| && |y| == |multiset(y)|;
    StateIsPublishable(kernel, limit, x);
    StateIsPublishable(kernel, limit, y);
    TallyIgnoresOrder(kernel, x, y);
    OrderOfEventsIsIrrelevant(4, limit, AllEvents(kernel, x), AllEvents(kernel, y));
  }

  /**
    * Reordering or regrouping the same complete drives over admissible pages preserves the result,
    * with and without an evaluation limit.
    */
  lemma PagesMayBeRegrouped<P(!new)>(g: Geometry<P>, limit: Option<nat>, a: seq<seq<Drive<P>>>, b: seq<seq<Drive<P>>>)
    requires ValidPages(a) && ValidPages(b) && multiset(Flatten(a)) == multiset(Flatten(b))
    ensures Outcome(g, limit, a) == Outcome(g, limit, b)
  {
    KernelStaysInTier(g);
    DrivesMayBeReordered(KernelOf(g), limit, Flatten(a), Flatten(b));
  }

  /** The evaluations of all tiers, drives and pages. */
  function TotalCost<P>(kernel: Kernel<P>, drives: seq<Drive<P>>): nat {
    Total(AllEvents(kernel, drives)).cost
  }

  lemma PackedIgnoresRemaining(s: State, drives: nat, remaining: Option<nat>)
    requires Publishable(s, drives)
    ensures Publishable(s.(remaining := remaining), drives)
    ensures Packed(s.(remaining := remaining), drives) == Packed(s, drives)
  {
    PackingErrorsCannotFire(s, drives);
  }

  lemma LimitCoversDrives<P(!new)>(kernel: Kernel<P>, limit: nat, drives: seq<Drive<P>>)
    requires RunsStayInTier(kernel) && OutputOf(kernel, None, drives).Some? && TotalCost(kernel, drives) <= limit
    ensures OutputOf(kernel, Some(limit), drives) == OutputOf(kernel, None, drives)
  {
    StateIsPublishable(kernel, None, drives);
    StateIsPublishable(kernel, Some(limit), drives);
    LimitOnlyChangesRemaining(4, limit, AllEvents(kernel, drives));
    var s := FinalState(kernel, None, drives).value;
    PackedIgnoresRemaining(s, |drives|, Some(limit - TotalCost(kernel, drives)));
  }

  lemma LimitStopsDrives<P(!new)>(kernel: Kernel<P>, limit: nat, drives: seq<Drive<P>>)
    requires RunsStayInTier(kernel) && OutputOf(kernel, None, drives).Some? && TotalCost(kernel, drives) > limit
    ensures OutputOf(kernel, Some(limit), drives) == None
  {
    StateIsPublishable(kernel, None, drives);
    LimitOnlyChangesRemaining(4, limit, AllEvents(kernel, drives));
  }

  /** A limited generation succeeds, with the unlimited output, exactly when the limit covers the cost. */
  lemma LimitIsExact<P(!new)>(g: Geometry<P>, limit: nat, pages: seq<seq<Drive<P>>>)
    requires Outcome(g, None, pages).Some?
    ensures Outcome(g, Some(limit), pages)
         == if EvaluationsOf(g.metric, Flatten(pages)) <= limit then Outcome(g, None, pages) else None
  {
    KernelStaysInTier(g);
    CostIsEvaluations(g, Flatten(pages));
    if TotalCost(KernelOf(g), Flatten(pages)) <= limit {
      LimitCoversDrives(KernelOf(g), limit, Flatten(pages));
    } else {
      LimitStopsDrives(KernelOf(g), limit, Flatten(pages));
    }
  }

  lemma LimitRejectsDrives<P(!new)>(kernel: Kernel<P>, limit: nat, drives: seq<Drive<P>>)
    requires RunsStayInTier(kernel) && OutputOf(kernel, Some(limit), drives).Some?
    ensures OutputOf(kernel, None, drives).Some?
  {
    var events := AllEvents(kernel, drives);
    StateIsPublishable(kernel, None, drives);
    StateIsPublishable(kernel, Some(limit), drives);
    LimitedImpliesUnlimited(4, limit, events);
    LimitOnlyChangesRemaining(4, limit, events);
    var s := FinalState(kernel, None, drives).value;
    PackedIgnoresRemaining(s, |drives|, FinalState(kernel, Some(limit), drives).value.remaining);
  }

  /** A limit only rejects: it never turns a failing generation into a successful one. */
  lemma LimitOnlyRejects<P(!new)>(g: Geometry<P>, limit: nat, pages: seq<seq<Drive<P>>>)
    requires Outcome(g, Some(limit), pages).Some?
    ensures Outcome(g, None, pages).Some?
  {
    KernelStaysInTier(g);
    LimitRejectsDrives(KernelOf(g), limit, Flatten(pages));
  }

  lemma ShardsAreEncodable(tiers: seq<Tier>, shards: seq<Shard>)
    requires TilesInTier(tiers)
    requires forall x :: x in shards ==> IsShardOf(tiers, x) && ConsumerAccepts(x.blob)
    ensures forall i :: 0 <= i < |shards| ==> Encodable(shards[i])
  {
    forall i | 0 <= i < |shards|
      ensures Encodable(shards[i])
    {
      assert shards[i] in shards;
    }
  }

  /** What is returned says how many drives, points and tiles there were, and holds the tiles if there are any. */
  ghost predicate Reports(output: TileOutput, shards: seq<Shard>, drives: nat, points: nat) {
    && output.driveCount == drives
    && output.diagnostics == Diagnostics(1, drives, points, |shards|)
    && (output.ReadyEmpty? <==> shards == [])
    && (output.ReadyData? ==> output.tileCount == |shards| && DecodePayload(output.payload) == Some(shards))
  }

  lemma FinishedPayload(s: State, drives: nat)
    requires Publishable(s, drives)
    ensures Sorting.Separates(ShardOrder, Elements(AllShards(s.tiers)))
    ensures var r := Finish(s.tiers, s.points);
            r.Success? ==> Reports(r.value, AllShards(s.tiers), drives, s.points)
  {
    PublishableShards(s, drives);
    CollectExactly(s.tiers);
    var shards := AllShards(s.tiers);
    ShardsAreEncodable(s.tiers, shards);
    if EncodePayload(shards).Some? {
      PayloadDecodes(shards);
    }
  }

  lemma PublishedDrives<P(!new)>(kernel: Kernel<P>, limit: Option<nat>, drives: seq<Drive<P>>)
    requires RunsStayInTier(kernel) && OutputOf(kernel, limit, drives).Some?
    ensures var s := FinalState(kernel, limit, drives).value;
            && s.points == PointsOf(drives)
            && Reports(OutputOf(kernel, limit, drives).value, AllShards(s.tiers), |drives|, s.points)
            && ShardsAreSound(s.tiers)
  {
    StateIsPublishable(kernel, limit, drives);
    var s := FinalState(kernel, limit, drives).value;
    PublishableShards(s, |drives|);
    FinishedPayload(s, |drives|);
    EventsSucceedExactly(4, limit, AllEvents(kernel, drives));
    AllEventsPlaced(kernel, drives, 0);
  }

  /** The shards of the stored tiles strictly ascend, within the cap, each acceptable to the consumer. */
  ghost predicate ShardsAreSound(tiers: seq<Tier>) {
    && |AllShards(tiers)| <= MAX_TILES
    && Sorting.Ascending(ShardOrder, AllShards(tiers))
    && forall x :: x in AllShards(tiers) ==> IsShardOf(tiers, x) && ConsumerAccepts(x.blob)
  }

  /**
    * Every output reports its drives, points and tiles, and its payload decodes to the shards of the
    * stored tiles, strictly ascending, each acceptable to the consumer.
    */
  lemma PublishedPayload<P(!new)>(g: Geometry<P>, limit: Option<nat>, pages: seq<seq<Drive<P>>>)
    requires Outcome(g, limit, pages).Some?
    ensures RunsStayInTier(KernelOf(g)) && FinalState(KernelOf(g), limit, Flatten(pages)).Some?
    ensures var drives, tiers := Flatten(pages), FinalState(KernelOf(g), limit, Flatten(pages)).value.tiers;
            && Reports(Outcome(g, limit, pages).value, AllShards(tiers), |drives|, PointsOf(drives))
            && ShardsAreSound(tiers)
  {
    KernelStaysInTier(g);
    PublishedDrives(KernelOf(g), limit, Flatten(pages));
  }

  // ------------------------------------------------------- what is stored and why

  /** A drive has a valid run whose simplification, drawn for a tier, contains a segment. */
  ghost predicate DrawnFrom<P>(g: Geometry<P>, t: nat, drive: Drive<P>, raw: RawSegment)
    requires t < 4
  {
    exists run <- Runs(drive.points, g.metric.valid) ::
      raw in Drawn(g, TIERS[t], Simplified(run, g.metric, TIERS[t]))
  }

  lemma EmittedByRun<P>(g: Geometry<P>, t: nat, u: nat, run: seq<P>, raw: RawSegment)
    requires t < 4 && u < 4 && Emit(u, raw) in RunEvents(g, t, run)
    ensures u == t && raw in Drawn(g, TIERS[t], Simplified(run, g.metric, TIERS[t]))
  {
    var segments := Drawn(g, TIERS[t], Simplified(run, g.metric, TIERS[t]));
    var i :| 0 <= i < |RunEvents(g, t, run)| && RunEvents(g, t, run)[i] == Emit(u, raw);
    assert EmitAll(t, segments)[i - 1] == Emit(t, segments[i - 1]);
  }

  lemma {:induction false} EmittedByRuns<P>(g: Geometry<P>, t: nat, u: nat, runs: seq<seq<P>>, raw: RawSegment)
    returns (run: seq<P>)
    requires t < 4 && u < 4 && Emit(u, raw) in RunsEvents(KernelOf(g), t, runs)
    ensures u == t && run in runs && raw in Drawn(g, TIERS[t], Simplified(run, g.metric, TIERS[t]))
  {
    var init, last := runs[..|runs| - 1], runs[|runs| - 1];
    run := last;
    if Emit(u, raw) in RunsEvents(KernelOf(g), t, init) {
      run := EmittedByRuns(g, t, u, init, raw);
    } else {
      EmittedByRun(g, t, u, last, raw);
    }
  }

  lemma {:induction false} EmittedByTiers<P>(g: Geometry<P>, tiers: nat, u: nat, drive: Drive<P>, raw: RawSegment)
    requires tiers <= 4 && u < 4 && Emit(u, raw) in TiersEvents(KernelOf(g), tiers, drive.points)
    ensures DrawnFrom(g, u, drive, raw)
  {
    if Emit(u, raw) in TiersEvents(KernelOf(g), tiers - 1, drive.points) {
      EmittedByTiers(g, tiers - 1, u, drive, raw);
    } else {
      var run := EmittedByRuns(g, tiers - 1, u, Runs(drive.points, g.metric.valid), raw);
    }
  }

  lemma {:induction false} EmittedByDrives<P>(g: Geometry<P>, u: nat, drives: seq<Drive<P>>, raw: RawSegment)
    requires u < 4 && Emit(u, raw) in AllEvents(KernelOf(g), drives)
    ensures exists drive <- drives :: DrawnFrom(g, u, drive, raw)
  {
    var init, last := drives[..|drives| - 1], drives[|drives| - 1];
    if Emit(u, raw) in AllEvents(KernelOf(g), init) {
      EmittedByDrives(g, u, init, raw);
      var drive :| drive in init && DrawnFrom(g, u, drive, raw);
      assert drive in drives;
    } else {
      EmittedByTiers(g, |TIERS|, u, last, raw);
      assert last in drives;
    }
  }

  lemma EmittedIsInTier<P(!new)>(g: Geometry<P>, drives: seq<Drive<P>>, u: nat, raw: RawSegment)
    requires Emit(u, raw) in AllEvents(KernelOf(g), drives)
    ensures u < 4
  {
    KernelStaysInTier(g);
    AllEventsPlaced(KernelOf(g), drives, 0);
    var events := AllEvents(KernelOf(g), drives);
    var i :| 0 <= i < |events| && events[i] == Emit(u, raw);
    assert WellPlaced(events[i]);
  }

  /** A segment that was emitted was drawn from a drive. */
  lemma EmittedWasDrawn<P(!new)>(g: Geometry<P>, drives: seq<Drive<P>>, u: nat, raw: RawSegment)
    requires Emit(u, raw) in AllEvents(KernelOf(g), drives)
    ensures u < 4 && exists drive <- drives :: DrawnFrom(g, u, drive, raw)
  {
    EmittedIsInTier(g, drives, u, raw);
    EmittedByDrives(g, u, drives, raw);
  }

  /**
    * Every stored segment was drawn: its coordinates are those of a segment of its tile and tier in the
    * drawing of a valid run of one of the drives, and it weighs as often as that was emitted.
    */
  lemma StoredWasDrawn<P(!new)>(g: Geometry<P>, limit: Option<nat>, drives: seq<Drive<P>>, m: Mark)
    requires RunsStayInTier(KernelOf(g)) && FinalState(KernelOf(g), limit, drives).Some?
    ensures var weight := Weight(FinalState(KernelOf(g), limit, drives).value.tiers, m);
            && weight == multiset(AllEvents(KernelOf(g), drives))[Emitted(m)]
            && (weight > 0 ==> m.tier < 4 && exists drive <- drives :: DrawnFrom(g, m.tier, drive, Emitted(m).segment))
  {
    var events := AllEvents(KernelOf(g), drives);
    StateIsPublishable(KernelOf(g), limit, drives);
    WeightsCountSegments(4, limit, events, m);
    if multiset(events)[Emitted(m)] > 0 {
      assert Emitted(m) in events;
      EmittedWasDrawn(g, drives, m.tier, Emitted(m).segment);
    }
  }
}
