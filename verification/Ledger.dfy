/**
  * The bounded accumulation state of one generation (compute/src/lib.rs): weighted unique segments
  * of the LOD tiers, the shared weight budget, the RDP budget and the counters.
  */
module Ledger {
  import opened Outcomes
  import opened Rdp
  import Wire

  const MAX_TILES: nat := 4096
  const MAX_ENTRIES: nat := 1_048_576
  const MAX_U64: nat := 0xFFFF_FFFF_FFFF_FFFF
  const MAX_I64: nat := 0x7FFF_FFFF_FFFF_FFFF

  type I16 = Wire.I16

  datatype TileKey = TileKey(zoom: nat, x: nat, y: nat)
  datatype SegmentKey = SegmentKey(x1: I16, y1: I16, x2: I16, y2: I16)

  /** A rounded segment in tile pixels, before the check that it fits 16 bits. */
  datatype RawSegment = RawSegment(tile: TileKey, x1: int, y1: int, x2: int, y2: int)

  type SegmentWeights = map<SegmentKey, nat>
  type TierWeights = map<TileKey, SegmentWeights>

  datatype Tier = Tier(weights: TierWeights, drives: nat)

  datatype State = State(tiers: seq<Tier>, used: nat, tileCount: nat, remaining: Option<nat>, points: nat)

  predicate FitsI16(v: int) {
    -32768 <= v < 32768
  }

  function KeyOf(raw: RawSegment): Option<SegmentKey> {
    if FitsI16(raw.x1) && FitsI16(raw.y1) && FitsI16(raw.x2) && FitsI16(raw.y2)
    then Some(SegmentKey(raw.x1, raw.y1, raw.x2, raw.y2))
    else None
  }

  // --------------------------------------------------- what a generation does

  /** The effects of processing drives, in the order in which they happen. */
  datatype Event =
    | Points(count: nat)
    | Evaluate(cost: nat)
    | Emit(tier: nat, segment: RawSegment)
    | Complete(tier: nat)

  function SetWeights(s: State, t: nat, tile: TileKey, segments: SegmentWeights): State
    requires t < |s.tiers|
  {
    s.(tiers := s.tiers[t := s.tiers[t].(weights := s.tiers[t].weights[tile := segments])])
  }

  /** Adds one segment; None is any of the admission errors, which leave the state as it is. */
  function Merge(s: State, t: nat, raw: RawSegment): Option<State>
    requires t < |s.tiers|
  {
    var key :- KeyOf(raw);
    var weights := s.tiers[t].weights;
    if raw.tile !in weights then
      if s.tileCount >= MAX_TILES || s.used >= MAX_ENTRIES then None
      else Some(SetWeights(s, t, raw.tile, map[key := 1]).(used := s.used + 1, tileCount := s.tileCount + 1))
    else
      var segments := weights[raw.tile];
      if key !in segments then
        if |segments| >= MAX_ENTRIES || s.used >= MAX_ENTRIES then None
        else Some(SetWeights(s, t, raw.tile, segments[key := 1]).(used := s.used + 1))
      else if segments[key] >= MAX_U64 then None
      else Some(SetWeights(s, t, raw.tile, segments[key := segments[key] + 1]))
  }

  predicate ValidEvent(e: Event, tiers: nat) {
    match e
    case Emit(t, _) => t < tiers
    case Complete(t) => t < tiers
    case _ => true
  }

  predicate ValidEvents(events: seq<Event>, tiers: nat) {
    forall i :: 0 <= i < |events| ==> ValidEvent(events[i], tiers)
  }

  function Apply(s: State, e: Event): Option<State>
    requires ValidEvent(e, |s.tiers|)
  {
    match e
    case Points(n) => if s.points + n > MAX_I64 then None else Some(s.(points := s.points + n))
    case Evaluate(cost) =>
      if Affords(s.remaining, cost) then Some(s.(remaining := Spend(s.remaining, cost))) else None
    case Emit(t, raw) => Merge(s, t, raw)
    case Complete(t) =>
      if s.tiers[t].drives >= MAX_U64 then None
      else Some(s.(tiers := s.tiers[t := s.tiers[t].(drives := s.tiers[t].drives + 1)]))
  }

  lemma ApplyKeepsTiers(s: State, e: Event)
    requires ValidEvent(e, |s.tiers|)
    ensures Apply(s, e).Some? ==> |Apply(s, e).value.tiers| == |s.tiers|
  {
  }

  function ApplyAll(s: State, events: seq<Event>): (r: Option<State>)
    requires ValidEvents(events, |s.tiers|)
    ensures r.Some? ==> |r.value.tiers| == |s.tiers|
  {
    if events == [] then Some(s)
    else
      var before :- ApplyAll(s, events[..|events| - 1]);
      ApplyKeepsTiers(before, events[|events| - 1]);
      Apply(before, events[|events| - 1])
  }

  /** Events in two batches; the second starts from what the first leaves. */
  lemma {:induction false} ApplyAllConcat(s: State, a: seq<Event>, b: seq<Event>)
    requires ValidEvents(a, |s.tiers|) && ValidEvents(b, |s.tiers|)
    ensures ValidEvents(a + b, |s.tiers|)
    ensures ApplyAll(s, a + b) == match ApplyAll(s, a)
                                  case None => None
                                  case Some(r) => ApplyAll(r, b)
    decreases |b|
  {
    if b == [] {
      assert a + b == a;
    } else {
      var init, last := b[..|b| - 1], b[|b| - 1];
      ApplyAllConcat(s, a, init);
      assert (a + b)[..|a + b| - 1] == a + init;
      assert (a + b)[|a + b| - 1] == last;
    }
  }

  function Initial(tiers: nat, limit: Option<nat>): State {
    State(seq(tiers, _ => Tier(map[], 0)), 0, 0, limit, 0)
  }

  // -------------------------------------------------------- order-free tally

  /** One accumulated segment. */
  datatype Mark = Mark(tier: nat, tile: TileKey, segment: SegmentKey)

  /** What the events amount to, regardless of their order and of any cap. */
  datatype Tally = Tally(marks: multiset<Mark>, bad: nat, cost: nat, completed: multiset<nat>, points: nat)

  const NOTHING: Tally := Tally(multiset{}, 0, 0, multiset{}, 0)

  function Plus(a: Tally, b: Tally): Tally {
    Tally(a.marks + b.marks, a.bad + b.bad, a.cost + b.cost, a.completed + b.completed, a.points + b.points)
  }

  function Single(e: Event): Tally {
    match e
    case Points(n) => NOTHING.(points := n)
    case Evaluate(cost) => NOTHING.(cost := cost)
    case Emit(t, raw) =>
      (match KeyOf(raw)
       case None => NOTHING.(bad := 1)
       case Some(key) => NOTHING.(marks := multiset{Mark(t, raw.tile, key)}))
    case Complete(t) => NOTHING.(completed := multiset{t})
  }

  function Total(events: seq<Event>): Tally {
    if events == [] then NOTHING
    else Plus(Total(events[..|events| - 1]), Single(events[|events| - 1]))
  }

  lemma PlusLaws(a: Tally, b: Tally, c: Tally)
    ensures Plus(a, Plus(b, c)) == Plus(Plus(a, b), c)
    ensures Plus(a, b) == Plus(b, a)
    ensures Plus(a, NOTHING) == a
  {
  }

  lemma TotalSnoc(events: seq<Event>, e: Event)
    ensures Total(events + [e]) == Plus(Total(events), Single(e))
  {
    assert (events + [e])[..|events|] == events;
  }

  lemma {:induction false} TotalConcat(a: seq<Event>, b: seq<Event>)
    ensures Total(a + b) == Plus(Total(a), Total(b))
  {
    if b == [] {
      assert a + b == a;
    } else {
      var init, last := b[..|b| - 1], b[|b| - 1];
      calc {
        Total(a + b);
        { assert a + b == (a + init) + [last]; TotalSnoc(a + init, last); }
        Plus(Total(a + init), Single(last));
        { TotalConcat(a, init); }
        Plus(Plus(Total(a), Total(init)), Single(last));
        { PlusLaws(Total(a), Total(init), Single(last)); }
        Plus(Total(a), Plus(Total(init), Single(last)));
        { assert b == init + [last]; TotalSnoc(init, last); }
        Plus(Total(a), Total(b));
      }
    }
  }

  /** The segment of a mark as it was emitted. */
  function Emitted(m: Mark): Event {
    Emit(m.tier, RawSegment(m.tile, m.segment.x1, m.segment.y1, m.segment.x2, m.segment.y2))
  }

  predicate InRange(raw: RawSegment) {
    && -0x8000 <= raw.x1 < 0x8000 && -0x8000 <= raw.y1 < 0x8000
    && -0x8000 <= raw.x2 < 0x8000 && -0x8000 <= raw.y2 < 0x8000
  }

  lemma SingleIsCounted(e: Event, m: Mark, t: nat)
    ensures Single(e).marks[m] == multiset{e}[Emitted(m)] && Single(e).completed[t] == multiset{e}[Complete(t)]
    ensures Single(e).bad == 0 <==> Fits(e)
  {
  }

  lemma CountsSnoc(events: seq<Event>, e: Event, m: Mark, t: nat)
    ensures Total(events + [e]).marks[m] == Total(events).marks[m] + multiset{e}[Emitted(m)]
    ensures Total(events + [e]).completed[t] == Total(events).completed[t] + multiset{e}[Complete(t)]
    ensures Total(events + [e]).bad == 0 <==> Total(events).bad == 0 && Fits(e)
  {
    TotalSnoc(events, e);
    SingleIsCounted(e, m, t);
  }

  /** The totals count the events: each mark as often as it was emitted, each tier as often as it was completed. */
  lemma {:induction false} TotalCounts(events: seq<Event>, m: Mark, t: nat)
    ensures Total(events).marks[m] == multiset(events)[Emitted(m)]
    ensures Total(events).completed[t] == multiset(events)[Complete(t)]
  {
    if events != [] {
      var init, last := events[..|events| - 1], events[|events| - 1];
      TotalCounts(init, m, t);
      CountsSnoc(init, last, m, t);
      assert events == init + [last];
    }
  }

  predicate AllInRange(events: seq<Event>) {
    forall i :: 0 <= i < |events| ==> Fits(events[i])
  }

  predicate Fits(e: Event) {
    e.Emit? ==> InRange(e.segment)
  }

  lemma AllInRangeSnoc(events: seq<Event>, e: Event)
    ensures AllInRange(events + [e]) <==> AllInRange(events) && Fits(e)
  {
    var all := events + [e];
    assert all[|events|] == e && forall i :: 0 <= i < |events| ==> all[i] == events[i];
  }

  /** Nothing is bad exactly when all coordinates fit 16 bits. */
  lemma {:induction false} BadExactly(events: seq<Event>)
    ensures Total(events).bad == 0 <==> AllInRange(events)
  {
    if events != [] {
      var init, last := events[..|events| - 1], events[|events| - 1];
      BadExactly(init);
      CountsSnoc(init, last, Mark(0, TileKey(0, 0, 0), SegmentKey(0, 0, 0, 0)), 0);
      AllInRangeSnoc(init, last);
      assert events == init + [last];
    }
  }

  /** A stored segment weighs as much as its tile and coordinates were emitted. */
  lemma WeightsCountSegments(tiers: nat, limit: Option<nat>, events: seq<Event>, m: Mark)
    requires ValidEvents(events, tiers) && ApplyAll(Initial(tiers, limit), events).Some?
    ensures Weight(ApplyAll(Initial(tiers, limit), events).value.tiers, m) == multiset(events)[Emitted(m)]
  {
    EventsSucceedExactly(tiers, limit, events);
    TotalCounts(events, m, 0);
  }

  ghost function Entries(marks: multiset<Mark>): set<Mark> {
    set m | m in marks
  }

  ghost function Tiles(marks: multiset<Mark>): set<(nat, TileKey)> {
    set m | m in marks :: (m.tier, m.tile)
  }

  /** The caps, stated on the tally alone. */
  ghost predicate Admissible(a: Tally, limit: Option<nat>) {
    && a.bad == 0
    && |Entries(a.marks)| <= MAX_ENTRIES
    && |Tiles(a.marks)| <= MAX_TILES
    && (forall m :: m in a.marks ==> a.marks[m] <= MAX_U64)
    && Affords(limit, a.cost)
    && (forall t :: t in a.completed ==> a.completed[t] <= MAX_U64)
    && a.points <= MAX_I64
  }

  // ------------------------------------------------- what the state represents

  function Get(segments: SegmentWeights, key: SegmentKey): nat {
    if key in segments then segments[key] else 0
  }

  function SegmentsOf(tiers: seq<Tier>, t: nat, tile: TileKey): SegmentWeights {
    if t < |tiers| && tile in tiers[t].weights then tiers[t].weights[tile] else map[]
  }

  /** The accumulated weight of a segment; absent segments weigh nothing. */
  function Weight(tiers: seq<Tier>, m: Mark): nat {
    Get(SegmentsOf(tiers, m.tier, m.tile), m.segment)
  }

  /** Nothing of weight zero and no tile without segments is stored. */
  ghost predicate Compact(tiers: seq<Tier>) {
    forall t, tile :: 0 <= t < |tiers| && tile in tiers[t].weights ==> CompactSegments(tiers[t].weights[tile])
  }

  ghost predicate CompactSegments(segments: SegmentWeights) {
    segments != map[] && forall key :: key in segments ==> segments[key] > 0
  }

  /** The state is the one that the tally determines. */
  ghost predicate Represents(s: State, a: Tally, limit: Option<nat>) {
    && Compact(s.tiers)
    && (forall m :: Weight(s.tiers, m) == a.marks[m])
    && s.used == |Entries(a.marks)| && s.tileCount == |Tiles(a.marks)|
    && (forall t :: 0 <= t < |s.tiers| ==> s.tiers[t].drives == a.completed[t])
    && s.points == a.points
    && Affords(limit, a.cost) && s.remaining == Spend(limit, a.cost)
  }

  lemma EntriesAdd(marks: multiset<Mark>, m: Mark)
    ensures Entries(marks) <= Entries(marks + multiset{m})
    ensures |Entries(marks + multiset{m})| == |Entries(marks)| + if m in marks then 0 else 1
  {
    assert Entries(marks + multiset{m}) == Entries(marks) + {m};
    if m in marks {
      assert Entries(marks) + {m} == Entries(marks);
    }
  }

  lemma TilesAdd(marks: multiset<Mark>, m: Mark)
    ensures |Tiles(marks + multiset{m})| == |Tiles(marks)| + if (m.tier, m.tile) in Tiles(marks) then 0 else 1
  {
    forall x
      ensures x in Tiles(marks + multiset{m}) <==> x in Tiles(marks) + {(m.tier, m.tile)}
    {
      if x in Tiles(marks) {
        var k :| k in marks && (k.tier, k.tile) == x;
        assert k in marks + multiset{m};
      } else if x == (m.tier, m.tile) {
        assert m in marks + multiset{m};
      }
    }
    assert Tiles(marks + multiset{m}) == Tiles(marks) + {(m.tier, m.tile)};
    if (m.tier, m.tile) in Tiles(marks) {
      assert Tiles(marks) + {(m.tier, m.tile)} == Tiles(marks);
    }
  }

  lemma TileIsKnown(s: State, a: Tally, limit: Option<nat>, t: nat, tile: TileKey)
    requires Represents(s, a, limit) && t < |s.tiers|
    ensures tile in s.tiers[t].weights <==> (t, tile) in Tiles(a.marks)
  {
    if tile in s.tiers[t].weights {
      assert CompactSegments(s.tiers[t].weights[tile]);
      var key :| key in s.tiers[t].weights[tile];
      assert Weight(s.tiers, Mark(t, tile, key)) > 0;
      assert Mark(t, tile, key) in a.marks;
    }
    if (t, tile) in Tiles(a.marks) {
      var m :| m in a.marks && (m.tier, m.tile) == (t, tile);
      assert Weight(s.tiers, m) > 0;
    }
  }

  lemma {:induction false} KeysAreEntries(t: nat, tile: TileKey, keys: set<SegmentKey>, entries: set<Mark>)
    requires forall key :: key in keys ==> Mark(t, tile, key) in entries
    ensures |keys| <= |entries|
    decreases |keys|
  {
    if keys != {} {
      var key :| key in keys;
      KeysAreEntries(t, tile, keys - {key}, entries - {Mark(t, tile, key)});
    }
  }

  /** One tile never holds more segments than the budget counts, so its own cap cannot bind first. */
  lemma TileWithinBudget(s: State, a: Tally, limit: Option<nat>, t: nat, tile: TileKey)
    requires Represents(s, a, limit)
    ensures |SegmentsOf(s.tiers, t, tile)| <= s.used
  {
    var segments := SegmentsOf(s.tiers, t, tile);
    forall key | key in segments
      ensures Mark(t, tile, key) in Entries(a.marks)
    {
      assert CompactSegments(segments);
      assert Weight(s.tiers, Mark(t, tile, key)) > 0;
    }
    KeysAreEntries(t, tile, segments.Keys, Entries(a.marks));
  }

  lemma WeightAfterSet(s: State, t: nat, tile: TileKey, segments: SegmentWeights, m: Mark)
    requires t < |s.tiers|
    ensures Weight(SetWeights(s, t, tile, segments).tiers, m)
         == if m.tier == t && m.tile == tile then Get(segments, m.segment) else Weight(s.tiers, m)
  {
  }

  lemma CompactAfterSet(s: State, t: nat, tile: TileKey, segments: SegmentWeights)
    requires t < |s.tiers| && Compact(s.tiers) && CompactSegments(segments)
    ensures Compact(SetWeights(s, t, tile, segments).tiers)
  {
  }

  /** Counting one segment up changes one weight. */
  lemma CountUp(s: State, marks: multiset<Mark>, t: nat, tile: TileKey, key: SegmentKey)
    requires t < |s.tiers| && Compact(s.tiers) && forall m :: Weight(s.tiers, m) == marks[m]
    ensures var segments := SegmentsOf(s.tiers, t, tile);
            var tiers' := SetWeights(s, t, tile, segments[key := Get(segments, key) + 1]).tiers;
            Compact(tiers') && forall m :: Weight(tiers', m) == (marks + multiset{Mark(t, tile, key)})[m]
  {
    var segments := SegmentsOf(s.tiers, t, tile);
    var grown := segments[key := Get(segments, key) + 1];
    assert segments != map[] ==> CompactSegments(segments);
    CompactAfterSet(s, t, tile, grown);
    forall m
      ensures Weight(SetWeights(s, t, tile, grown).tiers, m) == (marks + multiset{Mark(t, tile, key)})[m]
    {
      WeightAfterSet(s, t, tile, grown, m);
    }
  }

  // ----------------------------------------------- each event keeps the meaning

  /** Why a segment is rejected: a new tile or entry over a cap, or a weight that cannot grow. */
  predicate Rejects(s: State, t: nat, tile: TileKey, key: SegmentKey)
    requires t < |s.tiers|
  {
    var segments := SegmentsOf(s.tiers, t, tile);
    if tile !in s.tiers[t].weights then s.tileCount >= MAX_TILES || s.used >= MAX_ENTRIES
    else if key !in segments then |segments| >= MAX_ENTRIES || s.used >= MAX_ENTRIES
    else segments[key] >= MAX_U64
  }

  lemma RejectedIsInadmissible(s: State, a: Tally, limit: Option<nat>, m: Mark)
    requires Represents(s, a, limit) && m.tier < |s.tiers| && Rejects(s, m.tier, m.tile, m.segment)
    ensures !Admissible(a.(marks := a.marks + multiset{m}), limit)
  {
    var marks := a.marks + multiset{m};
    EntriesAdd(a.marks, m);
    TilesAdd(a.marks, m);
    TileIsKnown(s, a, limit, m.tier, m.tile);
    TileWithinBudget(s, a, limit, m.tier, m.tile);
    assert Weight(s.tiers, m) == a.marks[m];
    assert m in marks && marks[m] == a.marks[m] + 1;
  }

  lemma MergeFailure(s: State, a: Tally, limit: Option<nat>, t: nat, raw: RawSegment)
    requires Represents(s, a, limit) && t < |s.tiers|
    requires Merge(s, t, raw).None?
    ensures !Admissible(Plus(a, Single(Emit(t, raw))), limit)
  {
    if KeyOf(raw).Some? {
      PlusEmit(a, t, raw);
      RejectedIsInadmissible(s, a, limit, Mark(t, raw.tile, KeyOf(raw).value));
    }
  }

  lemma PlusEmit(a: Tally, t: nat, raw: RawSegment)
    requires KeyOf(raw).Some?
    ensures Plus(a, Single(Emit(t, raw))) == a.(marks := a.marks + multiset{Mark(t, raw.tile, KeyOf(raw).value)})
  {
    assert a.completed + multiset{} == a.completed;
  }

  lemma GrownIsRepresented(s: State, a: Tally, limit: Option<nat>, m: Mark, r: State)
    requires Represents(s, a, limit) && m.tier < |s.tiers|
    requires var segments := SegmentsOf(s.tiers, m.tier, m.tile);
             var marks := a.marks + multiset{m};
             r == SetWeights(s, m.tier, m.tile, segments[m.segment := Get(segments, m.segment) + 1])
                  .(used := |Entries(marks)|, tileCount := |Tiles(marks)|)
    ensures Represents(r, a.(marks := a.marks + multiset{m}), limit)
  {
    CountUp(s, a.marks, m.tier, m.tile, m.segment);
  }

  lemma MergeSuccess(s: State, a: Tally, limit: Option<nat>, t: nat, raw: RawSegment)
    requires Represents(s, a, limit) && t < |s.tiers|
    requires Merge(s, t, raw).Some?
    ensures Represents(Merge(s, t, raw).value, Plus(a, Single(Emit(t, raw))), limit)
  {
    MergeCountsUp(s, t, raw);
    MergeReserves(s, a, limit, t, raw);
    GrownIsRepresented(s, a, limit, Mark(t, raw.tile, KeyOf(raw).value), Merge(s, t, raw).value);
    PlusEmit(a, t, raw);
  }

  lemma MergeReserves(s: State, a: Tally, limit: Option<nat>, t: nat, raw: RawSegment)
    requires Represents(s, a, limit) && t < |s.tiers|
    requires Merge(s, t, raw).Some?
    ensures var r := Merge(s, t, raw).value;
            var marks := a.marks + multiset{Mark(t, raw.tile, KeyOf(raw).value)};
            r.used == |Entries(marks)| && r.tileCount == |Tiles(marks)|
  {
    var m := Mark(t, raw.tile, KeyOf(raw).value);
    MergeCountsUp(s, t, raw);
    EntriesAdd(a.marks, m);
    TilesAdd(a.marks, m);
    TileIsKnown(s, a, limit, t, raw.tile);
    EntryIsKnown(s, a, limit, m);
  }

  lemma EntryIsKnown(s: State, a: Tally, limit: Option<nat>, m: Mark)
    requires Represents(s, a, limit)
    ensures m.segment in SegmentsOf(s.tiers, m.tier, m.tile) <==> m in a.marks
  {
    assert Weight(s.tiers, m) == a.marks[m];
    var segments := SegmentsOf(s.tiers, m.tier, m.tile);
    assert segments != map[] ==> CompactSegments(segments);
  }

  /** Every accepted merge raises one weight by one and reserves for what is new. */
  lemma MergeCountsUp(s: State, t: nat, raw: RawSegment)
    requires t < |s.tiers| && Merge(s, t, raw).Some?
    ensures var key := KeyOf(raw).value;
            var segments := SegmentsOf(s.tiers, t, raw.tile);
            var grown := SetWeights(s, t, raw.tile, segments[key := Get(segments, key) + 1]);
            var newTile := if raw.tile in s.tiers[t].weights then 0 else 1;
            Merge(s, t, raw).value
            == grown.(used := s.used + (if key in segments then 0 else 1), tileCount := s.tileCount + newTile)
  {
  }

  lemma CompletedIsRepresented(s: State, a: Tally, limit: Option<nat>, t: nat)
    requires Represents(s, a, limit) && t < |s.tiers|
    ensures Represents(s.(tiers := s.tiers[t := s.tiers[t].(drives := s.tiers[t].drives + 1)]),
                       a.(completed := a.completed + multiset{t}), limit)
  {
    WeightsIgnoreDrives(s.tiers, t, s.tiers[t].drives + 1);
  }

  lemma ApplyComplete(s: State, a: Tally, limit: Option<nat>, t: nat)
    requires Represents(s, a, limit) && t < |s.tiers|
    ensures Apply(s, Complete(t)).None? ==> !Admissible(a.(completed := a.completed + multiset{t}), limit)
    ensures Apply(s, Complete(t)).Some? ==>
              Represents(Apply(s, Complete(t)).value, a.(completed := a.completed + multiset{t}), limit)
  {
    if s.tiers[t].drives >= MAX_U64 {
      var completed := a.completed + multiset{t};
      assert t in completed && completed[t] == a.completed[t] + 1;
    } else {
      CompletedIsRepresented(s, a, limit, t);
    }
  }

  lemma ApplyNumber(s: State, a: Tally, limit: Option<nat>, e: Event)
    requires Represents(s, a, limit) && (e.Points? || e.Evaluate?)
    ensures var b := if e.Points? then a.(points := a.points + e.count) else a.(cost := a.cost + e.cost);
            && (Apply(s, e).None? ==> !Admissible(b, limit))
            && (Apply(s, e).Some? ==> Represents(Apply(s, e).value, b, limit))
  {
  }

  lemma ApplyOther(s: State, a: Tally, limit: Option<nat>, e: Event)
    requires Represents(s, a, limit) && ValidEvent(e, |s.tiers|) && !e.Emit?
    ensures Apply(s, e).None? ==> !Admissible(Plus(a, Single(e)), limit)
    ensures Apply(s, e).Some? ==> Represents(Apply(s, e).value, Plus(a, Single(e)), limit)
  {
    PlusOther(a, e);
    if e.Complete? {
      ApplyComplete(s, a, limit, e.tier);
    } else {
      ApplyNumber(s, a, limit, e);
    }
  }

  lemma PlusOther(a: Tally, e: Event)
    requires !e.Emit?
    ensures Plus(a, Single(e)) == match e
                                  case Points(n) => a.(points := a.points + n)
                                  case Evaluate(cost) => a.(cost := a.cost + cost)
                                  case Complete(t) => a.(completed := a.completed + multiset{t})
  {
    assert a.marks + multiset{} == a.marks && a.completed + multiset{} == a.completed;
  }

  lemma WeightsIgnoreDrives(tiers: seq<Tier>, t: nat, drives: nat)
    requires t < |tiers|
    ensures var tiers' := tiers[t := tiers[t].(drives := drives)];
            (Compact(tiers) ==> Compact(tiers')) && forall m :: Weight(tiers', m) == Weight(tiers, m)
  {
  }

  lemma ApplyExact(s: State, a: Tally, limit: Option<nat>, e: Event)
    requires Represents(s, a, limit) && ValidEvent(e, |s.tiers|)
    ensures Apply(s, e).None? ==> !Admissible(Plus(a, Single(e)), limit)
    ensures Apply(s, e).Some? ==> Represents(Apply(s, e).value, Plus(a, Single(e)), limit)
  {
    if e.Emit? {
      if Apply(s, e).None? {
        MergeFailure(s, a, limit, e.tier, e.segment);
      } else {
        MergeSuccess(s, a, limit, e.tier, e.segment);
      }
    } else {
      ApplyOther(s, a, limit, e);
    }
  }

  // ------------------------------------------------------------- monotonicity

  lemma {:induction false} SubsetSize<T>(a: set<T>, b: set<T>)
    requires a <= b
    ensures |a| <= |b|
    decreases |a|
  {
    if a != {} {
      var x :| x in a;
      SubsetSize(a - {x}, b - {x});
    }
  }

  lemma MoreMarks(a: multiset<Mark>, b: multiset<Mark>)
    ensures |Entries(a)| <= |Entries(a + b)|
    ensures |Tiles(a)| <= |Tiles(a + b)|
  {
    SubsetSize(Entries(a), Entries(a + b));
    forall x | x in Tiles(a)
      ensures x in Tiles(a + b)
    {
      var m :| m in a && (m.tier, m.tile) == x;
      assert m in a + b;
    }
    SubsetSize(Tiles(a), Tiles(a + b));
  }

  /** What more input adds can only break a cap, never repair one. */
  lemma AdmissibleIsDownward(a: Tally, b: Tally, limit: Option<nat>)
    requires Admissible(Plus(a, b), limit)
    ensures Admissible(a, limit)
  {
    MoreMarks(a.marks, b.marks);
    var sum := Plus(a, b);
    forall m | m in a.marks
      ensures a.marks[m] <= MAX_U64
    {
      assert m in sum.marks && a.marks[m] <= sum.marks[m];
    }
    forall t | t in a.completed
      ensures a.completed[t] <= MAX_U64
    {
      assert t in sum.completed && a.completed[t] <= sum.completed[t];
    }
  }

  lemma AcceptedEmitFits(s: State, a: Tally, limit: Option<nat>, t: nat, raw: RawSegment)
    requires Represents(s, a, limit) && Admissible(a, limit) && t < |s.tiers|
    requires Merge(s, t, raw).Some?
    ensures Admissible(Plus(a, Single(Emit(t, raw))), limit)
  {
    var m := Mark(t, raw.tile, KeyOf(raw).value);
    PlusEmit(a, t, raw);
    MergeReserves(s, a, limit, t, raw);
    MergeStaysInCaps(s, t, raw);
    assert Weight(s.tiers, m) == a.marks[m];
    var marks := a.marks + multiset{m};
    forall k | k in marks
      ensures marks[k] <= MAX_U64
    {
      assert k != m ==> k in a.marks && marks[k] == a.marks[k];
    }
  }

  lemma MergeStaysInCaps(s: State, t: nat, raw: RawSegment)
    requires t < |s.tiers| && Merge(s, t, raw).Some?
    requires s.used <= MAX_ENTRIES && s.tileCount <= MAX_TILES
    ensures var r := Merge(s, t, raw).value;
            && r.used <= MAX_ENTRIES && r.tileCount <= MAX_TILES
            && Weight(s.tiers, Mark(t, raw.tile, KeyOf(raw).value)) < MAX_U64
  {
  }

  lemma AcceptedOtherFits(s: State, a: Tally, limit: Option<nat>, e: Event)
    requires Represents(s, a, limit) && Admissible(a, limit) && ValidEvent(e, |s.tiers|) && !e.Emit?
    requires Apply(s, e).Some?
    ensures Admissible(Plus(a, Single(e)), limit)
  {
    assert a.marks + multiset{} == a.marks && a.completed + multiset{} == a.completed;
  }

  lemma StartRepresentsNothing(tiers: nat, limit: Option<nat>)
    ensures Represents(Initial(tiers, limit), NOTHING, limit) && Admissible(NOTHING, limit)
  {
    assert Entries(multiset{}) == {} && Tiles(multiset{}) == {};
  }

  /**
    * A generation gets through its events exactly when their tally respects every cap, and then the
    * state is the one the tally determines.
    */
  lemma {:induction false} EventsSucceedExactly(tiers: nat, limit: Option<nat>, events: seq<Event>)
    requires ValidEvents(events, tiers)
    ensures var r := ApplyAll(Initial(tiers, limit), events);
            && (r.Some? <==> Admissible(Total(events), limit))
            && (r.Some? ==> Represents(r.value, Total(events), limit))
  {
    StartRepresentsNothing(tiers, limit);
    if events != [] {
      var init, last := events[..|events| - 1], events[|events| - 1];
      EventsSucceedExactly(tiers, limit, init);
      var before := ApplyAll(Initial(tiers, limit), init);
      if before.Some? {
        ApplyExact(before.value, Total(init), limit, last);
        if Apply(before.value, last).Some? {
          if last.Emit? {
            AcceptedEmitFits(before.value, Total(init), limit, last.tier, last.segment);
          } else {
            AcceptedOtherFits(before.value, Total(init), limit, last);
          }
        }
      } else if Admissible(Total(events), limit) {
        AdmissibleIsDownward(Total(init), Single(last), limit);
      }
    }
  }

  // -------------------------------------------------- the state is determined

  lemma SameWeightsSameSegments(a: SegmentWeights, b: SegmentWeights)
    requires forall key :: Get(a, key) == Get(b, key)
    requires forall key :: key in a ==> a[key] > 0
    requires forall key :: key in b ==> b[key] > 0
    ensures a == b
  {
    assert forall key :: key in a <==> Get(a, key) > 0;
    assert forall key :: key in b <==> Get(b, key) > 0;
    forall key | key in a
      ensures key in b && a[key] == b[key]
    {
      assert Get(a, key) == Get(b, key);
    }
    assert a.Keys == b.Keys;
  }

  lemma SameWeightsSameTier(a: seq<Tier>, b: seq<Tier>, t: nat)
    requires t < |a| == |b| && Compact(a) && Compact(b)
    requires forall m :: Weight(a, m) == Weight(b, m)
    ensures a[t].weights == b[t].weights
  {
    forall tile
      ensures SegmentsOf(a, t, tile) == SegmentsOf(b, t, tile)
    {
      forall key
        ensures Get(SegmentsOf(a, t, tile), key) == Get(SegmentsOf(b, t, tile), key)
      {
        assert Weight(a, Mark(t, tile, key)) == Weight(b, Mark(t, tile, key));
      }
      SameWeightsSameSegments(SegmentsOf(a, t, tile), SegmentsOf(b, t, tile));
    }
    assert forall tile :: tile in a[t].weights <==> SegmentsOf(a, t, tile) != map[];
    assert forall tile :: tile in b[t].weights <==> SegmentsOf(b, t, tile) != map[];
    assert a[t].weights.Keys == b[t].weights.Keys;
    forall tile | tile in a[t].weights
      ensures a[t].weights[tile] == b[t].weights[tile]
    {
      assert SegmentsOf(a, t, tile) == SegmentsOf(b, t, tile);
    }
  }

  lemma TallyDeterminesState(r: State, s: State, a: Tally, limit: Option<nat>)
    requires Represents(r, a, limit) && Represents(s, a, limit) && |r.tiers| == |s.tiers|
    ensures r == s
  {
    forall t | 0 <= t < |r.tiers|
      ensures r.tiers[t] == s.tiers[t]
    {
      SameWeightsSameTier(r.tiers, s.tiers, t);
    }
    assert r.tiers == s.tiers;
  }

  /** Any two orders of the same effects end alike: both fail, or both reach one state. */
  lemma OrderOfEventsIsIrrelevant(tiers: nat, limit: Option<nat>, a: seq<Event>, b: seq<Event>)
    requires ValidEvents(a, tiers) && ValidEvents(b, tiers)
    requires Total(a) == Total(b)
    ensures ApplyAll(Initial(tiers, limit), a) == ApplyAll(Initial(tiers, limit), b)
  {
    EventsSucceedExactly(tiers, limit, a);
    EventsSucceedExactly(tiers, limit, b);
    if Admissible(Total(a), limit) {
      TallyDeterminesState(ApplyAll(Initial(tiers, limit), a).value, ApplyAll(Initial(tiers, limit), b).value,
                           Total(a), limit);
    }
  }

  lemma AdmissibleUnderLimit(a: Tally, limit: nat)
    ensures Admissible(a, Some(limit)) <==> Admissible(a, None) && a.cost <= limit
  {
  }

  lemma StateUnderLimit(s: State, t: State, a: Tally, limit: nat)
    requires Represents(s, a, None) && Represents(t, a, Some(limit)) && |s.tiers| == |t.tiers|
    ensures t == s.(remaining := Some(limit - a.cost))
  {
    TallyDeterminesState(s.(remaining := Some(limit - a.cost)), t, a, Some(limit));
  }

  /** A result that the tally decides, success and state alike. */
  ghost predicate Settles(r: Option<State>, tiers: nat, a: Tally, limit: Option<nat>) {
    && (r.Some? <==> Admissible(a, limit))
    && (r.Some? ==> |r.value.tiers| == tiers && Represents(r.value, a, limit))
  }

  lemma ResultUnderLimit(r: Option<State>, q: Option<State>, tiers: nat, a: Tally, limit: nat)
    requires r.Some? && Settles(r, tiers, a, None) && Settles(q, tiers, a, Some(limit))
    ensures q == if a.cost <= limit then Some(r.value.(remaining := Some(limit - a.cost))) else None
  {
    AdmissibleUnderLimit(a, limit);
    if q.Some? {
      StateUnderLimit(r.value, q.value, a, limit);
    }
  }

  lemma EventsSettle(tiers: nat, limit: Option<nat>, events: seq<Event>) returns (r: Option<State>)
    requires ValidEvents(events, tiers)
    ensures r == ApplyAll(Initial(tiers, limit), events)
    ensures Settles(r, tiers, Total(events), limit)
  {
    EventsSucceedExactly(tiers, limit, events);
    r := ApplyAll(Initial(tiers, limit), events);
  }

  /** An evaluation limit changes nothing but what remains of it, unless it is exceeded. */
  lemma LimitOnlyChangesRemaining(tiers: nat, limit: nat, events: seq<Event>)
    requires ValidEvents(events, tiers)
    requires ApplyAll(Initial(tiers, None), events).Some?
    ensures var cost := Total(events).cost;
            ApplyAll(Initial(tiers, Some(limit)), events)
            == if cost <= limit
               then Some(ApplyAll(Initial(tiers, None), events).value.(remaining := Some(limit - cost)))
               else None
  {
    var r := EventsSettle(tiers, None, events);
    var q := EventsSettle(tiers, Some(limit), events);
    ResultUnderLimit(r, q, tiers, Total(events), limit);
  }

  lemma LimitedImpliesUnlimited(tiers: nat, limit: nat, events: seq<Event>)
    requires ValidEvents(events, tiers)
    requires ApplyAll(Initial(tiers, Some(limit)), events).Some?
    ensures ApplyAll(Initial(tiers, None), events).Some?
  {
    var r := EventsSettle(tiers, None, events);
    var q := EventsSettle(tiers, Some(limit), events);
    AdmissibleUnderLimit(Total(events), limit);
  }

  // ---------------------------------------------------- what the budget counts

  ghost function StoredEntries(tiers: seq<Tier>): set<Mark> {
    set t, tile, key | 0 <= t < |tiers| && tile in tiers[t].weights && key in tiers[t].weights[tile]
      :: Mark(t, tile, key)
  }

  ghost function StoredTiles(tiers: seq<Tier>): set<(nat, TileKey)> {
    set t, tile | 0 <= t < |tiers| && tile in tiers[t].weights :: (t, tile)
  }

  lemma EntriesAreStored(s: State, a: Tally, limit: Option<nat>)
    requires Represents(s, a, limit)
    ensures StoredEntries(s.tiers) == Entries(a.marks)
  {
    forall m ensures m in StoredEntries(s.tiers) <==> m in Entries(a.marks) {
      assert Weight(s.tiers, m) == a.marks[m];
      if m in StoredEntries(s.tiers) {
        assert CompactSegments(s.tiers[m.tier].weights[m.tile]);
      }
    }
  }

  lemma TilesAreStored(s: State, a: Tally, limit: Option<nat>)
    requires Represents(s, a, limit)
    ensures StoredTiles(s.tiers) == Tiles(a.marks)
  {
    forall x | x in Tiles(a.marks) ensures x.0 < |s.tiers| {
      var m :| m in a.marks && (m.tier, m.tile) == x;
      assert Weight(s.tiers, m) == a.marks[m];
    }
    forall t, tile | 0 <= t < |s.tiers| ensures (t, tile) in StoredTiles(s.tiers) <==> (t, tile) in Tiles(a.marks) {
      TileIsKnown(s, a, limit, t, tile);
    }
  }

  /** After every accepted event the budget counts exactly what is stored, within both caps. */
  lemma BudgetCountsWhatIsStored(tiers: nat, limit: Option<nat>, events: seq<Event>)
    requires ValidEvents(events, tiers)
    requires ApplyAll(Initial(tiers, limit), events).Some?
    ensures var s := ApplyAll(Initial(tiers, limit), events).value;
            && s.used == |StoredEntries(s.tiers)| <= MAX_ENTRIES
            && s.tileCount == |StoredTiles(s.tiers)| <= MAX_TILES
            && Compact(s.tiers)
  {
    var r := EventsSettle(tiers, limit, events);
    EntriesAreStored(r.value, Total(events), limit);
    TilesAreStored(r.value, Total(events), limit);
  }
}
