/** Selection, packing and encoding of the accumulated tiles (compute/src/lib.rs). */
module Packing {
  import opened Outcomes
  import opened Bytes
  import opened Wire
  import opened Ledger
  import Sorting

  const MAX_SEGMENTS_PER_TILE: nat := 200_000
  const MAX_PAYLOAD_BYTES: nat := 8 * 1024 * 1024
  const PAYLOAD_VERSION: U32 := 1

  // ---------------------------------------------------------------- selection

  /** Signed lexicographic order of segments. */
  function SegmentOrder(k: SegmentKey): seq<int> {
    [k.x1, k.y1, k.x2, k.y2]
  }

  /** Heavier first, then the signed order. */
  function WeightOrder(weights: SegmentWeights): Sorting.Key<SegmentKey> {
    k => [-(Get(weights, k) as int), k.x1, k.y1, k.x2, k.y2]
  }

  lemma OrdersSeparate(weights: SegmentWeights, keys: set<SegmentKey>)
    ensures Sorting.Separates(SegmentOrder, keys) && Sorting.Separates(WeightOrder(weights), keys)
  {
    forall x, y | x in keys && y in keys && SegmentOrder(x) == SegmentOrder(y)
      ensures x == y
    {
      assert SegmentOrder(x)[0] == x.x1 && SegmentOrder(x)[1] == x.y1;
      assert SegmentOrder(x)[2] == x.x2 && SegmentOrder(x)[3] == x.y2;
    }
    var order := WeightOrder(weights);
    forall x, y | x in keys && y in keys && order(x) == order(y)
      ensures x == y
    {
      assert order(x)[1] == x.x1 && order(x)[2] == x.y1 && order(x)[3] == x.x2 && order(x)[4] == x.y2;
    }
  }

  /** `budgeted_segments`: the heaviest segments up to the cap, in signed order. */
  ghost function Budgeted(weights: SegmentWeights, cap: nat): seq<SegmentKey> {
    OrdersSeparate(weights, weights.Keys);
    if |weights| <= cap then Sorting.Sorted(SegmentOrder, weights.Keys)
    else
      var best := Heaviest(weights, cap);
      OrdersSeparate(weights, best);
      Sorting.Sorted(SegmentOrder, best)
  }

  /** The first `cap` segments after sorting by weight. */
  ghost function Heaviest(weights: SegmentWeights, cap: nat): set<SegmentKey>
    requires cap < |weights|
  {
    OrdersSeparate(weights, weights.Keys);
    Sorting.SortedMembers(WeightOrder(weights), weights.Keys);
    assert |weights.Keys| == |weights|;
    Elements(Sorting.Sorted(WeightOrder(weights), weights.Keys)[..cap])
  }

  predicate Better(weights: SegmentWeights, x: SegmentKey, y: SegmentKey) {
    || Get(weights, x) > Get(weights, y)
    || (Get(weights, x) == Get(weights, y) && Sorting.Less(SegmentOrder(x), SegmentOrder(y)))
  }

  lemma WeightOrderMeansBetter(weights: SegmentWeights, x: SegmentKey, y: SegmentKey)
    ensures Sorting.Less(WeightOrder(weights)(x), WeightOrder(weights)(y)) <==> Better(weights, x, y)
  {
    var a, b := WeightOrder(weights)(x), WeightOrder(weights)(y);
    assert a[1..] == SegmentOrder(x) && b[1..] == SegmentOrder(y);
  }

  /** `chosen` are the best `count` segments: each of them is better than every one left out. */
  ghost predicate IsBest(weights: SegmentWeights, chosen: set<SegmentKey>, count: nat) {
    && chosen <= weights.Keys && |chosen| == count
    && forall x, y :: x in chosen && y in weights.Keys - chosen ==> Better(weights, x, y)
  }

  ghost function Elements<T>(xs: seq<T>): set<T> {
    set x | x in xs
  }

  lemma {:induction false} DistinctSize<T>(xs: seq<T>)
    requires forall i, j :: 0 <= i < j < |xs| ==> xs[i] != xs[j]
    ensures |Elements(xs)| == |xs|
  {
    if xs != [] {
      var init, last := xs[..|xs| - 1], xs[|xs| - 1];
      DistinctSize(init);
      assert Elements(xs) == Elements(init) + {last};
      assert last !in init;
    }
  }

  lemma AscendingIsDistinct<T>(key: Sorting.Key<T>, xs: seq<T>)
    requires Sorting.Ascending(key, xs)
    ensures forall i, j :: 0 <= i < j < |xs| ==> xs[i] != xs[j]
  {
    forall i, j | 0 <= i < j < |xs|
      ensures xs[i] != xs[j]
    {
      Sorting.LessIsStrict(key(xs[i]), key(xs[j]));
    }
  }

  lemma HeaviestIsBest(weights: SegmentWeights, cap: nat)
    requires cap < |weights|
    ensures IsBest(weights, Heaviest(weights, cap), cap)
  {
    var order := WeightOrder(weights);
    OrdersSeparate(weights, weights.Keys);
    Sorting.SortedMembers(order, weights.Keys);
    Sorting.SortedAscends(order, weights.Keys);
    var sorted := Sorting.Sorted(order, weights.Keys);
    assert |weights.Keys| == |weights|;
    AscendingIsDistinct(order, sorted);
    DistinctSize(sorted[..cap]);
    PrefixIsBest(weights, sorted, cap);
  }

  lemma PrefixIsBest(weights: SegmentWeights, sorted: seq<SegmentKey>, cap: nat)
    requires Sorting.Ascending(WeightOrder(weights), sorted) && cap <= |sorted|
    requires forall k :: k in sorted <==> k in weights.Keys
    ensures Elements(sorted[..cap]) <= weights.Keys
    ensures forall x, y ::
              x in Elements(sorted[..cap]) && y in weights.Keys - Elements(sorted[..cap]) ==> Better(weights, x, y)
  {
    var best := Elements(sorted[..cap]);
    forall x, y | x in best && y in weights.Keys - best
      ensures Better(weights, x, y)
    {
      var i :| 0 <= i < cap && sorted[i] == x;
      var j :| 0 <= j < |sorted| && sorted[j] == y;
      assert y !in sorted[..cap];
      WeightOrderMeansBetter(weights, x, y);
    }
  }

  /** The selection is the best min(n, cap) segments, strictly ascending in the signed order. */
  lemma SelectionIsBest(weights: SegmentWeights, cap: nat)
    ensures var selected := Budgeted(weights, cap);
            && Sorting.Ascending(SegmentOrder, selected)
            && |selected| == (if |weights| < cap then |weights| else cap)
            && IsBest(weights, Elements(selected), |selected|)
  {
    assert |weights.Keys| == |weights|;
    var chosen := if |weights| <= cap then weights.Keys else Heaviest(weights, cap);
    if |weights| > cap {
      HeaviestIsBest(weights, cap);
    }
    OrdersSeparate(weights, chosen);
    Sorting.SortedMembers(SegmentOrder, chosen);
    Sorting.SortedAscends(SegmentOrder, chosen);
    assert Elements(Budgeted(weights, cap)) == chosen;
  }

  lemma BetterIsAsymmetric(weights: SegmentWeights, x: SegmentKey, y: SegmentKey)
    requires Better(weights, x, y)
    ensures !Better(weights, y, x)
  {
    if Get(weights, x) == Get(weights, y) {
      Sorting.LessIsStrict(SegmentOrder(x), SegmentOrder(y));
    }
  }

  /** Being the best `count` segments determines them. */
  lemma BestIsUnique(weights: SegmentWeights, a: set<SegmentKey>, b: set<SegmentKey>, count: nat)
    requires IsBest(weights, a, count) && IsBest(weights, b, count)
    ensures a == b
  {
    if a != b {
      if a <= b {
        SubsetOfSameSize(a, b);
      } else if b <= a {
        SubsetOfSameSize(b, a);
      } else {
        var x :| x in a && x !in b;
        var y :| y in b && y !in a;
        assert Better(weights, x, y) && Better(weights, y, x);
        BetterIsAsymmetric(weights, x, y);
      }
    }
  }

  lemma SubsetOfSameSize<T>(a: set<T>, b: set<T>)
    requires a <= b && |a| == |b|
    ensures a == b
  {
    SubsetSize(b - a, b);
    assert |b - a| + |a| == |b|;
    assert b - a == {};
  }

  // ---------------------------------------------------------------- tile blobs

  ghost function PutSegment(k: SegmentKey): ByteString {
    PutI16(k.x1) + PutI16(k.y1) + PutI16(k.x2) + PutI16(k.y2)
  }

  function TakeSegment(s: ByteString): Option<(SegmentKey, ByteString)> {
    var (x1, s1) :- TakeI16(s);
    var (y1, s2) :- TakeI16(s1);
    var (x2, s3) :- TakeI16(s2);
    var (y2, rest) :- TakeI16(s3);
    Some((SegmentKey(x1, y1, x2, y2), rest))
  }

  lemma SegmentUndoes(k: SegmentKey, rest: ByteString)
    ensures TakeSegment(PutSegment(k) + rest) == Some((k, rest))
  {
    var s3 := PutI16(k.y2) + rest;
    var s2 := PutI16(k.x2) + s3;
    var s1 := PutI16(k.y1) + s2;
    PutTakeI16(k.y2, rest);
    PutTakeI16(k.x2, s3);
    PutTakeI16(k.y1, s2);
    PutTakeI16(k.x1, s1);
    assert PutSegment(k) + rest == PutI16(k.x1) + s1;
  }

  ghost function Blob(segments: seq<SegmentKey>): ByteString {
    PutMany(PutSegment, segments)
  }

  lemma BlobLength(segments: seq<SegmentKey>)
    ensures |Blob(segments)| == 8 * |segments|
  {
    ManyLength(PutSegment, 8, segments);
  }

  /** The segment tuples that a consumer unpacks from a blob. */
  function Unpack(blob: ByteString): Option<seq<SegmentKey>> {
    var (segments, rest) :- TakeMany(TakeSegment, blob, |blob| / 8);
    if rest == [] then Some(segments) else None
  }

  lemma UnpackUndoesBlob(segments: seq<SegmentKey>)
    ensures Unpack(Blob(segments)) == Some(segments)
  {
    BlobLength(segments);
    forall k: SegmentKey, rest: ByteString
      ensures TakeSegment(PutSegment(k) + rest) == Some((k, rest))
    {
      SegmentUndoes(k, rest);
    }
    ManyUndoes(TakeSegment, PutSegment, _ => true, segments, []);
    assert Blob(segments) + [] == Blob(segments);
  }

  /** The checks the prepared-pack consumer makes of a tile blob. */
  ghost predicate ConsumerAccepts(blob: ByteString) {
    && 8 <= |blob| <= 1_600_000 && |blob| % 8 == 0
    && |blob| / 8 <= MAX_SEGMENTS_PER_TILE
    && Unpack(blob).Some? && Sorting.Ascending(SegmentOrder, Unpack(blob).value)
  }

  ghost function TileBlob(weights: SegmentWeights): ByteString {
    Blob(Budgeted(weights, MAX_SEGMENTS_PER_TILE))
  }

  /** Every tile with a segment packs into a blob that the consumer accepts. */
  lemma TileBlobIsAccepted(weights: SegmentWeights)
    requires weights != map[]
    ensures ConsumerAccepts(TileBlob(weights))
  {
    SelectionIsBest(weights, MAX_SEGMENTS_PER_TILE);
    var selected := Budgeted(weights, MAX_SEGMENTS_PER_TILE);
    BlobLength(selected);
    UnpackUndoesBlob(selected);
  }

  // ------------------------------------------------------------------- payload

  datatype Shard = Shard(tile: TileKey, blob: ByteString)

  predicate Encodable(shard: Shard) {
    && shard.tile.zoom < 0x1_0000_0000 && shard.tile.x < 0x1_0000_0000 && shard.tile.y < 0x1_0000_0000
    && |shard.blob| < 0x1_0000_0000
  }

  ghost function PutShard(shard: Shard): ByteString {
    PutCount(shard.tile.zoom) + PutCount(shard.tile.x) + PutCount(shard.tile.y) + PutCount(|shard.blob|) + shard.blob
  }

  function TakeShard(s: ByteString): Option<(Shard, ByteString)> {
    var (zoom, s1) :- TakeU32(s);
    var (x, s2) :- TakeU32(s1);
    var (y, s3) :- TakeU32(s2);
    var (length, s4) :- TakeU32(s3);
    if length > |s4| then None else Some((Shard(TileKey(zoom, x, y), s4[..length]), s4[length..]))
  }

  lemma TakeShardFields(zoom: U32, x: U32, y: U32, length: U32, s4: ByteString)
    requires length <= |s4|
    ensures TakeShard(PutU32(zoom) + (PutU32(x) + (PutU32(y) + (PutU32(length) + s4))))
         == Some((Shard(TileKey(zoom, x, y), s4[..length]), s4[length..]))
  {
    var s3 := PutU32(length) + s4;
    var s2 := PutU32(y) + s3;
    var s1 := PutU32(x) + s2;
    PutTakeU32(length, s4);
    PutTakeU32(y, s3);
    PutTakeU32(x, s2);
    PutTakeU32(zoom, s1);
  }

  lemma ShardUndoes(shard: Shard, rest: ByteString)
    requires Encodable(shard)
    ensures TakeShard(PutShard(shard) + rest) == Some((shard, rest))
  {
    var tile, s4 := shard.tile, shard.blob + rest;
    TakeShardFields(tile.zoom, tile.x, tile.y, |shard.blob|, s4);
    assert PutShard(shard) + rest
        == PutU32(tile.zoom) + (PutU32(tile.x) + (PutU32(tile.y) + (PutU32(|shard.blob|) + s4)));
    assert s4[..|shard.blob|] == shard.blob && s4[|shard.blob|..] == rest;
  }

  lemma ShardsAreUndone()
    ensures Undoes(TakeShard, PutShard, Encodable)
  {
    forall shard: Shard, rest: ByteString | Encodable(shard)
      ensures TakeShard(PutShard(shard) + rest) == Some((shard, rest))
    {
      ShardUndoes(shard, rest);
    }
  }

  function PayloadBytes(shards: seq<Shard>): nat {
    if shards == [] then 8 else PayloadBytes(shards[..|shards| - 1]) + 16 + |shards[|shards| - 1].blob|
  }

  /** `ensure_payload_bound`. */
  predicate PayloadBound(shards: seq<Shard>) {
    |shards| <= MAX_TILES && PayloadBytes(shards) <= MAX_PAYLOAD_BYTES
  }

  predicate AlignedBlob(blob: ByteString) {
    blob != [] && |blob| % 8 == 0
  }

  predicate AllAligned(shards: seq<Shard>) {
    forall i :: 0 <= i < |shards| ==> AlignedBlob(shards[i].blob)
  }

  ghost function PayloadText(shards: seq<Shard>): ByteString {
    PutU32(PAYLOAD_VERSION) + PutCount(|shards|) + PutMany(PutShard, shards)
  }

  /** `encode_payload`; None is a bound error or an empty or misaligned blob. */
  ghost function EncodePayload(shards: seq<Shard>): Option<ByteString> {
    if PayloadBound(shards) && AllAligned(shards) then Some(PayloadText(shards)) else None
  }

  function DecodePayload(s: ByteString): Option<seq<Shard>> {
    var (version, s1) :- TakeU32(s);
    if version != PAYLOAD_VERSION then None
    else
      var (count, s2) :- TakeU32(s1);
      var (shards, rest) :- TakeMany(TakeShard, s2, count);
      if rest == [] then Some(shards) else None
  }

  lemma {:induction false} PutManyAppend<T>(put: Printer<T>, xs: seq<T>, x: T)
    ensures PutMany(put, xs + [x]) == PutMany(put, xs) + put(x)
  {
    if xs == [] {
      assert xs + [x] == [x];
      assert [x][1..] == [];
      assert put(x) + [] == put(x) && [] + put(x) == put(x);
    } else {
      PutManyAppend(put, xs[1..], x);
      assert (xs + [x])[1..] == xs[1..] + [x];
      assert put(xs[0]) + (PutMany(put, xs[1..]) + put(x)) == (put(xs[0]) + PutMany(put, xs[1..])) + put(x);
    }
  }

  lemma {:induction false} ShardsLength(shards: seq<Shard>)
    ensures |PutMany(PutShard, shards)| + 8 == PayloadBytes(shards)
  {
    if shards != [] {
      var init, last := shards[..|shards| - 1], shards[|shards| - 1];
      ShardsLength(init);
      PutManyAppend(PutShard, init, last);
      assert shards == init + [last];
    }
  }

  lemma ShardsUndo(shards: seq<Shard>)
    requires forall i :: 0 <= i < |shards| ==> Encodable(shards[i])
    ensures TakeMany(TakeShard, PutMany(PutShard, shards), |shards|) == Some((shards, []))
  {
    ShardsAreUndone();
    assert forall x :: x in shards ==> Encodable(x);
    ManyAlone(TakeShard, PutShard, Encodable, shards);
  }

  lemma TextDecodes(shards: seq<Shard>)
    requires |shards| < 0x1_0000_0000 && forall i :: 0 <= i < |shards| ==> Encodable(shards[i])
    ensures DecodePayload(PutU32(PAYLOAD_VERSION) + (PutU32(|shards|) + PutMany(PutShard, shards))) == Some(shards)
  {
    var body := PutMany(PutShard, shards);
    ShardsUndo(shards);
    PutTakeU32(|shards|, body);
    PutTakeU32(PAYLOAD_VERSION, PutU32(|shards|) + body);
  }

  /** A decoder recovers exactly the shard list, and the payload has the size that was checked. */
  lemma PayloadDecodes(shards: seq<Shard>)
    requires EncodePayload(shards).Some?
    requires forall i :: 0 <= i < |shards| ==> Encodable(shards[i])
    ensures DecodePayload(EncodePayload(shards).value) == Some(shards)
    ensures |EncodePayload(shards).value| == PayloadBytes(shards) <= MAX_PAYLOAD_BYTES
  {
    TextIs(shards);
    TextDecodes(shards);
  }

  lemma TextIs(shards: seq<Shard>)
    requires |shards| <= MAX_TILES
    ensures PayloadText(shards) == PutU32(PAYLOAD_VERSION) + (PutU32(|shards|) + PutMany(PutShard, shards))
    ensures |PayloadText(shards)| == PayloadBytes(shards)
  {
    ShardsLength(shards);
    ThreeParts(PutU32(PAYLOAD_VERSION), PutCount(|shards|), PutMany(PutShard, shards));
  }

  lemma ThreeParts(a: ByteString, b: ByteString, c: ByteString)
    ensures a + b + c == a + (b + c) && |a + b + c| == |a| + |b| + |c|
  {
  }

  /** The encoder's loop, which appends to one buffer. */
  method EncodePayloadBytes(shards: seq<Shard>) returns (r: Option<ByteString>)
    requires forall i :: 0 <= i < |shards| ==> Encodable(shards[i])
    ensures r == EncodePayload(shards)
  {
    if !PayloadBound(shards) {
      return None;
    }
    var version := LittleEndian(PAYLOAD_VERSION);
    var count := LittleEndian(|shards|);
    var payload := version + count;
    assert payload + PutMany(PutShard, shards[..0]) == payload;
    for index := 0 to |shards|
      invariant payload == PutU32(PAYLOAD_VERSION) + PutCount(|shards|) + PutMany(PutShard, shards[..index])
      invariant AllAligned(shards[..index])
    {
      var shard := shards[index];
      if shard.blob == [] || |shard.blob| % 8 != 0 {
        return None;
      }
      var entry := EncodeShard(shard);
      PutManyAppend(PutShard, shards[..index], shard);
      assert shards[..index + 1] == shards[..index] + [shard];
      payload := payload + entry;
    }
    assert shards[..|shards|] == shards;
    return Some(payload);
  }

  method EncodeShard(shard: Shard) returns (s: ByteString)
    requires Encodable(shard)
    ensures s == PutShard(shard)
  {
    var zoom := LittleEndian(shard.tile.zoom);
    var x := LittleEndian(shard.tile.x);
    var y := LittleEndian(shard.tile.y);
    var length := LittleEndian(|shard.blob|);
    s := zoom + x + y + length + shard.blob;
  }
}
