/**
  * Where everything is in the byte formats of the tile kernel (compute/src/lib.rs): position pages,
  * tile payloads and tile blobs, by offset.
  */
module Layouts {
  import opened Bytes
  import opened Wire
  import opened Ledger
  import opened PositionPage
  import opened Packing

  /** A little-endian word at an offset. */
  function WordAt(s: ByteString, at: nat): int
    requires at + 4 <= |s|
  {
    s[at] as int + 0x100 * s[at + 1] as int + 0x1_0000 * s[at + 2] as int + 0x100_0000 * s[at + 3] as int
  }

  /** A little-endian 16-bit number in two's complement at an offset. */
  function ShortAt(s: ByteString, at: nat): int
    requires at + 2 <= |s|
  {
    var n := s[at] as int + 0x100 * s[at + 1] as int;
    if n < 0x8000 then n else n - 0x1_0000
  }

  lemma WordIn(s: ByteString, a: ByteString, v: U32, b: ByteString)
    requires s == a + PutU32(v) + b
    ensures |a| + 4 <= |s| && WordAt(s, |a|) == v
  {
    var w := PutU32(v);
    assert s[|a|] == w[0] && s[|a| + 1] == w[1] && s[|a| + 2] == w[2] && s[|a| + 3] == w[3];
  }

  lemma ShortIn(s: ByteString, a: ByteString, v: I16, b: ByteString)
    requires s == a + PutI16(v) + b
    ensures |a| + 2 <= |s| && ShortAt(s, |a|) == v
  {
    var w := PutI16(v);
    assert s[|a|] == w[0] && s[|a| + 1] == w[1];
  }

  lemma Regrouped(a: ByteString, b: ByteString, c: ByteString, d: ByteString, e: ByteString)
    ensures a + (b + c + d) + e == (a + b) + c + (d + e)
  {
  }

  /** A version and a count at the front. */
  lemma Headed(version: U32, count: U32, body: ByteString)
    ensures var s := PutU32(version) + PutU32(count) + body;
            |s| >= 8 && WordAt(s, 0) == version && WordAt(s, 4) == count
  {
    var s := PutU32(version) + PutU32(count) + body;
    assert s == [] + PutU32(version) + (PutU32(count) + body);
    WordIn(s, [], version, PutU32(count) + body);
    WordIn(s, PutU32(version), count, body);
  }

  /** One of many, after those before it and before the rest. */
  lemma {:induction false} ManyAt<T>(put: Printer<T>, xs: seq<T>, k: nat)
    requires k < |xs|
    ensures PutMany(put, xs) == PutMany(put, xs[..k]) + put(xs[k]) + PutMany(put, xs[k + 1..])
  {
    if k == 0 {
      assert xs[..0] == [];
      assert [] + put(xs[0]) == put(xs[0]);
    } else {
      ManyAt(put, xs[1..], k - 1);
      assert xs[..k][1..] == xs[1..][..k - 1] && xs[1..][k..] == xs[k + 1..];
      var a, b := put(xs[0]), PutMany(put, xs[1..][..k - 1]);
      assert PutMany(put, xs[..k]) == a + b;
      assert a + (b + put(xs[k]) + PutMany(put, xs[k + 1..])) == (a + b) + put(xs[k]) + PutMany(put, xs[k + 1..]);
    }
  }

  // ------------------------------------------------------------ position pages

  lemma PageParts(drives: seq<WireDrive>, k: nat) returns (before: ByteString, after: ByteString)
    requires k < |drives|
    ensures EncodePage(drives) == before + PutDrive(drives[k]) + after && |before| == PageBytes(drives[..k])
  {
    ManyAt(PutDrive, drives, k);
    DrivesLength(drives[..k]);
    var head, front := PutU32(VERSION) + PutCount(|drives|), PutMany(PutDrive, drives[..k]);
    before, after := head + front, PutMany(PutDrive, drives[k + 1..]);
    assert head + (front + PutDrive(drives[k]) + after) == (head + front) + PutDrive(drives[k]) + after;
  }

  lemma DriveParts(drive: WireDrive, s: ByteString, before: ByteString, after: ByteString)
    requires s == before + PutDrive(drive) + after && |drive.points| < 0x1_0000_0000
    ensures |before| + 8 <= |s| && WordAt(s, |before|) == ToU32(drive.id) && WordAt(s, |before| + 4) == |drive.points|
    ensures s == before + PutI32(drive.id) + PutCount(|drive.points|) + PutMany(PutPoint, drive.points) + after
  {
    var id, count, body := PutI32(drive.id), PutCount(|drive.points|), PutMany(PutPoint, drive.points);
    assert s == before + id + count + body + after;
    assert s == before + PutU32(ToU32(drive.id)) + (count + body + after);
    WordIn(s, before, ToU32(drive.id), count + body + after);
    assert s == (before + id) + PutU32(|drive.points|) + (body + after);
    WordIn(s, before + id, |drive.points|, body + after);
  }

  /**
    * A position page is its version 1 and its number of drives; then each drive is its number in two's
    * complement and its number of points; all of it little-endian words.
    */
  lemma DriveLayout(drives: seq<WireDrive>, k: nat)
    requires k < |drives| < 0x1_0000_0000 && |drives[k].points| < 0x1_0000_0000
    ensures var s, at, drive := EncodePage(drives), PageBytes(drives[..k]), drives[k];
            && at + 8 <= |s| && WordAt(s, 0) == 1 && WordAt(s, 4) == |drives|
            && (WordAt(s, at) == drive.id || WordAt(s, at) == drive.id + 0x1_0000_0000)
            && WordAt(s, at + 4) == |drive.points|
  {
    Headed(VERSION, |drives|, PutMany(PutDrive, drives));
    var before, after := PageParts(drives, k);
    DriveParts(drives[k], EncodePage(drives), before, after);
  }

  lemma PointParts(p: Point, s: ByteString, before: ByteString, after: ByteString)
    requires s == before + PutPoint(p) + after
    ensures |before| + 8 <= |s| && WordAt(s, |before|) == p.latitude && WordAt(s, |before| + 4) == p.longitude
  {
    assert s == before + PutU32(p.latitude) + (PutU32(p.longitude) + after);
    WordIn(s, before, p.latitude, PutU32(p.longitude) + after);
    assert s == (before + PutU32(p.latitude)) + PutU32(p.longitude) + after;
    WordIn(s, before + PutU32(p.latitude), p.longitude, after);
  }

  lemma PointOfMany(points: seq<Point>, j: nat, s: ByteString, head: ByteString, after: ByteString)
    requires j < |points| && s == head + PutMany(PutPoint, points) + after
    ensures var at := |head| + 8 * j;
            at + 8 <= |s| && WordAt(s, at) == points[j].latitude && WordAt(s, at + 4) == points[j].longitude
  {
    ManyAt(PutPoint, points, j);
    ManyLength(PutPoint, 8, points[..j]);
    var front, back := PutMany(PutPoint, points[..j]), PutMany(PutPoint, points[j + 1..]);
    Regrouped(head, front, PutPoint(points[j]), back, after);
    PointParts(points[j], s, head + front, back + after);
  }

  /** The points of a drive follow, eight bytes each: the words of the latitude and of the longitude. */
  lemma PointLayout(drives: seq<WireDrive>, k: nat, j: nat)
    requires k < |drives| && j < |drives[k].points| < 0x1_0000_0000
    ensures var s, at, p := EncodePage(drives), PageBytes(drives[..k]) + 8 + 8 * j, drives[k].points[j];
            at + 8 <= |s| && WordAt(s, at) == p.latitude && WordAt(s, at + 4) == p.longitude
  {
    var s, drive := EncodePage(drives), drives[k];
    var before, after := PageParts(drives, k);
    DriveParts(drive, s, before, after);
    PointOfMany(drive.points, j, s, before + PutI32(drive.id) + PutCount(|drive.points|), after);
  }

  // ------------------------------------------------------------------ payloads

  lemma PayloadParts(shards: seq<Shard>, k: nat) returns (before: ByteString, after: ByteString)
    requires k < |shards|
    ensures PayloadText(shards) == before + PutShard(shards[k]) + after && |before| == PayloadBytes(shards[..k])
  {
    ManyAt(PutShard, shards, k);
    ShardsLength(shards[..k]);
    var head, front := PutU32(PAYLOAD_VERSION) + PutCount(|shards|), PutMany(PutShard, shards[..k]);
    before, after := head + front, PutMany(PutShard, shards[k + 1..]);
    assert head + (front + PutShard(shards[k]) + after) == (head + front) + PutShard(shards[k]) + after;
  }

  lemma ShardParts(shard: Shard, s: ByteString, before: ByteString, after: ByteString)
    requires Encodable(shard) && s == before + PutShard(shard) + after
    ensures |before| + 16 + |shard.blob| <= |s|
    ensures WordAt(s, |before|) == shard.tile.zoom && WordAt(s, |before| + 4) == shard.tile.x
    ensures WordAt(s, |before| + 8) == shard.tile.y && WordAt(s, |before| + 12) == |shard.blob|
    ensures s[|before| + 16..|before| + 16 + |shard.blob|] == shard.blob
  {
    var z, x, y := PutU32(shard.tile.zoom), PutU32(shard.tile.x), PutU32(shard.tile.y);
    var n, blob := PutU32(|shard.blob|), shard.blob;
    assert s == before + z + x + y + n + blob + after;
    FieldParts(s, before, shard.tile.zoom, x, y + n + blob + after);
    assert s == (before + z) + x + (y + n + blob + after);
    WordIn(s, before + z, shard.tile.x, y + n + blob + after);
    assert s == (before + z + x) + y + (n + blob + after);
    WordIn(s, before + z + x, shard.tile.y, n + blob + after);
    assert s == (before + z + x + y) + n + (blob + after);
    WordIn(s, before + z + x + y, |shard.blob|, blob + after);
  }

  lemma FieldParts(s: ByteString, before: ByteString, v: U32, next: ByteString, after: ByteString)
    requires s == before + PutU32(v) + next + after
    ensures |before| + 4 <= |s| && WordAt(s, |before|) == v
  {
    assert s == before + PutU32(v) + (next + after);
    WordIn(s, before, v, next + after);
  }

  /** A payload is its version and its number of tiles; then each tile is zoom, x, y, length and blob. */
  lemma ShardLayout(shards: seq<Shard>, k: nat)
    requires k < |shards| < 0x1_0000_0000 && Encodable(shards[k])
    ensures var s, at, shard := PayloadText(shards), PayloadBytes(shards[..k]), shards[k];
            && at + 16 + |shard.blob| <= |s| && WordAt(s, 0) == 1 && WordAt(s, 4) == |shards|
            && WordAt(s, at) == shard.tile.zoom && WordAt(s, at + 4) == shard.tile.x
            && WordAt(s, at + 8) == shard.tile.y && WordAt(s, at + 12) == |shard.blob|
            && s[at + 16..at + 16 + |shard.blob|] == shard.blob
  {
    Headed(PAYLOAD_VERSION, |shards|, PutMany(PutShard, shards));
    var before, after := PayloadParts(shards, k);
    ShardParts(shards[k], PayloadText(shards), before, after);
  }

  /** A blob is its segments in order, each the two ends as four 16-bit numbers. */
  lemma SegmentLayout(segments: seq<SegmentKey>, k: nat)
    requires k < |segments|
    ensures var s, at, segment := Blob(segments), 8 * k, segments[k];
            && at + 8 <= |s| && ShortAt(s, at) == segment.x1 && ShortAt(s, at + 2) == segment.y1
            && ShortAt(s, at + 4) == segment.x2 && ShortAt(s, at + 6) == segment.y2
  {
    var s, segment := Blob(segments), segments[k];
    ManyAt(PutSegment, segments, k);
    ManyLength(PutSegment, 8, segments[..k]);
    var a, b := PutMany(PutSegment, segments[..k]), PutMany(PutSegment, segments[k + 1..]);
    SegmentParts(segment, s, a, b);
  }

  lemma SegmentParts(segment: SegmentKey, s: ByteString, a: ByteString, b: ByteString)
    requires s == a + PutSegment(segment) + b
    ensures |a| + 8 <= |s| && ShortAt(s, |a|) == segment.x1 && ShortAt(s, |a| + 2) == segment.y1
    ensures ShortAt(s, |a| + 4) == segment.x2 && ShortAt(s, |a| + 6) == segment.y2
  {
    var x1, y1, x2, y2 := PutI16(segment.x1), PutI16(segment.y1), PutI16(segment.x2), PutI16(segment.y2);
    assert s == a + x1 + (y1 + x2 + y2 + b);
    ShortIn(s, a, segment.x1, y1 + x2 + y2 + b);
    assert s == (a + x1) + y1 + (x2 + y2 + b);
    ShortIn(s, a + x1, segment.y1, x2 + y2 + b);
    assert s == (a + x1 + y1) + x2 + (y2 + b);
    ShortIn(s, a + x1 + y1, segment.x2, y2 + b);
    assert s == (a + x1 + y1 + x2) + y2 + b;
    ShortIn(s, a + x1 + y1 + x2, segment.y2, b);
  }
}
