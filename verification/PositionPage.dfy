/** The bounded position page format v1 (compute/src/lib.rs). Coordinates are their 32-bit words. */
module PositionPage {
  import opened Outcomes
  import opened Bytes
  import opened Wire

  const VERSION: U32 := 1
  const MAX_DRIVES: nat := 128
  const MAX_PAGE_BYTES: nat := 8 * 1024 * 1024

  datatype Point = Point(latitude: U32, longitude: U32)
  /** One complete drive; pages carry points as coordinate words. */
  datatype Drive<+P> = Drive(id: I32, points: seq<P>)
  type WireDrive = Drive<Point>

  datatype PageError = TooLarge | WrongVersion | TooManyDrives | Truncated | Trailing

  // ----------------------------------------------------------------- encoding

  ghost function PutPoint(p: Point): ByteString {
    PutU32(p.latitude) + PutU32(p.longitude)
  }

  ghost function PutDrive(drive: WireDrive): ByteString {
    PutI32(drive.id) + PutCount(|drive.points|) + PutMany(PutPoint, drive.points)
  }

  ghost function EncodePage(drives: seq<WireDrive>): ByteString {
    PutU32(VERSION) + PutCount(|drives|) + PutMany(PutDrive, drives)
  }

  /** What the typed validator computes: 8 bytes of header and 8 + 8 * points for each drive. */
  function PageBytes<P>(drives: seq<Drive<P>>): nat {
    if drives == [] then 8 else PageBytes(drives[1..]) + 8 + 8 * |drives[0].points|
  }

  /** `validate_typed_position_page`. */
  predicate ValidTypedPage<P>(drives: seq<Drive<P>>) {
    |drives| <= MAX_DRIVES && PageBytes(drives) <= MAX_PAGE_BYTES
  }

  predicate Countable(drive: WireDrive) {
    |drive.points| < 0x1_0000_0000
  }

  lemma DriveLength(drive: WireDrive)
    ensures |PutDrive(drive)| == 8 + 8 * |drive.points|
  {
    ManyLength(PutPoint, 8, drive.points);
  }

  lemma {:induction false} DrivesLength(drives: seq<WireDrive>)
    ensures |PutMany(PutDrive, drives)| + 8 == PageBytes(drives)
  {
    if drives != [] {
      DriveLength(drives[0]);
      DrivesLength(drives[1..]);
    }
  }

  // ------------------------------------------------------------------ parsing

  function TakePoint(s: ByteString): Option<(Point, ByteString)> {
    var (latitude, s1) :- TakeU32(s);
    var (longitude, rest) :- TakeU32(s1);
    Some((Point(latitude, longitude), rest))
  }

  function TakeDrive(s: ByteString): Option<(WireDrive, ByteString)> {
    var (id, s1) :- TakeI32(s);
    var (count, s2) :- TakeU32(s1);
    if count * 8 > |s2| then None
    else
      var (points, rest) :- TakeMany(TakePoint, s2, count);
      Some((Drive(id, points), rest))
  }

  /** The drive count, after the version. */
  function TakeHeader(s: ByteString): Result<(U32, ByteString), PageError> {
    match TakeU32(s)
    case None => Failure(Truncated)
    case Some((version, s1)) =>
      if version != VERSION then Failure(WrongVersion)
      else
        match TakeU32(s1)
        case None => Failure(Truncated)
        case Some((count, rest)) => if count > MAX_DRIVES then Failure(TooManyDrives) else Success((count, rest))
  }

  function ParsePage(bytes: ByteString): Result<seq<WireDrive>, PageError> {
    if |bytes| > MAX_PAGE_BYTES then Failure(TooLarge)
    else
      var (count, body) :- TakeHeader(bytes);
      match TakeMany(TakeDrive, body, count)
      case None => Failure(Truncated)
      case Some((drives, rest)) => if rest != [] then Failure(Trailing) else Success(drives)
  }

  // -------------------------------------------------------------- exactness

  lemma PointsUndo()
    ensures Undoes(TakePoint, PutPoint, _ => true)
  {
    forall p: Point, rest: ByteString
      ensures TakePoint(PutPoint(p) + rest) == Some((p, rest))
    {
      PutTakeU32(p.longitude, rest);
      PutTakeU32(p.latitude, PutU32(p.longitude) + rest);
      assert PutPoint(p) + rest == PutU32(p.latitude) + (PutU32(p.longitude) + rest);
    }
  }

  lemma PointsExact()
    ensures Exact(TakePoint, PutPoint, _ => true)
  {
    forall s: ByteString | TakePoint(s).Some?
      ensures s == PutPoint(TakePoint(s).value.0) + TakePoint(s).value.1
    {
      TakePutU32(s);
      TakePutU32(TakeU32(s).value.1);
    }
  }

  lemma PointListUndoes(points: seq<Point>, rest: ByteString)
    ensures var body := PutMany(PutPoint, points) + rest;
            |points| * 8 <= |body| && TakeMany(TakePoint, body, |points|) == Some((points, rest))
  {
    ManyLength(PutPoint, 8, points);
    PointsUndo();
    ManyUndoes(TakePoint, PutPoint, _ => true, points, rest);
  }

  lemma DriveUndoes(drive: WireDrive, rest: ByteString)
    requires Countable(drive)
    ensures TakeDrive(PutDrive(drive) + rest) == Some((drive, rest))
  {
    var count, body := PutU32(|drive.points|), PutMany(PutPoint, drive.points) + rest;
    assert PutDrive(drive) + rest == PutI32(drive.id) + (count + body);
    PutTakeI32(drive.id, count + body);
    PutTakeU32(|drive.points|, body);
    PointListUndoes(drive.points, rest);
  }

  lemma DriveExact(s: ByteString)
    requires TakeDrive(s).Some?
    ensures var (drive, rest) := TakeDrive(s).value;
            Countable(drive) && s == PutDrive(drive) + rest
  {
    var (id, s1) := TakeI32(s).value;
    var (count, s2) := TakeU32(s1).value;
    TakePutI32(s);
    TakePutU32(s1);
    PointsExact();
    ManyExact(TakePoint, PutPoint, _ => true, s2, count);
    var (points, rest) := TakeMany(TakePoint, s2, count).value;
    assert s == PutI32(id) + PutU32(count) + PutMany(PutPoint, points) + rest;
  }

  lemma HeaderUndoes(count: nat, rest: ByteString)
    requires count <= MAX_DRIVES
    ensures TakeHeader(PutU32(VERSION) + PutCount(count) + rest) == Success((count, rest))
  {
    PutTakeU32(count, rest);
    PutTakeU32(VERSION, PutU32(count) + rest);
    assert PutU32(VERSION) + PutCount(count) + rest == PutU32(VERSION) + (PutU32(count) + rest);
  }

  lemma HeaderExact(s: ByteString)
    requires TakeHeader(s).Success?
    ensures var (count, rest) := TakeHeader(s).value;
            count <= MAX_DRIVES && s == PutU32(VERSION) + PutCount(count) + rest
  {
    TakePutU32(s);
    TakePutU32(TakeU32(s).value.1);
  }

  lemma {:induction false} SmallPagesAreCountable(drives: seq<WireDrive>)
    requires PageBytes(drives) <= MAX_PAGE_BYTES
    ensures forall d :: d in drives ==> Countable(d)
  {
    if drives != [] {
      SmallPagesAreCountable(drives[1..]);
    }
  }

  /** Parsing undoes encoding for every page within the caps. */
  lemma ParseUndoesEncode(drives: seq<WireDrive>)
    requires ValidTypedPage(drives)
    ensures ParsePage(EncodePage(drives)) == Success(drives)
  {
    var body := PutMany(PutDrive, drives);
    DrivesLength(drives);
    SmallPagesAreCountable(drives);
    forall d: WireDrive, rest: ByteString | Countable(d)
      ensures TakeDrive(PutDrive(d) + rest) == Some((d, rest))
    {
      DriveUndoes(d, rest);
    }
    ManyUndoes(TakeDrive, PutDrive, Countable, drives, []);
    assert body + [] == body;
    HeaderUndoes(|drives|, body);
  }

  /** Every accepted byte string encodes its result: its length is exact and it passes the typed validator. */
  lemma AcceptedIsEncoding(bytes: ByteString)
    requires ParsePage(bytes).Success?
    ensures var drives := ParsePage(bytes).value;
            && ValidTypedPage(drives)
            && bytes == EncodePage(drives)
            && |bytes| == PageBytes(drives)
  {
    HeaderExact(bytes);
    var (count, body) := TakeHeader(bytes).value;
    forall s: ByteString | TakeDrive(s).Some?
      ensures Countable(TakeDrive(s).value.0) && s == PutDrive(TakeDrive(s).value.0) + TakeDrive(s).value.1
    {
      DriveExact(s);
    }
    ManyExact(TakeDrive, PutDrive, Countable, body, count);
    var drives := ParsePage(bytes).value;
    assert body == PutMany(PutDrive, drives) + [];
    DrivesLength(drives);
  }

  /** The parser accepts exactly the encodings of the pages that the typed validator admits. */
  lemma AcceptsExactlyEncodings(bytes: ByteString, drives: seq<WireDrive>)
    ensures ParsePage(bytes) == Success(drives) <==> ValidTypedPage(drives) && bytes == EncodePage(drives)
  {
    if ParsePage(bytes) == Success(drives) {
      AcceptedIsEncoding(bytes);
    }
    if ValidTypedPage(drives) {
      ParseUndoesEncode(drives);
    }
  }

  // ---------------------------------------------------------- the byte reader

  /** The cursor over a page; every read moves `offset` or fails. */
  class Reader {
    const bytes: ByteString
    var offset: nat

    constructor (bytes: ByteString)
      ensures this.bytes == bytes && offset == 0
    {
      this.bytes := bytes;
      offset := 0;
    }

    ghost predicate Valid()
      reads this
    {
      offset <= |bytes|
    }

    function Rest(): ByteString
      requires Valid()
      reads this
    {
      bytes[offset..]
    }

    method ReadExact(count: nat) returns (r: Option<ByteString>)
      requires Valid()
      modifies this
      ensures Valid()
      ensures r.Some? <==> count <= |old(Rest())|
      ensures r.Some? ==> r.value == old(Rest())[..count] && Rest() == old(Rest())[count..]
      ensures r.None? ==> offset == old(offset)
    {
      var end := offset + count;
      if end > |bytes| {
        return None;
      }
      r := Some(bytes[offset..end]);
      offset := end;
    }

    method ReadU32() returns (r: Option<U32>)
      requires Valid()
      modifies this
      ensures Valid()
      ensures match TakeU32(old(Rest()))
              case None => r.None?
              case Some((v, rest)) => r == Some(v) && Rest() == rest
    {
      var word := ReadExact(4);
      if word.None? {
        return None;
      }
      var w := word.value;
      return Some(Word(w[0], w[1], w[2], w[3]));
    }

    method ReadI32() returns (r: Option<I32>)
      requires Valid()
      modifies this
      ensures Valid()
      ensures match TakeI32(old(Rest()))
              case None => r.None?
              case Some((v, rest)) => r == Some(v) && Rest() == rest
    {
      var word := ReadU32();
      if word.None? {
        return None;
      }
      return Some(FromU32(word.value));
    }

    method ReadPoint() returns (r: Option<Point>)
      requires Valid()
      modifies this
      ensures Valid()
      ensures match TakePoint(old(Rest()))
              case None => r.None?
              case Some((p, rest)) => r == Some(p) && Rest() == rest
    {
      var latitude := ReadU32();
      if latitude.None? {
        return None;
      }
      var longitude := ReadU32();
      if longitude.None? {
        return None;
      }
      return Some(Point(latitude.value, longitude.value));
    }

    method ReadPoints(count: nat) returns (r: Option<seq<Point>>)
      requires Valid()
      modifies this
      ensures Valid()
      ensures match TakeMany(TakePoint, old(Rest()), count)
              case None => r.None?
              case Some((points, rest)) => r == Some(points) && Rest() == rest
    {
      var points := [];
      AfterLaws(points, Point(0, 0), TakeMany(TakePoint, Rest(), count));
      for i := 0 to count
        invariant Valid()
        invariant TakeMany(TakePoint, old(Rest()), count) == After(points, TakeMany(TakePoint, Rest(), count - i))
      {
        ghost var before := Rest();
        var p := ReadPoint();
        if p.None? {
          return None;
        }
        TakeManyStep(TakePoint, before, count - i);
        AfterLaws(points, p.value, TakeMany(TakePoint, Rest(), count - i - 1));
        points := points + [p.value];
      }
      assert points + [] == points;
      return Some(points);
    }

    method ReadDrive() returns (r: Option<WireDrive>)
      requires Valid()
      modifies this
      ensures Valid()
      ensures match TakeDrive(old(Rest()))
              case None => r.None?
              case Some((drive, rest)) => r == Some(drive) && Rest() == rest
    {
      var id := ReadI32();
      if id.None? {
        return None;
      }
      var count := ReadU32();
      if count.None? || count.value * 8 > |bytes| - offset {
        return None;
      }
      var points := ReadPoints(count.value);
      if points.None? {
        return None;
      }
      return Some(Drive(id.value, points.value));
    }

    method ReadDrives(count: nat) returns (r: Option<seq<WireDrive>>)
      requires Valid()
      modifies this
      ensures Valid()
      ensures match TakeMany(TakeDrive, old(Rest()), count)
              case None => r.None?
              case Some((drives, rest)) => r == Some(drives) && Rest() == rest
    {
      var drives := [];
      AfterLaws(drives, Drive(0, []), TakeMany(TakeDrive, Rest(), count));
      for i := 0 to count
        invariant Valid()
        invariant TakeMany(TakeDrive, old(Rest()), count) == After(drives, TakeMany(TakeDrive, Rest(), count - i))
      {
        ghost var before := Rest();
        var drive := ReadDrive();
        if drive.None? {
          return None;
        }
        TakeManyStep(TakeDrive, before, count - i);
        AfterLaws(drives, drive.value, TakeMany(TakeDrive, Rest(), count - i - 1));
        drives := drives + [drive.value];
      }
      assert drives + [] == drives;
      return Some(drives);
    }

    method ReadHeader() returns (r: Result<U32, PageError>)
      requires Valid()
      modifies this
      ensures Valid()
      ensures match TakeHeader(old(Rest()))
              case Failure(e) => r == Failure(e)
              case Success((count, rest)) => r == Success(count) && Rest() == rest
    {
      var version := ReadU32();
      if version.None? {
        return Failure(Truncated);
      }
      if version.value != VERSION {
        return Failure(WrongVersion);
      }
      var count := ReadU32();
      if count.None? {
        return Failure(Truncated);
      }
      if count.value > MAX_DRIVES {
        return Failure(TooManyDrives);
      }
      return Success(count.value);
    }
  }

  /** `parse_position_page_v1`, with its reader moving over the bytes. */
  method ParsePositionPage(bytes: ByteString) returns (r: Result<seq<WireDrive>, PageError>)
    ensures r == ParsePage(bytes)
  {
    if |bytes| > MAX_PAGE_BYTES {
      return Failure(TooLarge);
    }
    var reader := new Reader(bytes);
    assert reader.Rest() == bytes;
    var count := reader.ReadHeader();
    if count.Failure? {
      return Failure(count.error);
    }
    var drives := reader.ReadDrives(count.value);
    if drives.None? {
      return Failure(Truncated);
    }
    if |bytes| - reader.offset != 0 {
      return Failure(Trailing);
    }
    return Success(drives.value);
  }
}
