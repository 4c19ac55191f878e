/**
  * The layout of one b-tree page of a SQLite image (protocol/conformance/hub_sync.py): header,
  * cell pointers, cells, freeblocks and fragments, with every byte accounted for.
  */
module SqlitePage {
  import opened Outcomes
  import opened Bytes
  import opened BigEndian
  import opened Varint

  const PAGE := 4096
  const MAX_CELLS := 2044
  const INDEX_INTERIOR := 0x02
  const TABLE_INTERIOR := 0x05
  const INDEX_LEAF := 0x0A
  const TABLE_LEAF := 0x0D

  type Page = p: ByteString | |p| == PAGE witness seq(PAGE, _ => 0)

  function U16(page: Page, i: nat): nat
    requires i + 2 <= PAGE
  {
    page[i] as int * 256 + page[i + 1] as int
  }

  function U32(page: Page, i: nat): nat
    requires i + 4 <= PAGE
  {
    U16(page, i) * 65536 + U16(page, i + 2)
  }

  // ------------------------------------------------------------------- header

  datatype Header = Header(kind: nat, firstFree: nat, cellCount: nat, contentStart: nat, fragments: nat,
                           pointerStart: nat, pointerEnd: nat)
  {
    predicate Interior() {
      kind == INDEX_INTERIOR || kind == TABLE_INTERIOR
    }

    predicate Sound() {
      pointerStart <= pointerEnd <= contentStart <= PAGE && pointerEnd == pointerStart + 2 * cellCount
    }
  }

  /** The header of a page; `schema` says whether it belongs to the schema table. */
  function ReadHeader(page: Page, number: nat, schema: bool): (r: Option<Header>)
    ensures r.Some? ==> r.value.Sound() && (r.value.Interior() ==> r.value.pointerStart >= 4)
  {
    var at := if number == 1 then 100 else 0;
    var kind := page[at];
    if kind !in (if schema then {TABLE_INTERIOR, TABLE_LEAF} else {INDEX_INTERIOR, INDEX_LEAF}) then None
    else
      var interior := kind == INDEX_INTERIOR || kind == TABLE_INTERIOR;
      var cellCount := U16(page, at + 3);
      var contentStart := if U16(page, at + 5) == 0 then PAGE else U16(page, at + 5);
      var pointerStart := at + if interior then 12 else 8;
      if cellCount > MAX_CELLS || pointerStart + cellCount * 2 > contentStart || contentStart > PAGE then None
      else
        Some(Header(kind, U16(page, at + 1), cellCount, contentStart, page[at + 7],
                    pointerStart, pointerStart + cellCount * 2))
  }

  lemma U16IsBig(page: Page, i: nat)
    requires i + 2 <= PAGE
    ensures U16(page, i) == Big(page[i..i + 2])
  {
    BigOfTwo(page[i], page[i + 1]);
    assert page[i..i + 2] == [page[i], page[i + 1]];
  }

  lemma U32IsBig(page: Page, i: nat)
    requires i + 4 <= PAGE
    ensures U32(page, i) == Big(page[i..i + 4])
  {
    BigOfFour(page[i], page[i + 1], page[i + 2], page[i + 3]);
    assert page[i..i + 4] == [page[i], page[i + 1], page[i + 2], page[i + 3]];
  }

  /** A page header as it is written. */
  function HeaderBytes(kind: Byte, firstFree: nat, cellCount: nat, start: nat, fragments: Byte): ByteString {
    [kind] + PutBig(firstFree, 2) + PutBig(cellCount, 2) + PutBig(start, 2) + [fragments]
  }

  /** Reading undoes writing; a start of zero stands for the end of the page. */
  lemma HeaderReadsBack(page: Page, number: nat, schema: bool, kind: Byte, firstFree: nat, cellCount: nat, start: nat,
                        fragments: Byte)
    requires firstFree < 65536 && cellCount < 65536 && start < 65536
    requires var at := if number == 1 then 100 else 0;
             page[at..at + 8] == HeaderBytes(kind, firstFree, cellCount, start, fragments)
    ensures ReadHeader(page, number, schema) == HeaderOf(number, schema, kind, firstFree, cellCount, start, fragments)
  {
    HeaderFields(page, if number == 1 then 100 else 0, kind, firstFree, cellCount, start, fragments);
  }

  /** The header that was written, if its kind belongs to the table and its parts have room. */
  function HeaderOf(number: nat, schema: bool, kind: nat, firstFree: nat, cellCount: nat, start: nat,
                    fragments: nat): Option<Header> {
    var contentStart := if start == 0 then PAGE else start;
    var interior := kind == INDEX_INTERIOR || kind == TABLE_INTERIOR;
    var pointerStart := (if number == 1 then 100 else 0) + if interior then 12 else 8;
    var belongs := if schema then kind == TABLE_INTERIOR || kind == TABLE_LEAF
                   else kind == INDEX_INTERIOR || kind == INDEX_LEAF;
    if belongs && cellCount <= MAX_CELLS && pointerStart + 2 * cellCount <= contentStart <= PAGE then
      Some(Header(kind, firstFree, cellCount, contentStart, fragments, pointerStart, pointerStart + 2 * cellCount))
    else None
  }

  lemma FieldReadsBack(page: Page, at: nat, n: nat, i: nat, value: nat)
    requires at + n <= PAGE && i + 2 <= n && value < 65536 && page[at..at + n][i..i + 2] == PutBig(value, 2)
    ensures U16(page, at + i) == value
  {
    SliceOfSlice(page, at, n, i, i + 2);
    PutBigIsExact(value, 2);
    U16IsBig(page, at + i);
  }

  lemma HeaderFields(page: Page, at: nat, kind: Byte, firstFree: nat, cellCount: nat, start: nat, fragments: Byte)
    requires firstFree < 65536 && cellCount < 65536 && start < 65536 && at + 8 <= PAGE
    requires page[at..at + 8] == HeaderBytes(kind, firstFree, cellCount, start, fragments)
    ensures page[at] == kind && page[at + 7] == fragments
    ensures U16(page, at + 1) == firstFree && U16(page, at + 3) == cellCount && U16(page, at + 5) == start
  {
    PutBigIsExact(firstFree, 2);
    PutBigIsExact(cellCount, 2);
    PutBigIsExact(start, 2);
    var t := page[at..at + 8];
    assert t[0] == page[at] && t[7] == page[at + 7];
    assert t[1..3] == PutBig(firstFree, 2) && t[3..5] == PutBig(cellCount, 2) && t[5..7] == PutBig(start, 2);
    FieldReadsBack(page, at, 8, 1, firstFree);
    FieldReadsBack(page, at, 8, 3, cellCount);
    FieldReadsBack(page, at, 8, 5, start);
  }

  /** What is read was written: the bytes of a header are those of its fields. */
  lemma HeaderWasWritten(page: Page, number: nat, schema: bool) returns (start: nat)
    requires ReadHeader(page, number, schema).Some?
    ensures var at, h := if number == 1 then 100 else 0, ReadHeader(page, number, schema).value;
            && h.kind < 256 && h.fragments < 256 && start < 65536
            && page[at..at + 8] == HeaderBytes(h.kind, h.firstFree, h.cellCount, start, h.fragments)
            && HeaderOf(number, schema, h.kind, h.firstFree, h.cellCount, start, h.fragments) == Some(h)
  {
    var at, h := if number == 1 then 100 else 0, ReadHeader(page, number, schema).value;
    start := U16(page, at + 5);
    FieldWasWritten(page, at + 1);
    FieldWasWritten(page, at + 3);
    FieldWasWritten(page, at + 5);
    assert page[at..at + 8]
        == [page[at]] + page[at + 1..at + 3] + page[at + 3..at + 5] + page[at + 5..at + 7] + [page[at + 7]];
  }

  lemma FieldWasWritten(page: Page, at: nat)
    requires at + 2 <= PAGE
    ensures page[at..at + 2] == PutBig(U16(page, at), 2)
  {
    U16IsBig(page, at);
    BigReadsAll(page[at..at + 2]);
  }

  // -------------------------------------------------------------------- ranges

  datatype Range = Range(lo: nat, hi: nat)

  ghost predicate In(ranges: seq<Range>, i: int) {
    exists k :: 0 <= k < |ranges| && ranges[k].lo <= i < ranges[k].hi
  }

  predicate Apart(a: Range, b: Range) {
    a.hi <= b.lo || b.hi <= a.lo
  }

  predicate AllApart(ranges: seq<Range>) {
    forall i, j :: 0 <= i < j < |ranges| ==> Apart(ranges[i], ranges[j])
  }

  predicate Increasing(ranges: seq<Range>) {
    forall i, j :: 0 <= i < j < |ranges| ==> ranges[i].hi <= ranges[j].lo
  }

  predicate Within(ranges: seq<Range>, lo: nat, hi: nat) {
    forall i :: 0 <= i < |ranges| ==> lo <= ranges[i].lo < ranges[i].hi <= hi
  }

  lemma InAppend(ranges: seq<Range>, r: Range, i: int)
    ensures In(ranges + [r], i) <==> In(ranges, i) || r.lo <= i < r.hi
  {
    var all := ranges + [r];
    if In(ranges, i) {
      var k :| 0 <= k < |ranges| && ranges[k].lo <= i < ranges[k].hi;
      assert all[k] == ranges[k];
    }
    if r.lo <= i < r.hi {
      assert all[|ranges|] == r;
    }
  }

  // ---------------------------------------------------------------- freeblocks

  predicate Zero(page: Page, lo: nat, hi: nat)
    requires hi <= PAGE
  {
    forall i :: lo <= i < hi ==> page[i] == 0
  }

  /** One freeblock: a next offset, a size of at least four, and zeros. */
  function FreeblockAt(page: Page, contentStart: nat, at: nat): Option<(Range, nat)> {
    if !(contentStart <= at <= PAGE - 4) then None
    else
      var next, size := U16(page, at), U16(page, at + 2);
      if size < 4 || at + size > PAGE || !Zero(page, at + 4, at + size) || (next != 0 && next < at + size) then None
      else Some((Range(at, at + size), next))
  }

  /** The freeblocks of a chain, which runs forward through the page. */
  function Freeblocks(page: Page, contentStart: nat, at: nat): Option<seq<Range>>
    decreases PAGE - at
  {
    if at == 0 then Some([])
    else
      match FreeblockAt(page, contentStart, at)
      case None => None
      case Some((block, next)) =>
        match if next == 0 then Some([]) else Freeblocks(page, contentStart, next)
        case None => None
        case Some(rest) => Some([block] + rest)
  }

  lemma {:induction false} FreeblocksIncrease(page: Page, contentStart: nat, at: nat)
    requires Freeblocks(page, contentStart, at).Some?
    ensures Increasing(Freeblocks(page, contentStart, at).value)
    ensures Within(Freeblocks(page, contentStart, at).value, contentStart, PAGE)
    ensures forall r <- Freeblocks(page, contentStart, at).value :: at <= r.lo
    decreases PAGE - at
  {
    if at != 0 {
      var next := FreeblockAt(page, contentStart, at).value.1;
      if next != 0 {
        FreeblocksIncrease(page, contentStart, next);
      }
    }
  }

  // ----------------------------------------------------- freeblocks as written

  /** Where a freeblock chain goes on after the k-th block; zero ends it. */
  function NextBlock(frees: seq<Range>, k: nat): nat {
    if k + 1 < |frees| then frees[k + 1].lo else 0
  }

  /** A freeblock as it is written: the offset of the next one, its own size, and zeros. */
  predicate IsBlock(page: Page, contentStart: nat, frees: seq<Range>, k: nat)
    requires k < |frees|
  {
    && contentStart <= frees[k].lo && frees[k].lo + 4 <= frees[k].hi <= PAGE
    && (k + 1 < |frees| ==> frees[k].hi <= frees[k + 1].lo)
    && HoldsBlock(page, frees[k], NextBlock(frees, k))
  }

  predicate HoldsBlock(page: Page, r: Range, next: nat)
    requires r.lo + 4 <= r.hi <= PAGE
  {
    && page[r.lo..r.lo + 2] == PutBig(next, 2)
    && page[r.lo + 2..r.lo + 4] == PutBig(r.hi - r.lo, 2)
    && page[r.lo + 4..r.hi] == Zeros(r.hi - r.lo - 4)
  }

  lemma BlockBytes(page: Page, r: Range, next: nat)
    requires r.lo + 4 <= r.hi <= PAGE && next < PAGE
    ensures HoldsBlock(page, r, next)
       <==> U16(page, r.lo) == next && U16(page, r.lo + 2) == r.hi - r.lo && Zero(page, r.lo + 4, r.hi)
  {
    NumberIs(page, r.lo, next);
    NumberIs(page, r.lo + 2, r.hi - r.lo);
    ZeroIs(page, r.lo + 4, r.hi);
  }

  predicate AreBlocks(page: Page, contentStart: nat, first: nat, frees: seq<Range>) {
    && first == (if frees == [] then 0 else frees[0].lo)
    && forall k :: 0 <= k < |frees| ==> IsBlock(page, contentStart, frees, k)
  }

  lemma ZeroIs(page: Page, lo: nat, hi: nat)
    requires lo <= hi <= PAGE
    ensures Zero(page, lo, hi) <==> page[lo..hi] == Zeros(hi - lo)
  {
    var part := page[lo..hi];
    assert forall i :: lo <= i < hi ==> page[i] == part[i - lo];
    assert forall i :: 0 <= i < hi - lo ==> part[i] == page[lo + i];
  }

  lemma NumberIs(page: Page, at: nat, v: nat)
    requires at + 2 <= PAGE && v < 65536
    ensures U16(page, at) == v <==> page[at..at + 2] == PutBig(v, 2)
  {
    FieldWasWritten(page, at);
    U16IsBig(page, at);
    PutBigIsExact(v, 2);
  }

  /** One block is read exactly when it is written so. */
  lemma BlockIsWritten(page: Page, contentStart: nat, frees: seq<Range>)
    requires 0 < contentStart && frees != [] && frees[0].hi <= PAGE
    requires |frees| > 1 ==> contentStart <= frees[1].lo < PAGE
    ensures IsBlock(page, contentStart, frees, 0)
       <==> FreeblockAt(page, contentStart, frees[0].lo) == Some((frees[0], NextBlock(frees, 0)))
  {
    if frees[0].lo + 4 <= frees[0].hi {
      BlockBytes(page, frees[0], NextBlock(frees, 0));
    }
  }

  lemma BlocksOpen(page: Page, contentStart: nat, frees: seq<Range>)
    requires frees != []
    ensures AreBlocks(page, contentStart, frees[0].lo, frees)
       <==> IsBlock(page, contentStart, frees, 0) && AreBlocks(page, contentStart, NextBlock(frees, 0), frees[1..])
  {
    forall k | 0 <= k < |frees| - 1
      ensures IsBlock(page, contentStart, frees, k + 1) <==> IsBlock(page, contentStart, frees[1..], k)
    {
    }
    if IsBlock(page, contentStart, frees, 0) && AreBlocks(page, contentStart, NextBlock(frees, 0), frees[1..]) {
      forall k | 0 <= k < |frees| ensures IsBlock(page, contentStart, frees, k) {
        if k > 0 {
          assert IsBlock(page, contentStart, frees[1..], k - 1);
        }
      }
    }
  }

  lemma FreeblocksStart(page: Page, contentStart: nat, at: nat)
    requires Freeblocks(page, contentStart, at).Some?
    ensures var frees := Freeblocks(page, contentStart, at).value;
            if at == 0 then frees == [] else frees != [] && frees[0].lo == at && contentStart <= at < PAGE
  {
  }

  lemma FreeblocksOpen(page: Page, contentStart: nat, frees: seq<Range>)
    requires 0 < contentStart && frees != [] && frees[0].lo > 0
    ensures Freeblocks(page, contentStart, frees[0].lo) == Some(frees)
       <==> && FreeblockAt(page, contentStart, frees[0].lo) == Some((frees[0], NextBlock(frees, 0)))
            && Freeblocks(page, contentStart, NextBlock(frees, 0)) == Some(frees[1..])
  {
    var at, next := frees[0].lo, NextBlock(frees, 0);
    if Freeblocks(page, contentStart, at) == Some(frees) {
      var read := FreeblockAt(page, contentStart, at).value.1;
      var rest := if read == 0 then Some([]) else Freeblocks(page, contentStart, read);
      assert frees == [frees[0]] + rest.value && frees[1..] == rest.value;
      assert Freeblocks(page, contentStart, read) == rest;
      FreeblocksStart(page, contentStart, read);
    } else if Freeblocks(page, contentStart, next) == Some(frees[1..]) {
      FreeblocksStart(page, contentStart, next);
      assert [frees[0]] + frees[1..] == frees;
    }
  }

  /** The chain is read exactly when its blocks are written on the page, forward and each with zeros. */
  lemma {:induction false} FreeblocksAreWritten(page: Page, contentStart: nat, first: nat, frees: seq<Range>)
    requires 0 < contentStart
    ensures Freeblocks(page, contentStart, first) == Some(frees) <==> AreBlocks(page, contentStart, first, frees)
    decreases |frees|
  {
    if Freeblocks(page, contentStart, first).Some? {
      FreeblocksStart(page, contentStart, first);
    }
    if frees != [] && first == frees[0].lo > 0 {
      BlocksOpen(page, contentStart, frees);
      FreeblocksOpen(page, contentStart, frees);
      FreeblocksAreWritten(page, contentStart, NextBlock(frees, 0), frees[1..]);
      if AreBlocks(page, contentStart, NextBlock(frees, 0), frees[1..]) {
        FirstBlock(page, contentStart, frees);
      }
    } else if frees != [] {
      assert AreBlocks(page, contentStart, first, frees) ==> IsBlock(page, contentStart, frees, 0);
    }
  }

  lemma FirstBlock(page: Page, contentStart: nat, frees: seq<Range>)
    requires 0 < contentStart && frees != []
    requires AreBlocks(page, contentStart, NextBlock(frees, 0), frees[1..])
    ensures IsBlock(page, contentStart, frees, 0)
       <==> FreeblockAt(page, contentStart, frees[0].lo) == Some((frees[0], NextBlock(frees, 0)))
  {
    if |frees| > 1 {
      assert IsBlock(page, contentStart, frees[1..], 0);
    }
    if frees[0].hi <= PAGE {
      BlockIsWritten(page, contentStart, frees);
    }
  }

  // ----------------------------------------------------------------- byte maps

  method Mark(marks: array<bool>, lo: nat, hi: nat)
    requires lo <= hi <= marks.Length
    modifies marks
    ensures forall i :: 0 <= i < marks.Length ==> marks[i] == (old(marks[i]) || lo <= i < hi)
  {
    for k := lo to hi
      invariant forall i :: 0 <= i < marks.Length ==> marks[i] == (old(marks[i]) || lo <= i < k)
    {
      marks[k] := true;
    }
  }

  method AnyMarked(marks: array<bool>, lo: nat, hi: nat) returns (any: bool)
    requires lo <= hi <= marks.Length
    ensures any <==> exists i :: lo <= i < hi && marks[i]
  {
    for k := lo to hi
      invariant forall i :: lo <= i < k ==> !marks[i]
    {
      if marks[k] {
        return true;
      }
    }
    return false;
  }

  /** The bytes that a page has in use: the front and some ranges. */
  ghost predicate Marks(marks: seq<bool>, front: nat, ranges: seq<Range>) {
    |marks| == PAGE && forall i :: 0 <= i < PAGE ==> (marks[i] <==> i < front || In(ranges, i))
  }

  lemma MarksAppend(before: seq<bool>, after: seq<bool>, front: nat, ranges: seq<Range>, r: Range)
    requires Marks(before, front, ranges)
    requires |after| == PAGE && forall i :: 0 <= i < PAGE ==> after[i] == (before[i] || r.lo <= i < r.hi)
    ensures Marks(after, front, ranges + [r])
  {
    forall i | 0 <= i < PAGE ensures after[i] <==> i < front || In(ranges + [r], i) {
      InAppend(ranges, r, i);
    }
  }

  /** The freeblock loop. Its count and overlap tests can never fail on a chain that runs forward. */
  method WalkFreeblocks(page: Page, header: Header, used: array<bool>) returns (r: Option<seq<Range>>)
    requires header.Sound() && Marks(used[..], header.pointerEnd, [])
    modifies used
    ensures r == Freeblocks(page, header.contentStart, header.firstFree)
    ensures r.Some? ==> Marks(used[..], header.pointerEnd, r.value)
  {
    var at, blocks: seq<Range> := header.firstFree, [];
    ghost var all := Freeblocks(page, header.contentStart, header.firstFree);
    PrependNothing(all);
    while at != 0
      invariant all == Prepend(blocks, Freeblocks(page, header.contentStart, at))
      invariant Marks(used[..], header.pointerEnd, blocks)
      invariant Within(blocks, header.contentStart, PAGE)
      invariant at != 0 ==> 4 * |blocks| <= at && forall k :: 0 <= k < |blocks| ==> blocks[k].hi <= at
      decreases if at == 0 then 0 else 1 + PAGE - at
    {
      if |blocks| + 1 > PAGE / 4 {
        return None;
      }
      var found := FreeblockAt(page, header.contentStart, at);
      if found.None? {
        return None;
      }
      var block, next := found.value.0, found.value.1;
      var overlaps := AnyMarked(used, block.lo, block.hi);
      if overlaps {
        assert false;
      }
      ghost var before := used[..];
      Mark(used, block.lo, block.hi);
      MarksAppend(before, used[..], header.pointerEnd, blocks, block);
      PrependTwice(blocks, block, if next == 0 then Some([]) else Freeblocks(page, header.contentStart, next));
      blocks, at := blocks + [block], next;
    }
    assert blocks + [] == blocks;
    return Some(blocks);
  }

  // --------------------------------------------------------------------- cells

  /** The payload bytes kept on the page itself. */
  function LocalBytes(payload: nat, kind: nat): nat {
    var minimum := (PAGE - 12) * 32 / 255 - 23;
    var maximum := if kind == TABLE_LEAF then PAGE - 35 else (PAGE - 12) * 64 / 255 - 23;
    if payload <= maximum then payload
    else
      var candidate := minimum + (payload - minimum) % (PAGE - 4);
      if candidate <= maximum then candidate else minimum
  }

  /**
    * What stays on the page: all of a payload that fits, and otherwise a part within the bounds of its
    * kind that lets the rest fill its overflow pages, or the least part when no such one is in bounds.
    */
  lemma LocalBytesFit(payload: nat, kind: nat)
    ensures var local, most := LocalBytes(payload, kind), if kind == TABLE_LEAF then 4061 else 1002;
            && local <= payload && local <= most
            && (local == payload <==> payload <= most)
            && (payload > most ==> 489 <= local && ((payload - local) % (PAGE - 4) == 0 || local == 489))
            && (payload > most && local == 489 ==>
                  (payload - 489) % (PAGE - 4) == 0 || 489 + (payload - 489) % (PAGE - 4) > most)
  {
  }

  datatype Cell = Cell(range: Range, left: seq<nat>, rowid: nat, body: nat, local: nat, spill: nat, overflowPage: nat)

  function FirstField(page: Page, kind: nat, at: nat): (seq<nat>, nat)
    requires at + 4 <= PAGE || !(kind == INDEX_INTERIOR || kind == TABLE_INTERIOR)
  {
    if kind == INDEX_INTERIOR || kind == TABLE_INTERIOR then ([U32(page, at)], at + 4) else ([], at)
  }

  /** The cell at an offset: child pointer, varints, local payload and overflow pointer. */
  ghost function CellAt(page: Page, kind: nat, at: nat, imageBytes: nat): Option<Cell> {
    if (kind == INDEX_INTERIOR || kind == TABLE_INTERIOR) && at + 4 > PAGE then None
    else
      var (left, start) := FirstField(page, kind, at);
      CellBody(page, kind, at, left, start, imageBytes)
  }

  ghost function CellBody(page: Page, kind: nat, at: nat, left: seq<nat>, start: nat, imageBytes: nat): Option<Cell> {
    match VarintAt(page, start, PAGE)
    case None => None
    case Some((first, next)) =>
      if kind == TABLE_INTERIOR then Some(Cell(Range(at, next), left, 0, next, 0, 0, 0))
      else if first > imageBytes then None
      else
        match if kind == TABLE_LEAF then VarintAt(page, next, PAGE) else Some((0, next))
        case None => None
        case Some((rowid, body)) => Payload(page, at, left, rowid, body, first, LocalBytes(first, kind))
  }

  function Payload(page: Page, at: nat, left: seq<nat>, rowid: nat, body: nat, payload: nat, local: nat): Option<Cell> {
    if payload <= local then
      if body + payload > PAGE then None else Some(Cell(Range(at, body + payload), left, rowid, body, payload, 0, 0))
    else if body + local + 4 > PAGE then None
    else Some(Cell(Range(at, body + local + 4), left, rowid, body, local, payload - local, U32(page, body + local)))
  }

  lemma CellIsInside(page: Page, kind: nat, at: nat, imageBytes: nat)
    requires CellAt(page, kind, at, imageBytes).Some?
    ensures var c := CellAt(page, kind, at, imageBytes).value;
            c.range.lo == at < c.range.hi <= PAGE && c.body + c.local <= PAGE && |c.left| <= 1
  {
    var start := FirstField(page, kind, at).1;
    VarintAtAdvances(page, start, PAGE);
    if kind == TABLE_LEAF {
      VarintAtAdvances(page, VarintAt(page, start, PAGE).value.1, PAGE);
    }
  }

  method ReadCell(page: Page, kind: nat, at: nat, imageBytes: nat) returns (r: Option<Cell>)
    ensures r == CellAt(page, kind, at, imageBytes)
  {
    if (kind == INDEX_INTERIOR || kind == TABLE_INTERIOR) && at + 4 > PAGE {
      return None;
    }
    var (left, start) := FirstField(page, kind, at);
    var first := ReadVarint(page, start, PAGE);
    if first.None? {
      return None;
    }
    var payload, offset := first.value.0, first.value.1;
    if kind == TABLE_INTERIOR {
      return Some(Cell(Range(at, offset), left, 0, offset, 0, 0, 0));
    }
    if payload > imageBytes {
      return None;
    }
    var rowid := 0;
    if kind == TABLE_LEAF {
      var second := ReadVarint(page, offset, PAGE);
      if second.None? {
        return None;
      }
      rowid, offset := second.value.0, second.value.1;
    }
    return Payload(page, at, left, rowid, offset, payload, LocalBytes(payload, kind));
  }

  // --------------------------------------------------------- cells as written

  /** The page holds the bytes at an offset. */
  predicate Holds(page: Page, at: nat, bytes: ByteString) {
    at + |bytes| <= PAGE && page[at..at + |bytes|] == bytes
  }

  lemma HoldsParts(page: Page, at: nat, a: ByteString, b: ByteString)
    requires Holds(page, at, a + b)
    ensures Holds(page, at, a) && Holds(page, at + |a|, b)
  {
    SliceParts(page, at, a, b);
  }

  lemma VarintReadsBack(page: Page, at: nat, v: nat)
    requires v <= MAX_VALUE && Holds(page, at, Encode(v))
    ensures VarintAt(page, at, PAGE) == Some((v, at + |Encode(v)|))
  {
    var n := |Encode(v)|;
    assert page[at..PAGE][..n] == page[at..at + n];
    assert Reads(page, at, PAGE, v, at + n);
    var found := VarintAt(page, at, PAGE).value;
    ReadsIsUnique(page, at, PAGE, v, at + n, found.0, found.1);
  }

  lemma PointerReadsBack(page: Page, at: nat, pointer: ByteString)
    requires |pointer| == 4 && Holds(page, at, pointer)
    ensures U32(page, at) == Big(pointer)
  {
    U32IsBig(page, at);
  }

  /** The payload part of a cell: what stays on the page, and the number of a page when something spills. */
  function SpillBytes(payload: nat, local: ByteString, overflow: ByteString): ByteString {
    local + if payload > |local| then overflow else []
  }

  /** A cell of one payload from its offset to its end. */
  function Written(at: nat, left: seq<nat>, rowid: nat, body: nat, payload: nat, local: ByteString,
                   overflow: ByteString): Cell
    requires |local| <= payload
  {
    Cell(Range(at, body + |SpillBytes(payload, local, overflow)|), left, rowid, body, |local|, payload - |local|,
         if payload > |local| then Big(overflow) else 0)
  }

  lemma PayloadReadsBack(page: Page, at: nat, left: seq<nat>, rowid: nat, body: nat, payload: nat, local: ByteString,
                         overflow: ByteString)
    requires |local| <= payload && |overflow| == 4
    requires Holds(page, body, SpillBytes(payload, local, overflow))
    ensures Payload(page, at, left, rowid, body, payload, |local|)
         == Some(Written(at, left, rowid, body, payload, local, overflow))
  {
    HoldsParts(page, body, local, if payload > |local| then overflow else []);
    if payload > |local| {
      PointerReadsBack(page, body + |local|, overflow);
    }
  }

  /** Reading a leaf cell of the schema table undoes writing it. */
  lemma TableLeafReadsBack(page: Page, at: nat, imageBytes: nat, payload: nat, rowid: nat, local: ByteString,
                           overflow: ByteString)
    requires payload <= imageBytes && payload <= MAX_VALUE && rowid <= MAX_VALUE && |overflow| == 4
    requires |local| == LocalBytes(payload, TABLE_LEAF) <= payload
    requires Holds(page, at, Encode(payload) + (Encode(rowid) + SpillBytes(payload, local, overflow)))
    ensures CellAt(page, TABLE_LEAF, at, imageBytes)
         == Some(Written(at, [], rowid, at + |Encode(payload)| + |Encode(rowid)|, payload, local, overflow))
  {
    var spill, next := SpillBytes(payload, local, overflow), at + |Encode(payload)|;
    HoldsParts(page, at, Encode(payload), Encode(rowid) + spill);
    HoldsParts(page, next, Encode(rowid), spill);
    VarintReadsBack(page, at, payload);
    VarintReadsBack(page, next, rowid);
    PayloadReadsBack(page, at, [], rowid, next + |Encode(rowid)|, payload, local, overflow);
  }

  lemma IndexBodyReadsBack(page: Page, kind: nat, at: nat, left: seq<nat>, start: nat, imageBytes: nat, payload: nat,
                           local: ByteString, overflow: ByteString)
    requires kind == INDEX_LEAF || kind == INDEX_INTERIOR
    requires payload <= imageBytes && payload <= MAX_VALUE && |overflow| == 4
    requires |local| == LocalBytes(payload, kind) <= payload
    requires Holds(page, start, Encode(payload) + SpillBytes(payload, local, overflow))
    ensures CellBody(page, kind, at, left, start, imageBytes)
         == Some(Written(at, left, 0, start + |Encode(payload)|, payload, local, overflow))
  {
    HoldsParts(page, start, Encode(payload), SpillBytes(payload, local, overflow));
    VarintReadsBack(page, start, payload);
    PayloadReadsBack(page, at, left, 0, start + |Encode(payload)|, payload, local, overflow);
  }

  /** Reading an index leaf cell undoes writing it. */
  lemma IndexLeafReadsBack(page: Page, at: nat, imageBytes: nat, payload: nat, local: ByteString, overflow: ByteString)
    requires payload <= imageBytes && payload <= MAX_VALUE && |overflow| == 4
    requires |local| == LocalBytes(payload, INDEX_LEAF) <= payload
    requires Holds(page, at, Encode(payload) + SpillBytes(payload, local, overflow))
    ensures CellAt(page, INDEX_LEAF, at, imageBytes)
         == Some(Written(at, [], 0, at + |Encode(payload)|, payload, local, overflow))
  {
    IndexBodyReadsBack(page, INDEX_LEAF, at, [], at, imageBytes, payload, local, overflow);
  }

  /** Reading an interior index cell, which starts with its child page, undoes writing it. */
  lemma IndexInteriorReadsBack(page: Page, at: nat, imageBytes: nat, child: ByteString, payload: nat,
                               local: ByteString, overflow: ByteString)
    requires payload <= imageBytes && payload <= MAX_VALUE && |child| == 4 && |overflow| == 4
    requires |local| == LocalBytes(payload, INDEX_INTERIOR) <= payload
    requires Holds(page, at, child + (Encode(payload) + SpillBytes(payload, local, overflow)))
    ensures CellAt(page, INDEX_INTERIOR, at, imageBytes)
         == Some(Written(at, [Big(child)], 0, at + 4 + |Encode(payload)|, payload, local, overflow))
  {
    HoldsParts(page, at, child, Encode(payload) + SpillBytes(payload, local, overflow));
    PointerReadsBack(page, at, child);
    IndexBodyReadsBack(page, INDEX_INTERIOR, at, [Big(child)], at + 4, imageBytes, payload, local, overflow);
  }

  /** Reading an interior cell of the schema table undoes writing it. */
  lemma TableInteriorReadsBack(page: Page, at: nat, imageBytes: nat, child: ByteString, rowid: nat)
    requires rowid <= MAX_VALUE && |child| == 4
    requires Holds(page, at, child + Encode(rowid))
    ensures var end := at + 4 + |Encode(rowid)|;
            CellAt(page, TABLE_INTERIOR, at, imageBytes) == Some(Cell(Range(at, end), [Big(child)], 0, end, 0, 0, 0))
  {
    HoldsParts(page, at, child, Encode(rowid));
    PointerReadsBack(page, at, child);
    VarintReadsBack(page, at + 4, rowid);
  }

  // ------------------------------------------------------- what a cell was

  lemma HoldsJoins(page: Page, at: nat, a: ByteString, b: ByteString)
    requires Holds(page, at, a) && Holds(page, at + |a|, b)
    ensures Holds(page, at, a + b)
  {
    assert page[at..at + |a| + |b|] == page[at..at + |a|] + page[at + |a|..at + |a| + |b|];
  }

  lemma VarintWasWritten(page: Page, at: nat)
    requires VarintAt(page, at, PAGE).Some?
    ensures var (v, next) := VarintAt(page, at, PAGE).value;
            v <= MAX_VALUE && Holds(page, at, Encode(v)) && next == at + |Encode(v)|
  {
    var (v, next) := VarintAt(page, at, PAGE).value;
    assert Reads(page, at, PAGE, v, next);
    assert page[at..PAGE][..next - at] == page[at..next];
  }

  /** What follows the child pointer in a cell. */
  ghost function BodyBytes(kind: nat, payload: nat, rowid: nat, local: ByteString, overflow: ByteString): ByteString
    requires payload <= MAX_VALUE && rowid <= MAX_VALUE
  {
    if kind == TABLE_INTERIOR then Encode(rowid)
    else if kind == TABLE_LEAF then Encode(payload) + (Encode(rowid) + SpillBytes(payload, local, overflow))
    else Encode(payload) + SpillBytes(payload, local, overflow)
  }

  /** A cell as it is written; interior cells start with their child. */
  ghost function CellBytes(kind: nat, child: ByteString, payload: nat, rowid: nat, local: ByteString,
                           overflow: ByteString): ByteString
    requires payload <= MAX_VALUE && rowid <= MAX_VALUE
  {
    (if kind == INDEX_INTERIOR || kind == TABLE_INTERIOR then child else [])
    + BodyBytes(kind, payload, rowid, local, overflow)
  }

  lemma SpillWasWritten(page: Page, at: nat, left: seq<nat>, rowid: nat, body: nat, payload: nat, keep: nat)
    returns (local: ByteString, overflow: ByteString)
    requires keep <= payload && Payload(page, at, left, rowid, body, payload, keep).Some?
    ensures |local| == keep && |overflow| == 4 && Holds(page, body, SpillBytes(payload, local, overflow))
    ensures Payload(page, at, left, rowid, body, payload, keep)
         == Some(Written(at, left, rowid, body, payload, local, overflow))
  {
    local := page[body..body + keep];
    overflow := if payload > keep then page[body + keep..body + keep + 4] else [0, 0, 0, 0];
    if payload > keep {
      HoldsJoins(page, body, local, overflow);
    } else {
      assert local + [] == local;
    }
    PayloadReadsBack(page, at, left, rowid, body, payload, local, overflow);
  }

  lemma LeafWasWritten(page: Page, at: nat, left: seq<nat>, start: nat, imageBytes: nat)
    returns (payload: nat, rowid: nat, local: ByteString, overflow: ByteString)
    requires CellBody(page, TABLE_LEAF, at, left, start, imageBytes).Some?
    ensures payload <= imageBytes && payload <= MAX_VALUE && rowid <= MAX_VALUE
    ensures |local| == LocalBytes(payload, TABLE_LEAF)
    ensures var bytes := BodyBytes(TABLE_LEAF, payload, rowid, local, overflow);
            && Holds(page, start, bytes)
            && CellBody(page, TABLE_LEAF, at, left, start, imageBytes).value.range == Range(at, start + |bytes|)
  {
    VarintWasWritten(page, start);
    payload := VarintAt(page, start, PAGE).value.0;
    var next := VarintAt(page, start, PAGE).value.1;
    VarintWasWritten(page, next);
    rowid := VarintAt(page, next, PAGE).value.0;
    LocalBytesFit(payload, TABLE_LEAF);
    var body := next + |Encode(rowid)|;
    local, overflow := SpillWasWritten(page, at, left, rowid, body, payload, LocalBytes(payload, TABLE_LEAF));
    HoldsJoins(page, next, Encode(rowid), SpillBytes(payload, local, overflow));
    HoldsJoins(page, start, Encode(payload), Encode(rowid) + SpillBytes(payload, local, overflow));
  }

  lemma IndexWasWritten(page: Page, kind: nat, at: nat, left: seq<nat>, start: nat, imageBytes: nat)
    returns (payload: nat, local: ByteString, overflow: ByteString)
    requires kind == INDEX_LEAF || kind == INDEX_INTERIOR
    requires CellBody(page, kind, at, left, start, imageBytes).Some?
    ensures payload <= imageBytes && payload <= MAX_VALUE && |local| == LocalBytes(payload, kind)
    ensures var bytes := BodyBytes(kind, payload, 0, local, overflow);
            && Holds(page, start, bytes)
            && CellBody(page, kind, at, left, start, imageBytes).value.range == Range(at, start + |bytes|)
  {
    VarintWasWritten(page, start);
    payload := VarintAt(page, start, PAGE).value.0;
    var next := VarintAt(page, start, PAGE).value.1;
    LocalBytesFit(payload, kind);
    local, overflow := SpillWasWritten(page, at, left, 0, next, payload, LocalBytes(payload, kind));
    HoldsJoins(page, start, Encode(payload), SpillBytes(payload, local, overflow));
  }

  lemma BodyWasWritten(page: Page, kind: nat, at: nat, left: seq<nat>, start: nat, imageBytes: nat)
    returns (payload: nat, rowid: nat, local: ByteString, overflow: ByteString)
    requires kind in {INDEX_INTERIOR, TABLE_INTERIOR, INDEX_LEAF, TABLE_LEAF}
    requires CellBody(page, kind, at, left, start, imageBytes).Some?
    ensures payload <= imageBytes && payload <= MAX_VALUE && rowid <= MAX_VALUE
    ensures |local| == LocalBytes(payload, kind)
    ensures var bytes := BodyBytes(kind, payload, rowid, local, overflow);
            && Holds(page, start, bytes)
            && CellBody(page, kind, at, left, start, imageBytes).value.range == Range(at, start + |bytes|)
  {
    payload, rowid, local, overflow := 0, 0, [], [];
    if kind == TABLE_LEAF {
      payload, rowid, local, overflow := LeafWasWritten(page, at, left, start, imageBytes);
    } else if kind == TABLE_INTERIOR {
      VarintWasWritten(page, start);
      rowid := VarintAt(page, start, PAGE).value.0;
    } else {
      payload, local, overflow := IndexWasWritten(page, kind, at, left, start, imageBytes);
    }
  }

  /** Every accepted cell is written on the page, with a payload no longer than the image. */
  lemma CellWasWritten(page: Page, kind: nat, at: nat, imageBytes: nat)
    returns (child: ByteString, payload: nat, rowid: nat, local: ByteString, overflow: ByteString)
    requires kind in {INDEX_INTERIOR, TABLE_INTERIOR, INDEX_LEAF, TABLE_LEAF}
    requires CellAt(page, kind, at, imageBytes).Some?
    ensures payload <= imageBytes && payload <= MAX_VALUE && rowid <= MAX_VALUE && |child| == 4
    ensures |local| == LocalBytes(payload, kind)
    ensures var bytes := CellBytes(kind, child, payload, rowid, local, overflow);
            && Holds(page, at, bytes)
            && CellAt(page, kind, at, imageBytes).value.range == Range(at, at + |bytes|)
  {
    var (left, start) := FirstField(page, kind, at);
    payload, rowid, local, overflow := BodyWasWritten(page, kind, at, left, start, imageBytes);
    var bytes := BodyBytes(kind, payload, rowid, local, overflow);
    child := [0, 0, 0, 0];
    if kind == INDEX_INTERIOR || kind == TABLE_INTERIOR {
      child := page[at..at + 4];
      HoldsJoins(page, at, child, bytes);
    } else {
      assert [] + bytes == bytes;
    }
  }

  /** The cell of the k-th pointer, which must point into the content area. */
  ghost function CellNumber(page: Page, header: Header, imageBytes: nat, k: nat): Option<Cell>
    requires header.Sound() && k < header.cellCount
  {
    var at := U16(page, header.pointerStart + 2 * k);
    if header.contentStart <= at < PAGE then CellAt(page, header.kind, at, imageBytes) else None
  }

  function Ranges(cells: seq<Cell>): seq<Range> {
    seq(|cells|, (i: nat) requires i < |cells| => cells[i].range)
  }

  lemma RangesAppend(cells: seq<Cell>, cell: Cell)
    ensures Ranges(cells + [cell]) == Ranges(cells) + [cell.range]
  {
  }

  /** The test that no two pointers are the same. */
  predicate DistinctPointers(page: Page, header: Header)
    requires header.Sound()
  {
    forall i, j :: 0 <= i < j < header.cellCount ==>
      U16(page, header.pointerStart + 2 * i) != U16(page, header.pointerStart + 2 * j)
  }

  // ----------------------------------------------------------- placing a cell

  /** A range touches no other exactly when it holds none of their bytes. */
  lemma TouchesExactly(ranges: seq<Range>, r: Range)
    requires Within(ranges, 0, PAGE) && r.lo < r.hi
    ensures (exists i :: r.lo <= i < r.hi && In(ranges, i))
       <==> !(forall k :: 0 <= k < |ranges| ==> Apart(ranges[k], r))
  {
    if i :| r.lo <= i < r.hi && In(ranges, i) {
      var k :| 0 <= k < |ranges| && ranges[k].lo <= i < ranges[k].hi;
      assert !Apart(ranges[k], r);
    }
    if k :| 0 <= k < |ranges| && !Apart(ranges[k], r) {
      var i := if r.lo < ranges[k].lo then ranges[k].lo else r.lo;
      assert In(ranges, i);
    }
  }

  lemma ApartAppend(ranges: seq<Range>, r: Range)
    ensures AllApart(ranges + [r]) <==> AllApart(ranges) && forall k :: 0 <= k < |ranges| ==> Apart(ranges[k], r)
  {
    var all := ranges + [r];
    assert forall k :: 0 <= k < |ranges| ==> all[k] == ranges[k];
    if AllApart(all) {
      assert forall k :: 0 <= k < |ranges| ==> Apart(all[k], all[|ranges|]);
    }
  }

  /** Reads the k-th cell and marks its bytes, unless one of them is in use. */
  method PlaceCell(page: Page, header: Header, imageBytes: nat, k: nat, used: array<bool>, live: array<bool>,
                   ghost frees: seq<Range>, ghost placed: seq<Range>)
    returns (r: Option<Cell>)
    requires header.Sound() && k < header.cellCount && used != live
    requires Marks(used[..], header.pointerEnd, frees + placed) && Marks(live[..], header.pointerEnd, placed)
    requires AllApart(frees + placed) && Within(frees + placed, header.contentStart, PAGE)
    modifies used, live
    ensures match r
            case None =>
              var cell := CellNumber(page, header, imageBytes, k);
              cell.Some? ==> !AllApart(frees + placed + [cell.value.range])
            case Some(cell) =>
              && CellNumber(page, header, imageBytes, k) == Some(cell)
              && AllApart(frees + placed + [cell.range])
              && Within(frees + placed + [cell.range], header.contentStart, PAGE)
              && Marks(used[..], header.pointerEnd, frees + placed + [cell.range])
              && Marks(live[..], header.pointerEnd, placed + [cell.range])
  {
    var at := U16(page, header.pointerStart + 2 * k);
    if !(header.contentStart <= at < PAGE) {
      return None;
    }
    r := ReadCell(page, header.kind, at, imageBytes);
    if r.None? {
      return;
    }
    CellIsInside(page, header.kind, at, imageBytes);
    var range := r.value.range;
    var overlaps := AnyMarked(used, range.lo, range.hi);
    TouchesExactly(frees + placed, range);
    ApartAppend(frees + placed, range);
    if overlaps {
      var i :| range.lo <= i < range.hi && used[i];
      assert used[..][i];
      return None;
    }
    assert forall i :: range.lo <= i < range.hi ==> !used[..][i];
    ghost var usedBefore, liveBefore := used[..], live[..];
    Mark(used, range.lo, range.hi);
    Mark(live, range.lo, range.hi);
    MarksAppend(usedBefore, used[..], header.pointerEnd, frees + placed, range);
    MarksAppend(liveBefore, live[..], header.pointerEnd, placed, range);
  }

  // ---------------------------------------------------------------------- gaps

  /** A maximal stretch of bytes from `low` on that are not live. */
  ghost predicate IsGap(live: seq<bool>, low: nat, lo: nat, hi: nat)
    requires |live| == PAGE
  {
    && low <= lo < hi <= PAGE
    && (forall i :: lo <= i < hi ==> !live[i])
    && (lo == low || live[lo - 1])
    && (hi == PAGE || live[hi])
  }

  lemma GapsMeet(live: seq<bool>, low: nat, lo: nat, hi: nat, lo': nat, hi': nat, i: int)
    requires |live| == PAGE && IsGap(live, low, lo, hi) && IsGap(live, low, lo', hi')
    requires lo <= i < hi && lo' <= i < hi'
    ensures lo == lo' && hi == hi'
  {
  }

  /** A byte of a gap too short for a freeblock. */
  ghost predicate Loose(live: seq<bool>, low: nat, i: int)
    requires |live| == PAGE
  {
    exists lo: nat, hi: nat :: IsGap(live, low, lo, hi) && lo <= i < hi && hi - lo < 4
  }

  ghost function LooseBytes(live: seq<bool>, low: nat, end: nat): nat
    requires |live| == PAGE
  {
    if end <= low then 0 else LooseBytes(live, low, end - 1) + if Loose(live, low, end - 1) then 1 else 0
  }

  lemma {:induction false} LooseStretch(live: seq<bool>, low: nat, from: nat, end: nat, loose: bool)
    requires |live| == PAGE && low <= from <= end
    requires forall i :: from <= i < end ==> (Loose(live, low, i) <==> loose)
    ensures LooseBytes(live, low, end) == LooseBytes(live, low, from) + if loose then end - from else 0
    decreases end
  {
    if from < end {
      LooseStretch(live, low, from, end - 1, loose);
      assert Loose(live, low, end - 1) <==> loose;
    }
  }

  /** The long gaps that end by an offset, and the number of loose bytes before it. */
  ghost predicate Scanned(live: seq<bool>, low: nat, index: nat, gaps: seq<Range>, fragments: nat)
    requires |live| == PAGE
  {
    && low <= index <= PAGE
    && Increasing(gaps) && Within(gaps, low, index)
    && (forall lo: nat, hi: nat :: IsGap(live, low, lo, hi) && lo < index && hi - lo >= 4 ==> Range(lo, hi) in gaps)
    && (forall r <- gaps :: IsGap(live, low, r.lo, r.hi) && r.hi - r.lo >= 4)
    && fragments == LooseBytes(live, low, index)
  }

  lemma ScanLive(live: seq<bool>, low: nat, index: nat, gaps: seq<Range>, fragments: nat)
    requires |live| == PAGE && Scanned(live, low, index, gaps, fragments) && index < PAGE && live[index]
    ensures Scanned(live, low, index + 1, gaps, fragments)
  {
    LooseStretch(live, low, index, index + 1, false);
  }

  lemma ScanShortGap(live: seq<bool>, low: nat, index: nat, end: nat, gaps: seq<Range>, fragments: nat)
    requires |live| == PAGE && Scanned(live, low, index, gaps, fragments)
    requires IsGap(live, low, index, end) && end - index < 4
    ensures Scanned(live, low, end, gaps, fragments + (end - index))
  {
    LooseStretch(live, low, index, end, true);
    forall lo: nat, hi: nat | IsGap(live, low, lo, hi) && lo < end && hi - lo >= 4 ensures Range(lo, hi) in gaps {
      if index <= lo {
        GapsMeet(live, low, index, end, lo, hi, lo);
      }
    }
  }

  lemma ScanLongGap(live: seq<bool>, low: nat, index: nat, end: nat, gaps: seq<Range>, fragments: nat)
    requires |live| == PAGE && Scanned(live, low, index, gaps, fragments)
    requires IsGap(live, low, index, end) && end - index >= 4
    ensures Scanned(live, low, end, gaps + [Range(index, end)], fragments)
  {
    forall i | index <= i < end ensures !Loose(live, low, i) {
      if Loose(live, low, i) {
        var lo: nat, hi: nat :| IsGap(live, low, lo, hi) && lo <= i < hi && hi - lo < 4;
        GapsMeet(live, low, index, end, lo, hi, i);
      }
    }
    LooseStretch(live, low, index, end, false);
    var all := gaps + [Range(index, end)];
    assert all[|gaps|] == Range(index, end);
    forall lo: nat, hi: nat | IsGap(live, low, lo, hi) && lo < end && hi - lo >= 4 ensures Range(lo, hi) in all {
      if index <= lo {
        GapsMeet(live, low, index, end, lo, hi, lo);
      }
    }
  }

  /** The gap scan of the content area. */
  method ScanGaps(live: array<bool>, low: nat) returns (gaps: seq<Range>, fragments: nat)
    requires live.Length == PAGE && low <= PAGE
    ensures Scanned(live[..], low, PAGE, gaps, fragments)
  {
    gaps, fragments := [], 0;
    var index := low;
    while index < PAGE
      invariant Scanned(live[..], low, index, gaps, fragments)
      invariant index == low || live[index - 1] || index == PAGE || live[index]
    {
      if live[index] {
        ScanLive(live[..], low, index, gaps, fragments);
        index := index + 1;
        continue;
      }
      var start := index;
      while index < PAGE && !live[index]
        invariant start <= index <= PAGE && forall i :: start <= i < index ==> !live[i]
      {
        index := index + 1;
      }
      assert IsGap(live[..], low, start, index);
      if index - start >= 4 {
        ScanLongGap(live[..], low, start, index, gaps, fragments);
        gaps := gaps + [Range(start, index)];
      } else {
        ScanShortGap(live[..], low, start, index, gaps, fragments);
        fragments := fragments + (index - start);
      }
    }
  }

  // ----------------------------------------------------------------- the layout

  ghost function LiveBytes(front: nat, cells: seq<Range>): seq<bool> {
    seq(PAGE, i => i < front || In(cells, i))
  }

  /** The freeblocks are exactly the gaps of at least four bytes. */
  ghost predicate FillsGaps(header: Header, frees: seq<Range>, cells: seq<Range>) {
    forall lo: nat, hi: nat ::
      IsGap(LiveBytes(header.pointerEnd, cells), header.contentStart, lo, hi) && hi - lo >= 4
      <==> Range(lo, hi) in frees
  }

  ghost predicate UnusedIsZero(page: Page, header: Header, used: seq<Range>) {
    forall i :: header.pointerEnd <= i < PAGE && !In(used, i) ==> page[i] == 0
  }

  /** The accounting of a page: disjoint parts, gaps as freeblocks or fragments, and zeros elsewhere. */
  ghost predicate Balances(page: Page, header: Header, frees: seq<Range>, cells: seq<Range>) {
    && AllApart(frees + cells)
    && FillsGaps(header, frees, cells)
    && header.fragments == LooseBytes(LiveBytes(header.pointerEnd, cells), header.contentStart, PAGE)
    && UnusedIsZero(page, header, frees + cells)
  }

  /** Names an accounting; what it demands is looked up only where this stands. */
  predicate Audited(page: Page, header: Header, frees: seq<Range>, cells: seq<Range>) {
    true
  }

  ghost predicate Audits(f: (Page, Header, seq<Range>, seq<Range>) -> bool) {
    forall page: Page, header, frees, cells {:trigger Audited(page, header, frees, cells)} ::
      Audited(page, header, frees, cells) ==> f(page, header, frees, cells) == Balances(page, header, frees, cells)
  }

  ghost predicate Canonical(page: Page, header: Header, frees: seq<Range>, cells: seq<Range>) {
    var audit: (Page, Header, seq<Range>, seq<Range>) -> bool :=
      (page: Page, header: Header, frees: seq<Range>, cells: seq<Range>) => Balances(page, header, frees, cells);
    assert Audits(audit);
    var f: (Page, Header, seq<Range>, seq<Range>) -> bool :| Audits(f);
    f(page, header, frees, cells)
  }

  lemma CanonicalIs(page: Page, header: Header, frees: seq<Range>, cells: seq<Range>)
    ensures Canonical(page, header, frees, cells) == Balances(page, header, frees, cells)
  {
    assert Audited(page, header, frees, cells);
  }

  /** Forward lists with the same ranges are the same list. */
  lemma {:induction false} SameRanges(a: seq<Range>, b: seq<Range>)
    requires Increasing(a) && Increasing(b) && Within(a, 0, PAGE) && Within(b, 0, PAGE)
    requires forall r :: r in a <==> r in b
    ensures a == b
  {
    assert b != [] ==> b[0] in b;
    if a != [] {
      assert a[0] in b;
      assert b[0] in a;
      assert a[0] == b[0];
      forall r ensures r in a[1..] <==> r in b[1..] {
        assert r in a[1..] <==> r in a && r.lo >= a[0].hi;
        assert r in b[1..] <==> r in b && r.lo >= b[0].hi;
      }
      SameRanges(a[1..], b[1..]);
    }
  }

  method UnusedBytesAreZero(page: Page, used: array<bool>) returns (zero: bool)
    requires used.Length == PAGE
    ensures zero <==> forall i :: 0 <= i < PAGE && !used[i] ==> page[i] == 0
  {
    for k := 0 to PAGE
      invariant forall i :: 0 <= i < k && !used[i] ==> page[i] == 0
    {
      if !used[k] && page[k] != 0 {
        return false;
      }
    }
    return true;
  }

  lemma GapsDecide(live: seq<bool>, header: Header, frees: seq<Range>, cells: seq<Range>, gaps: seq<Range>,
                   fragments: nat)
    requires header.Sound() && live == LiveBytes(header.pointerEnd, cells)
    requires Increasing(frees) && Within(frees, header.contentStart, PAGE)
    requires Scanned(live, header.contentStart, PAGE, gaps, fragments)
    ensures gaps == frees <==> FillsGaps(header, frees, cells)
  {
    if FillsGaps(header, frees, cells) {
      forall r ensures r in gaps <==> r in frees {
        assert r == Range(r.lo, r.hi);
      }
      SameRanges(gaps, frees);
    }
    if gaps == frees {
      forall lo: nat, hi: nat
        ensures IsGap(live, header.contentStart, lo, hi) && hi - lo >= 4 <==> Range(lo, hi) in frees
      {
      }
    }
  }

  /** The final tests of a page: gaps against freeblocks and fragments, and zeros. */
  method AccountFor(page: Page, header: Header, frees: seq<Range>, used: array<bool>, live: array<bool>,
                    ghost cells: seq<Range>)
    returns (ok: bool)
    requires header.Sound()
    requires Marks(used[..], header.pointerEnd, frees + cells) && Marks(live[..], header.pointerEnd, cells)
    requires AllApart(frees + cells) && Increasing(frees) && Within(frees, header.contentStart, PAGE)
    ensures ok <==> Canonical(page, header, frees, cells)
  {
    CanonicalIs(page, header, frees, cells);
    var gaps, fragments := ScanGaps(live, header.contentStart);
    assert live[..] == LiveBytes(header.pointerEnd, cells);
    GapsDecide(live[..], header, frees, cells, gaps, fragments);
    if gaps != frees || fragments != header.fragments {
      return false;
    }
    ok := UnusedBytesAreZero(page, used);
    assert forall i :: 0 <= i < PAGE ==> used[i] == used[..][i];
  }

  // ------------------------------------------------------- every byte of a page

  lemma {:induction false} GapAround(live: seq<bool>, low: nat, i: nat, lo: nat, hi: nat) returns (lo': nat, hi': nat)
    requires |live| == PAGE && low <= lo <= i < hi <= PAGE
    requires forall k :: lo <= k < hi ==> !live[k]
    ensures IsGap(live, low, lo', hi') && lo' <= i < hi'
    decreases lo, PAGE - hi
  {
    if lo > low && !live[lo - 1] {
      lo', hi' := GapAround(live, low, i, lo - 1, hi);
    } else if hi < PAGE && !live[hi] {
      lo', hi' := GapAround(live, low, i, lo, hi + 1);
    } else {
      lo', hi' := lo, hi;
    }
  }

  lemma {:induction false} FreeblocksAreZero(page: Page, contentStart: nat, at: nat, r: Range)
    requires Freeblocks(page, contentStart, at).Some? && r in Freeblocks(page, contentStart, at).value
    ensures r.hi <= PAGE && Zero(page, r.lo + 4, r.hi)
    decreases PAGE - at
  {
    var block, next := FreeblockAt(page, contentStart, at).value.0, FreeblockAt(page, contentStart, at).value.1;
    if r != block {
      FreeblocksAreZero(page, contentStart, next, r);
    }
  }

  ghost predicate InHead(frees: seq<Range>, i: int) {
    exists k :: 0 <= k < |frees| && frees[k].lo <= i < frees[k].lo + 4
  }

  lemma InEither(a: seq<Range>, b: seq<Range>, i: int)
    ensures In(a + b, i) <==> In(a, i) || In(b, i)
  {
    if In(a, i) {
      var k :| 0 <= k < |a| && a[k].lo <= i < a[k].hi;
      assert (a + b)[k] == a[k];
    }
    if In(b, i) {
      var k :| 0 <= k < |b| && b[k].lo <= i < b[k].hi;
      assert (a + b)[|a| + k] == b[k];
    }
  }

  lemma NotInBoth(a: seq<Range>, b: seq<Range>, i: int)
    requires AllApart(a + b)
    ensures !(In(a, i) && In(b, i))
  {
    if In(a, i) && In(b, i) {
      var j :| 0 <= j < |a| && a[j].lo <= i < a[j].hi;
      var k :| 0 <= k < |b| && b[k].lo <= i < b[k].hi;
      ApartAt(a, b, j, k);
    }
  }

  lemma ApartAt(a: seq<Range>, b: seq<Range>, j: nat, k: nat)
    requires AllApart(a + b) && j < |a| && k < |b|
    ensures Apart(a[j], b[k])
  {
    assert (a + b)[j] == a[j] && (a + b)[|a| + k] == b[k];
  }

  /** A byte of the content area that no cell covers is in a freeblock or is loose, and not both. */
  lemma GapByte(header: Header, frees: seq<Range>, cells: seq<Range>, i: nat)
    requires header.Sound() && FillsGaps(header, frees, cells)
    requires header.contentStart <= i < PAGE && !In(cells, i)
    ensures In(frees, i) <==> !Loose(LiveBytes(header.pointerEnd, cells), header.contentStart, i)
  {
    var live, low := LiveBytes(header.pointerEnd, cells), header.contentStart;
    var lo, hi := GapAround(live, low, i, i, i + 1);
    if hi - lo >= 4 {
      assert Range(lo, hi) in frees;
      if Loose(live, low, i) {
        var lo': nat, hi': nat :| IsGap(live, low, lo', hi') && lo' <= i < hi' && hi' - lo' < 4;
        GapsMeet(live, low, lo, hi, lo', hi', i);
      }
    } else {
      assert Loose(live, low, i);
      if In(frees, i) {
        var k :| 0 <= k < |frees| && frees[k].lo <= i < frees[k].hi;
        assert Range(frees[k].lo, frees[k].hi) in frees;
        GapsMeet(live, low, lo, hi, frees[k].lo, frees[k].hi, i);
      }
    }
  }

  /**
    * Every byte after the pointers is in exactly one cell, freeblock or fragment, or lies before the
    * content area; and it is zero unless it is in a cell or in the four-byte head of a freeblock.
    */
  lemma EveryByteIsAccountedFor(page: Page, header: Header, frees: seq<Range>, cells: seq<Range>, i: nat)
    requires header.Sound() && Freeblocks(page, header.contentStart, header.firstFree) == Some(frees)
    requires Within(cells, header.contentStart, PAGE) && Canonical(page, header, frees, cells)
    requires header.pointerEnd <= i < PAGE
    ensures !(In(cells, i) && In(frees, i))
    ensures i < header.contentStart ==> !In(cells, i) && !In(frees, i)
    ensures i >= header.contentStart && !In(cells, i) ==>
              (In(frees, i) <==> !Loose(LiveBytes(header.pointerEnd, cells), header.contentStart, i))
    ensures !In(cells, i) && !InHead(frees, i) ==> page[i] == 0
  {
    CanonicalIs(page, header, frees, cells);
    NotInBoth(frees, cells, i);
    InEither(frees, cells, i);
    FreeblocksIncrease(page, header.contentStart, header.firstFree);
    if i >= header.contentStart && !In(cells, i) {
      GapByte(header, frees, cells, i);
    }
    if In(frees, i) && !InHead(frees, i) {
      var k :| 0 <= k < |frees| && frees[k].lo <= i < frees[k].hi;
      assert frees[k] in frees;
      FreeblocksAreZero(page, header.contentStart, header.firstFree, frees[k]);
    }
  }
}
