/**
  * The walk over every page of a SQLite image (protocol/conformance/hub_sync.py): b-trees from the
  * root pages and the overflow chains of their cells, each page claimed once.
  */
module SqliteWalk {
  import opened Outcomes
  import opened Bytes
  import opened BigEndian
  import opened Record
  import opened SqlitePage
  import opened PageForest

  const CHUNK := PAGE - 4

  function PageCount(raw: ByteString): nat {
    |raw| / PAGE
  }

  function PageAt(raw: ByteString, number: nat): Page
    requires 1 <= number <= PageCount(raw)
  {
    raw[(number - 1) * PAGE..number * PAGE]
  }

  /** Every byte of an image of whole pages is on its page. */
  lemma PagesAreTheImage(raw: ByteString, i: nat)
    requires |raw| == PageCount(raw) * PAGE && i < |raw|
    ensures 1 <= i / PAGE + 1 <= PageCount(raw) && PageAt(raw, i / PAGE + 1)[i % PAGE] == raw[i]
  {
  }

  // ----------------------------------------------------------- overflow chains

  datatype Chain = Chain(pages: seq<nat>, data: ByteString)

  /** The number of bytes that one overflow page holds of what remains. */
  function Share(remaining: nat): nat {
    if remaining < CHUNK then remaining else CHUNK
  }

  /** One overflow page: what it holds, zeros after it, and a next page exactly when bytes remain. */
  predicate GoodLink(page: Page, remaining: nat) {
    && Zero(page, 4 + Share(remaining), PAGE)
    && (U32(page, 0) == 0 <==> remaining <= CHUNK)
  }

  predicate CanFollow(raw: ByteString, first: nat, remaining: nat) {
    1 <= first <= PageCount(raw) && GoodLink(PageAt(raw, first), remaining)
  }

  /** The overflow pages and bytes from a first page on. */
  function Links(raw: ByteString, first: nat, remaining: nat): Option<Chain>
    decreases remaining
  {
    if remaining == 0 then Some(Chain([], []))
    else if !CanFollow(raw, first, remaining) then None
    else
      var page := PageAt(raw, first);
      match Links(raw, U32(page, 0), remaining - Share(remaining))
      case None => None
      case Some(rest) => Some(Chain([first] + rest.pages, page[4..4 + Share(remaining)] + rest.data))
  }

  /** Names a chain; its pages are looked up only where this stands. */
  predicate Followed(first: nat, remaining: nat) {
    true
  }

  ghost predicate Follows(f: (nat, nat) -> Option<Chain>, raw: ByteString) {
    forall first: nat, remaining: nat {:trigger Followed(first, remaining)} ::
      Followed(first, remaining) ==> f(first, remaining) == Links(raw, first, remaining)
  }

  /** The overflow chain of a cell. */
  ghost function ChainOf(raw: ByteString, first: nat, remaining: nat): Option<Chain> {
    var links: (nat, nat) -> Option<Chain> := (first: nat, remaining: nat) => Links(raw, first, remaining);
    assert Follows(links, raw);
    var f: (nat, nat) -> Option<Chain> :| Follows(f, raw);
    f(first, remaining)
  }

  lemma ChainIs(raw: ByteString, first: nat, remaining: nat)
    ensures ChainOf(raw, first, remaining) == Links(raw, first, remaining)
  {
    assert Followed(first, remaining);
  }

  /** A chain has as many pages as its bytes need, and holds exactly those bytes. */
  lemma ChainIsExact(raw: ByteString, first: nat, remaining: nat)
    requires ChainOf(raw, first, remaining).Some?
    ensures var chain := ChainOf(raw, first, remaining).value;
            |chain.pages| == (remaining + CHUNK - 1) / CHUNK && |chain.data| == remaining
    decreases remaining
  {
    ChainIs(raw, first, remaining);
    if remaining > 0 {
      var next, rest := U32(PageAt(raw, first), 0), remaining - Share(remaining);
      ChainIs(raw, next, rest);
      ChainIsExact(raw, next, rest);
    }
  }

  /** Each page of a chain names the next one, and the last names none. */
  lemma ChainIsLinked(raw: ByteString, first: nat, remaining: nat, i: nat)
    requires ChainOf(raw, first, remaining).Some? && i < |ChainOf(raw, first, remaining).value.pages|
    ensures var pages := ChainOf(raw, first, remaining).value.pages;
            && pages[0] == first && 1 <= pages[i] <= PageCount(raw)
            && U32(PageAt(raw, pages[i]), 0) == if i + 1 < |pages| then pages[i + 1] else 0
    decreases remaining
  {
    ChainIs(raw, first, remaining);
    var next, rest := U32(PageAt(raw, first), 0), remaining - Share(remaining);
    ChainIs(raw, next, rest);
    if rest > 0 {
      ChainIsExact(raw, next, rest);
      ChainIsLinked(raw, next, rest, if i > 0 then i - 1 else 0);
    }
  }

  // ------------------------------------------------- chains as they are written

  /** An overflow page as it is written: the next page, a part of the payload, and zeros. */
  function LinkBytes(next: nat, part: ByteString): ByteString
    requires |part| <= CHUNK
  {
    PutBig(next, 4) + part + Zeros(CHUNK - |part|)
  }

  /** The k-th part of a payload. */
  function Part(data: ByteString, k: nat): (part: ByteString)
    ensures |part| <= CHUNK
  {
    if k * CHUNK >= |data| then []
    else if |data| - k * CHUNK <= CHUNK then data[k * CHUNK..]
    else data[k * CHUNK..k * CHUNK + CHUNK]
  }

  function NextPage(pages: seq<nat>, k: nat): nat {
    if k + 1 < |pages| then pages[k + 1] else 0
  }

  /** The pages hold the payload and nothing else, from a first page on. */
  ghost predicate IsWritten(raw: ByteString, first: nat, pages: seq<nat>, data: ByteString) {
    && |pages| == (|data| + CHUNK - 1) / CHUNK
    && (pages != [] ==> pages[0] == first)
    && forall k :: 0 <= k < |pages| ==> IsLink(raw, pages, data, k)
  }

  ghost predicate IsLink(raw: ByteString, pages: seq<nat>, data: ByteString, k: nat)
    requires k < |pages|
  {
    && 1 <= pages[k] <= PageCount(raw) && NextPage(pages, k) < Pow256(4)
    && PageAt(raw, pages[k]) == LinkBytes(NextPage(pages, k), Part(data, k))
  }

  lemma SplitPage(page: Page, share: nat)
    requires share <= CHUNK
    ensures page == page[..4] + page[4..4 + share] + page[4 + share..]
    ensures page[..4] == PutBig(U32(page, 0), 4)
  {
    U32IsBig(page, 0);
    BigReadsAll(page[0..4]);
  }

  /** A page passes the test of a link exactly when it is written as one. */
  lemma GoodLinkIsWritten(page: Page, remaining: nat)
    requires remaining > 0
    ensures GoodLink(page, remaining)
       <==> && page == LinkBytes(U32(page, 0), page[4..4 + Share(remaining)])
            && (U32(page, 0) == 0 <==> remaining <= CHUNK)
  {
    var share := Share(remaining);
    SplitPage(page, share);
    var rest := page[4 + share..];
    assert forall i :: 0 <= i < |rest| ==> rest[i] == page[4 + share + i];
    if Zero(page, 4 + share, PAGE) {
      assert rest == Zeros(CHUNK - share);
    }
    if page == LinkBytes(U32(page, 0), page[4..4 + share]) {
      var written := LinkBytes(U32(page, 0), page[4..4 + share]);
      assert |page[..4]| == 4;
      assert forall i :: 4 + share <= i < PAGE ==> written[i] == 0;
    }
  }

  lemma LinkReadsBack(page: Page, next: nat, part: ByteString)
    requires |part| <= CHUNK && next < Pow256(4) && page == LinkBytes(next, part)
    ensures U32(page, 0) == next && page[4..4 + |part|] == part
  {
    PutBigIsExact(next, 4);
    U32IsBig(page, 0);
    assert page[0..4] == PutBig(next, 4);
  }

  lemma PartsShift(data: ByteString, k: nat)
    requires |data| > CHUNK
    ensures Part(data, k + 1) == Part(data[CHUNK..], k)
  {
  }

  lemma LinksShift(raw: ByteString, pages: seq<nat>, data: ByteString, k: nat)
    requires k + 1 < |pages| && |data| > CHUNK
    ensures IsLink(raw, pages, data, k + 1) <==> IsLink(raw, pages[1..], data[CHUNK..], k)
  {
    PartsShift(data, k);
  }

  /** A written chain is its first page and the chain after it. */
  lemma WrittenOpens(raw: ByteString, first: nat, pages: seq<nat>, data: ByteString)
    requires data != [] && pages != []
    ensures IsWritten(raw, first, pages, data)
       <==> && pages[0] == first && IsLink(raw, pages, data, 0)
            && (|pages| > 1 <==> |data| > CHUNK)
            && IsWritten(raw, NextPage(pages, 0), pages[1..], data[Share(|data|)..])
  {
    if |data| > CHUNK && |pages| > 1 {
      forall k | 0 <= k < |pages| - 1
        ensures IsLink(raw, pages, data, k + 1) <==> IsLink(raw, pages[1..], data[CHUNK..], k)
      {
        LinksShift(raw, pages, data, k);
      }
      if IsWritten(raw, NextPage(pages, 0), pages[1..], data[CHUNK..]) && IsLink(raw, pages, data, 0) {
        forall k | 0 <= k < |pages| ensures IsLink(raw, pages, data, k) {
          if k > 0 {
            assert IsLink(raw, pages[1..], data[CHUNK..], k - 1);
          }
        }
      }
    }
  }

  /** A first page is a link exactly when it can be followed to the part and the next page. */
  lemma FirstLink(raw: ByteString, pages: seq<nat>, data: ByteString)
    requires data != [] && pages != [] && (|pages| > 1 <==> |data| > CHUNK) && (|pages| > 1 ==> pages[1] > 0)
    ensures IsLink(raw, pages, data, 0)
       <==> && CanFollow(raw, pages[0], |data|)
            && PageAt(raw, pages[0])[4..4 + Share(|data|)] == data[..Share(|data|)]
            && U32(PageAt(raw, pages[0]), 0) == NextPage(pages, 0)
  {
    if 1 <= pages[0] <= PageCount(raw) {
      var page := PageAt(raw, pages[0]);
      GoodLinkIsWritten(page, |data|);
      assert Part(data, 0) == data[..Share(|data|)];
      if IsLink(raw, pages, data, 0) {
        LinkReadsBack(page, NextPage(pages, 0), Part(data, 0));
      }
      U32IsBig(page, 0);
      BigReadsAll(page[0..4]);
    }
  }

  /**
    * A chain is followed exactly when its pages are written as links: each holds the next page, its part
    * of the payload and zeros, and nothing else.
    */
  lemma {:induction false} ChainIsWritten(raw: ByteString, first: nat, pages: seq<nat>, data: ByteString)
    ensures ChainOf(raw, first, |data|) == Some(Chain(pages, data)) <==> IsWritten(raw, first, pages, data)
    decreases |data|
  {
    if data == [] {
      ChainIs(raw, first, 0);
    } else if pages == [] {
      if ChainOf(raw, first, |data|).Some? {
        ChainIsExact(raw, first, |data|);
      }
    } else {
      ChainIsWritten(raw, NextPage(pages, 0), pages[1..], data[Share(|data|)..]);
      WrittenOpens(raw, first, pages, data);
      ChainOpens(raw, first, pages, data);
    }
  }

  lemma ChainStarts(raw: ByteString, first: nat, remaining: nat)
    requires Links(raw, first, remaining).Some?
    ensures var chain := Links(raw, first, remaining).value;
            && |chain.data| == remaining
            && (if remaining == 0 then chain.pages == [] else chain.pages != [] && chain.pages[0] == first >= 1)
  {
    ChainIs(raw, first, remaining);
    ChainIsExact(raw, first, remaining);
  }

  /** The chain after the first page of a chain. */
  predicate Continues(chain: Option<Chain>, pages: seq<nat>, data: ByteString)
    requires data != [] && pages != []
  {
    chain == Some(Chain(pages[1..], data[Share(|data|)..])) && (|pages| > 1 <==> |data| > CHUNK)
  }

  lemma ChainOpens(raw: ByteString, first: nat, pages: seq<nat>, data: ByteString)
    requires data != [] && pages != []
    ensures ChainOf(raw, first, |data|) == Some(Chain(pages, data))
       <==> && pages[0] == first && IsLink(raw, pages, data, 0)
            && Continues(ChainOf(raw, NextPage(pages, 0), |data| - Share(|data|)), pages, data)
  {
    ChainIs(raw, first, |data|);
    ChainIs(raw, NextPage(pages, 0), |data| - Share(|data|));
    if Links(raw, first, |data|) == Some(Chain(pages, data)) {
      ChainHasLink(raw, first, pages, data);
    } else if pages[0] == first && IsLink(raw, pages, data, 0)
              && Continues(Links(raw, NextPage(pages, 0), |data| - Share(|data|)), pages, data) {
      LinkMakesChain(raw, pages, data);
    }
  }

  lemma LinkMakesChain(raw: ByteString, pages: seq<nat>, data: ByteString)
    requires data != [] && pages != [] && IsLink(raw, pages, data, 0)
    requires Continues(Links(raw, NextPage(pages, 0), |data| - Share(|data|)), pages, data)
    ensures Links(raw, pages[0], |data|) == Some(Chain(pages, data))
  {
    var share := Share(|data|);
    ChainStarts(raw, NextPage(pages, 0), |data| - share);
    FirstLink(raw, pages, data);
    assert [pages[0]] + pages[1..] == pages && data[..share] + data[share..] == data;
  }

  lemma ChainHasLink(raw: ByteString, first: nat, pages: seq<nat>, data: ByteString)
    requires data != [] && Links(raw, first, |data|) == Some(Chain(pages, data))
    ensures pages != [] && pages[0] == first && IsLink(raw, pages, data, 0)
    ensures Continues(Links(raw, NextPage(pages, 0), |data| - Share(|data|)), pages, data)
  {
    var page, share := PageAt(raw, first), Share(|data|);
    var rest := Links(raw, U32(page, 0), |data| - share).value;
    ChainStarts(raw, U32(page, 0), |data| - share);
    assert pages[1..] == rest.pages && data[share..] == rest.data && data[..share] == page[4..4 + share];
    FirstLink(raw, pages, data);
  }

  /** A chain behind pages already followed. */
  function Behind(pages: seq<nat>, data: ByteString, rest: Option<Chain>): Option<Chain> {
    match rest
    case None => None
    case Some(chain) => Some(Chain(pages + chain.pages, data + chain.data))
  }

  /** With some pages followed and bytes gathered, going on from a page gives the whole chain. */
  ghost predicate Partway(raw: ByteString, whole: Option<Chain>, pages: seq<nat>, data: ByteString, first: nat,
                          remaining: nat)
    decreases remaining
  {
    if remaining == 0 then whole == Some(Chain(pages, data))
    else if !CanFollow(raw, first, remaining) then whole == None
    else
      var page := PageAt(raw, first);
      Partway(raw, whole, pages + [first], data + page[4..4 + Share(remaining)], U32(page, 0),
              remaining - Share(remaining))
  }

  lemma {:induction false} GoingOn(raw: ByteString, pages: seq<nat>, data: ByteString, first: nat, remaining: nat)
    ensures Partway(raw, Behind(pages, data, Links(raw, first, remaining)), pages, data, first, remaining)
    decreases remaining
  {
    if remaining == 0 {
      assert pages + [] == pages && data + [] == data;
    } else if CanFollow(raw, first, remaining) {
      var page := PageAt(raw, first);
      var share, rest := page[4..4 + Share(remaining)], Links(raw, U32(page, 0), remaining - Share(remaining));
      GoingOn(raw, pages + [first], data + share, U32(page, 0), remaining - Share(remaining));
      if rest.Some? {
        assert pages + ([first] + rest.value.pages) == (pages + [first]) + rest.value.pages;
        assert data + (share + rest.value.data) == (data + share) + rest.value.data;
      }
    }
  }

  lemma ChainBegins(raw: ByteString, first: nat, remaining: nat)
    ensures Partway(raw, ChainOf(raw, first, remaining), [], [], first, remaining)
  {
    ChainIs(raw, first, remaining);
    var chain := Links(raw, first, remaining);
    assert chain.Some? ==> [] + chain.value.pages == chain.value.pages && [] + chain.value.data == chain.value.data;
    GoingOn(raw, [], [], first, remaining);
  }

  lemma {:induction false} PagesSoFar(raw: ByteString, whole: Option<Chain>, pages: seq<nat>, data: ByteString,
                                      first: nat, remaining: nat)
    requires Partway(raw, whole, pages, data, first, remaining) && whole.Some?
    ensures pages <= whole.value.pages
    decreases remaining
  {
    if remaining > 0 {
      var page := PageAt(raw, first);
      PagesSoFar(raw, whole, pages + [first], data + page[4..4 + Share(remaining)], U32(page, 0),
                 remaining - Share(remaining));
    }
  }

  /** A page that cannot be followed, or may not be claimed, spoils the chain. */
  lemma ChainStops(raw: ByteString, whole: Option<Chain>, pages: seq<nat>, data: ByteString, first: nat, remaining: nat,
                   held: set<int>)
    requires Partway(raw, whole, pages, data, first, remaining) && remaining > 0
    requires CanFollow(raw, first, remaining) ==> !Fresh(PageCount(raw), held, pages + [first])
    ensures whole.Some? ==> !Fresh(PageCount(raw), held, whole.value.pages)
  {
    if whole.Some? {
      var page := PageAt(raw, first);
      PagesSoFar(raw, whole, pages + [first], data + page[4..4 + Share(remaining)], U32(page, 0),
                 remaining - Share(remaining));
      var tail := whole.value.pages[|pages| + 1..];
      assert whole.value.pages == (pages + [first]) + tail;
      if Fresh(PageCount(raw), held, whole.value.pages) {
        FreshSplits(PageCount(raw), held, pages + [first], tail);
      }
    }
  }

  // ----------------------------------------------------- what a page leads to

  /** The row of a cell; an interior cell of the schema table has none. */
  ghost function Decoded(kind: nat, table: Table, rowid: nat, payload: ByteString): Option<seq<Row>> {
    if kind == TABLE_INTERIOR then Some([])
    else
      match DecodeRecord(payload, if table.SchemaTable? then 5 else table.fields)
      case None => None
      case Some(values) => Some([Row(table, rowid, values)])
  }

  /** Names a decoding; what it gives is looked up only where this stands. */
  predicate Read(kind: nat, table: Table, rowid: nat, payload: ByteString) {
    true
  }

  ghost predicate Decodes(f: (nat, Table, nat, ByteString) -> Option<seq<Row>>) {
    forall kind: nat, table, rowid: nat, payload {:trigger Read(kind, table, rowid, payload)} ::
      Read(kind, table, rowid, payload) ==> f(kind, table, rowid, payload) == Decoded(kind, table, rowid, payload)
  }

  ghost function RowsOf(kind: nat, table: Table, rowid: nat, payload: ByteString): Option<seq<Row>> {
    var decode: (nat, Table, nat, ByteString) -> Option<seq<Row>> :=
      (kind: nat, table: Table, rowid: nat, payload: ByteString) => Decoded(kind, table, rowid, payload);
    assert Decodes(decode);
    var f: (nat, Table, nat, ByteString) -> Option<seq<Row>> :| Decodes(f);
    f(kind, table, rowid, payload)
  }

  lemma RowsAre(kind: nat, table: Table, rowid: nat, payload: ByteString)
    ensures RowsOf(kind, table, rowid, payload) == Decoded(kind, table, rowid, payload)
  {
    assert Read(kind, table, rowid, payload);
  }

  ghost function FoundInCell(raw: ByteString, page: Page, kind: nat, table: Table, cell: Cell): Option<Found> {
    if cell.body + cell.local > PAGE then None
    else
      match ChainOf(raw, cell.overflowPage, cell.spill)
      case None => None
      case Some(chain) =>
        match RowsOf(kind, table, cell.rowid, page[cell.body..cell.body + cell.local] + chain.data)
        case None => None
        case Some(rows) => Some(Found(cell.left, chain.pages, rows))
  }

  /** The first n cells, each as `read` gives it. */
  ghost function CellsOf(read: nat -> Option<Cell>, n: nat): Option<seq<Cell>> {
    if n == 0 then Some([])
    else
      match CellsOf(read, n - 1)
      case None => None
      case Some(cells) =>
        match read(n - 1)
        case None => None
        case Some(cell) => Some(cells + [cell])
  }

  /** What cells lead to, each as `lead` gives it. */
  ghost function FoundOf(lead: Cell -> Option<Found>, cells: seq<Cell>): Option<Found> {
    if cells == [] then Some(Found([], [], []))
    else
      match FoundOf(lead, cells[..|cells| - 1])
      case None => None
      case Some(before) =>
        match lead(cells[|cells| - 1])
        case None => None
        case Some(found) => Some(before.Join(found))
  }

  /** `read` gives the cells of a page; looked up where one of its cells is named. */
  ghost predicate IsReader(read: nat -> Option<Cell>, page: Page, header: Header, imageBytes: nat) {
    && header.Sound()
    && forall k: nat {:trigger CellNumber(page, header, imageBytes, k)} ::
         k < header.cellCount ==> read(k) == CellNumber(page, header, imageBytes, k)
  }

  /** `lead` gives what the cells of a page lead to; looked up where that is named. */
  ghost predicate IsLeader(lead: Cell -> Option<Found>, raw: ByteString, page: Page, kind: nat, table: Table) {
    forall cell {:trigger FoundInCell(raw, page, kind, table, cell)} ::
      lead(cell) == FoundInCell(raw, page, kind, table, cell)
  }

  ghost function Reader(page: Page, header: Header, imageBytes: nat): (read: nat -> Option<Cell>)
    requires header.Sound()
    ensures IsReader(read, page, header, imageBytes)
  {
    var numbers: nat -> Option<Cell> :=
      (k: nat) => if k < header.cellCount then CellNumber(page, header, imageBytes, k) else None;
    assert IsReader(numbers, page, header, imageBytes);
    var read: nat -> Option<Cell> :| IsReader(read, page, header, imageBytes);
    read
  }

  ghost function Leader(raw: ByteString, page: Page, kind: nat, table: Table): (lead: Cell -> Option<Found>)
    ensures IsLeader(lead, raw, page, kind, table)
  {
    var leads: Cell -> Option<Found> := (cell: Cell) => FoundInCell(raw, page, kind, table, cell);
    assert IsLeader(leads, raw, page, kind, table);
    var lead: Cell -> Option<Found> :| IsLeader(lead, raw, page, kind, table);
    lead
  }

  lemma JoinNothing(found: Found)
    ensures found.Join(Found([], [], [])) == found
  {
    assert found.children + [] == found.children;
    assert found.overflow + [] == found.overflow && found.rows + [] == found.rows;
  }

  lemma JoinAssociates(a: Found, b: Found, c: Found)
    ensures a.Join(b).Join(c) == a.Join(b.Join(c))
  {
    assert (a.children + b.children) + c.children == a.children + (b.children + c.children);
    assert (a.overflow + b.overflow) + c.overflow == a.overflow + (b.overflow + c.overflow);
    assert (a.rows + b.rows) + c.rows == a.rows + (b.rows + c.rows);
  }

  /** The cells before the k-th, the k-th, and what comes after. */
  lemma {:induction false} CellsSplit(read: nat -> Option<Cell>, lead: Cell -> Option<Found>, n: nat, k: nat,
                                      cells: seq<Cell>, found: Found)
    returns (before: Found, here: Found, after: Found)
    requires k < n && CellsOf(read, n) == Some(cells) && FoundOf(lead, cells) == Some(found)
    ensures |cells| == n && CellsOf(read, k) == Some(cells[..k]) && read(k) == Some(cells[k])
    ensures FoundOf(lead, cells[..k]) == Some(before) && lead(cells[k]) == Some(here)
    ensures found == before.Join(here).Join(after)
  {
    var init, last := CellsOf(read, n - 1).value, read(n - 1).value;
    assert cells[..|init|] == init && cells[|init|] == last;
    CellsLength(read, n - 1);
    if k == n - 1 {
      before, here, after := FoundOf(lead, init).value, lead(last).value, Found([], [], []);
      JoinNothing(before.Join(here));
    } else {
      var rest;
      before, here, rest := CellsSplit(read, lead, n - 1, k, init, FoundOf(lead, init).value);
      after := rest.Join(lead(last).value);
      JoinAssociates(before.Join(here), rest, lead(last).value);
      assert init[..k] == cells[..k];
    }
  }

  lemma {:induction false} CellsLength(read: nat -> Option<Cell>, n: nat)
    requires CellsOf(read, n).Some?
    ensures |CellsOf(read, n).value| == n
  {
    if n > 0 {
      CellsLength(read, n - 1);
    }
  }

  /** Cells that touch spoil any longer list of cells. */
  lemma ApartPrefix(frees: seq<Range>, cells: seq<Cell>, k: nat)
    requires k <= |cells| && AllApart(frees + Ranges(cells))
    ensures AllApart(frees + Ranges(cells[..k]))
  {
    var all, part := frees + Ranges(cells), frees + Ranges(cells[..k]);
    assert forall i :: 0 <= i < |part| ==> part[i] == all[i];
  }

  lemma {:induction false} CellsStartAtPointers(page: Page, header: Header, imageBytes: nat,
                                                read: nat -> Option<Cell>, n: nat, i: nat)
    requires IsReader(read, page, header, imageBytes) && i < n <= header.cellCount && CellsOf(read, n).Some?
    ensures |CellsOf(read, n).value| == n
    ensures var r := CellsOf(read, n).value[i].range; U16(page, header.pointerStart + 2 * i) == r.lo < r.hi
  {
    CellsLength(read, n - 1);
    if i < n - 1 {
      CellsStartAtPointers(page, header, imageBytes, read, n - 1, i);
    } else {
      var number := CellNumber(page, header, imageBytes, i);
      NumberStarts(page, header, imageBytes, i);
    }
  }

  lemma NumberStarts(page: Page, header: Header, imageBytes: nat, i: nat)
    requires header.Sound() && i < header.cellCount && CellNumber(page, header, imageBytes, i).Some?
    ensures var r := CellNumber(page, header, imageBytes, i).value.range;
            U16(page, header.pointerStart + 2 * i) == r.lo < r.hi
  {
    CellIsInside(page, header.kind, U16(page, header.pointerStart + 2 * i), imageBytes);
  }

  /** Cells of one pointer touch, so the test of the pointers rejects nothing that is laid out canonically. */
  lemma SamePointersTouch(page: Page, header: Header, imageBytes: nat, read: nat -> Option<Cell>, frees: seq<Range>)
    requires IsReader(read, page, header, imageBytes) && !DistinctPointers(page, header)
    requires CellsOf(read, header.cellCount).Some?
    ensures !AllApart(frees + Ranges(CellsOf(read, header.cellCount).value))
  {
    var cells := CellsOf(read, header.cellCount).value;
    var i, j :| 0 <= i < j < header.cellCount
             && U16(page, header.pointerStart + 2 * i) == U16(page, header.pointerStart + 2 * j);
    CellsStartAtPointers(page, header, imageBytes, read, header.cellCount, i);
    CellsStartAtPointers(page, header, imageBytes, read, header.cellCount, j);
    var all := frees + Ranges(cells);
    assert all[|frees| + i] == cells[i].range && all[|frees| + j] == cells[j].range;
    assert !Apart(all[|frees| + i], all[|frees| + j]);
  }

  function RightChild(page: Page, header: Header): seq<nat>
    requires header.Interior() ==> 4 <= header.pointerStart <= PAGE
  {
    if header.Interior() then [U32(page, header.pointerStart - 4)] else []
  }

  /** What a page leads to, if it is laid out canonically and all that its cells hold can be decoded. */
  ghost function BodyFound(raw: ByteString, page: Page, header: Header, table: Table): Option<Found>
    requires header.Sound() && (header.Interior() ==> 4 <= header.pointerStart)
  {
    match Freeblocks(page, header.contentStart, header.firstFree)
    case None => None
    case Some(frees) =>
      match CellsOf(Reader(page, header, |raw|), header.cellCount)
      case None => None
      case Some(cells) =>
        if !Canonical(page, header, frees, Ranges(cells)) then None
        else
          match FoundOf(Leader(raw, page, header.kind, table), cells)
          case None => None
          case Some(found) => Some(Found(RightChild(page, header), [], []).Join(found))
  }

  /** What an entry of the work list leads to. */
  ghost function PageFound(raw: ByteString, e: Entry): Option<Found> {
    if !(1 <= e.page <= PageCount(raw)) then None
    else
      match ReadHeader(PageAt(raw, e.page), e.page, e.table.SchemaTable?)
      case None => None
      case Some(header) => BodyFound(raw, PageAt(raw, e.page), header, e.table)
  }

  /** `find` gives what entries lead to; looked up where that is named. */
  ghost predicate IsFinder(find: Find, raw: ByteString) {
    forall e {:trigger PageFound(raw, e)} :: find(e) == PageFound(raw, e)
  }

  ghost function Finder(raw: ByteString): (find: Find)
    ensures IsFinder(find, raw)
  {
    var finds: Find := (e: Entry) => PageFound(raw, e);
    assert IsFinder(finds, raw);
    var find: Find :| IsFinder(find, raw);
    find
  }

  /** A table of the schema: its root page, its name and the number of its fields. */
  datatype Root = Root(page: int, name: string, fields: nat)

  /** The work list at the start: the tables in reverse and the schema table last. */
  function RootEntries(tables: seq<Root>): seq<Entry> {
    if tables == [] then [Entry(1, 0, SchemaTable)]
    else
      var last := tables[|tables| - 1];
      [Entry(last.page, 0, RowTable(last.name, last.fields))] + RootEntries(tables[..|tables| - 1])
  }

  /** The walk of an image. */
  ghost function ImageWalk(raw: ByteString, tables: seq<Root>): Option<Seen> {
    Walk(Finder(raw), PageCount(raw), {}, RootEntries(tables))
  }
}
