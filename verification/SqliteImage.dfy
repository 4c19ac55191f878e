/** What the walk promises about an accepted SQLite image (protocol/conformance/hub_sync.py). */
module SqliteImage {
  import opened Outcomes
  import opened Bytes
  import opened BigEndian
  import opened Varint
  import opened Record
  import opened SqlitePage
  import opened PageForest
  import opened SqliteWalk

  /**
    * An image is accepted exactly when its pages are a forest: from the root pages on, every page is
    * laid out canonically, and b-tree pages and overflow pages together are all pages, each once.
    */
  lemma AcceptsExactlyForests(raw: ByteString, tables: seq<Root>)
    ensures ImageWalk(raw, tables).Some? <==> HasForest(Finder(raw), PageCount(raw), RootEntries(tables))
  {
    PageForest.AcceptsExactlyForests(Finder(raw), PageCount(raw), RootEntries(tables));
  }

  /** The pages of an accepted image are partitioned into b-tree pages and overflow pages, each seen once. */
  lemma EveryPageHasOneRole(raw: ByteString, tables: seq<Root>, p: int)
    requires ImageWalk(raw, tables).Some?
    ensures var seen := ImageWalk(raw, tables).value;
            && (1 <= p <= PageCount(raw) <==> p in seen.btree || p in seen.overflow)
            && !(p in seen.btree && p in seen.overflow)
            && multiset(seen.btree)[p] <= 1 && multiset(seen.overflow)[p] <= 1
            && 1 in seen.btree && (forall t <- tables :: t.page in seen.btree)
  {
    var seen := ImageWalk(raw, tables).value;
    PagesArePartitioned(Finder(raw), PageCount(raw), {}, RootEntries(tables));
    FreshIs(PageCount(raw), {}, seen.btree);
    FreshIs(PageCount(raw), {}, seen.overflow);
    NoneTwice(seen.btree, p);
    NoneTwice(seen.overflow, p);
    assert p in Numbers(PageCount(raw)) <==> p in Elements(seen.btree) || p in Elements(seen.overflow);
    RootsAreSeen(raw, tables);
  }

  lemma {:induction false} RootsAreEntries(tables: seq<Root>)
    ensures Entry(1, 0, SchemaTable) in RootEntries(tables)
    ensures forall t <- tables :: Entry(t.page, 0, RowTable(t.name, t.fields)) in RootEntries(tables)
  {
    if tables != [] {
      RootsAreEntries(tables[..|tables| - 1]);
    }
  }

  /** The schema table starts on page 1, and every table on its root page. */
  lemma RootsAreSeen(raw: ByteString, tables: seq<Root>)
    requires ImageWalk(raw, tables).Some?
    ensures 1 in ImageWalk(raw, tables).value.btree
    ensures forall t <- tables :: t.page in ImageWalk(raw, tables).value.btree
  {
    RootsAreEntries(tables);
    var entries := RootEntries(tables);
    forall e | e in entries ensures e.page in ImageWalk(raw, tables).value.btree {
      var i :| 0 <= i < |entries| && entries[i] == e;
      PendingIsSeen(Finder(raw), PageCount(raw), {}, entries, i);
    }
    forall t | t in tables ensures t.page in ImageWalk(raw, tables).value.btree {
      assert Entry(t.page, 0, RowTable(t.name, t.fields)) in entries;
    }
    assert Entry(1, 0, SchemaTable) in entries;
  }

  // ----------------------------------------------------------- one b-tree page

  /** The header, freeblocks and cells of a b-tree page, as its bytes and its pointers give them. */
  ghost predicate IsLayout(raw: ByteString, e: Entry, header: Header, frees: seq<Range>, cells: seq<Cell>) {
    && 1 <= e.page <= PageCount(raw)
    && ReadHeader(PageAt(raw, e.page), e.page, e.table.SchemaTable?) == Some(header)
    && Freeblocks(PageAt(raw, e.page), header.contentStart, header.firstFree) == Some(frees)
    && |cells| == header.cellCount
    && forall k: nat :: k < |cells| ==> CellNumber(PageAt(raw, e.page), header, |raw|, k) == Some(cells[k])
  }

  lemma {:induction false} CellsAreNumbered(page: Page, header: Header, imageBytes: nat, read: nat -> Option<Cell>,
                                            n: nat)
    requires IsReader(read, page, header, imageBytes) && n <= header.cellCount && CellsOf(read, n).Some?
    ensures var cells := CellsOf(read, n).value;
            && |cells| == n && Within(Ranges(cells), header.contentStart, PAGE)
            && forall k: nat :: k < n ==> CellNumber(page, header, imageBytes, k) == Some(cells[k])
  {
    if n > 0 {
      CellsAreNumbered(page, header, imageBytes, read, n - 1);
      var number := CellNumber(page, header, imageBytes, n - 1);
      CellIsInside(page, header.kind, U16(page, header.pointerStart + 2 * (n - 1)), imageBytes);
      RangesAppend(CellsOf(read, n - 1).value, number.value);
    }
  }

  /** The layout of a page that leads somewhere, and what its cells lead to. */
  lemma LayoutOf(raw: ByteString, e: Entry) returns (header: Header, frees: seq<Range>, cells: seq<Cell>, found: Found)
    requires PageFound(raw, e).Some?
    ensures IsLayout(raw, e, header, frees, cells)
    ensures Within(Ranges(cells), header.contentStart, PAGE)
    ensures Canonical(PageAt(raw, e.page), header, frees, Ranges(cells))
    ensures CellsOf(Reader(PageAt(raw, e.page), header, |raw|), |cells|) == Some(cells)
    ensures FoundOf(Leader(raw, PageAt(raw, e.page), header.kind, e.table), cells) == Some(found)
    ensures PageFound(raw, e).value == Found(RightChild(PageAt(raw, e.page), header), [], []).Join(found)
  {
    var page := PageAt(raw, e.page);
    header := ReadHeader(page, e.page, e.table.SchemaTable?).value;
    frees := Freeblocks(page, header.contentStart, header.firstFree).value;
    var read := Reader(page, header, |raw|);
    CellsAreNumbered(page, header, |raw|, read, header.cellCount);
    cells := CellsOf(read, header.cellCount).value;
    found := FoundOf(Leader(raw, page, header.kind, e.table), cells).value;
  }

  /** Every byte after the pointers has one place, and is zero outside cells and the heads of freeblocks. */
  ghost predicate NothingHidden(page: Page, header: Header, frees: seq<Range>, cells: seq<Range>) {
    forall i: nat :: header.pointerEnd <= i < PAGE ==>
      && !(In(cells, i) && In(frees, i))
      && (i < header.contentStart ==> !In(cells, i) && !In(frees, i))
      && (i >= header.contentStart && !In(cells, i) ==>
            (In(frees, i) <==> !Loose(LiveBytes(header.pointerEnd, cells), header.contentStart, i)))
      && (!In(cells, i) && !InHead(frees, i) ==> page[i] == 0)
  }

  /**
    * Nothing is hidden on a b-tree page of an accepted image. Its freeblocks and the cells that its
    * pointers name are disjoint inside the content area; the freeblocks are its long gaps and the
    * fragment total counts the rest; and each byte after the pointers has its one place.
    */
  lemma NoHiddenBytes(raw: ByteString, tables: seq<Root>, p: int)
    returns (e: Entry, header: Header, frees: seq<Range>, cells: seq<Cell>)
    requires ImageWalk(raw, tables).Some? && p in ImageWalk(raw, tables).value.btree
    ensures e.page == p && IsLayout(raw, e, header, frees, cells)
    ensures AllApart(frees + Ranges(cells)) && Within(frees + Ranges(cells), header.contentStart, PAGE)
    ensures FillsGaps(header, frees, Ranges(cells))
    ensures header.fragments == LooseBytes(LiveBytes(header.pointerEnd, Ranges(cells)), header.contentStart, PAGE)
    ensures AreBlocks(PageAt(raw, p), header.contentStart, header.firstFree, frees)
    ensures NothingHidden(PageAt(raw, p), header, frees, Ranges(cells))
  {
    e := SeenWasFound(Finder(raw), PageCount(raw), {}, RootEntries(tables), p);
    var leadsTo, found := PageFound(raw, e), Found([], [], []);
    header, frees, cells, found := LayoutOf(raw, e);
    var page := PageAt(raw, p);
    FreeblocksIncrease(page, header.contentStart, header.firstFree);
    FreeblocksAreWritten(page, header.contentStart, header.firstFree, frees);
    CanonicalIs(page, header, frees, Ranges(cells));
    forall i: nat | header.pointerEnd <= i < PAGE {
      EveryByteIsAccountedFor(page, header, frees, Ranges(cells), i);
    }
  }

  // -------------------------------------------------------- overflow of a cell

  /** The payload that the cell at an offset announces; interior cells of the schema table have none. */
  ghost function AnnouncedPayload(page: Page, kind: nat, at: nat): nat {
    if kind == TABLE_INTERIOR then 0
    else
      match VarintAt(page, if kind == INDEX_INTERIOR then at + 4 else at, PAGE)
      case None => 0
      case Some((payload, _)) => payload
  }

  /** A cell keeps the local share of its payload, and the rest spills. */
  lemma CellSplitsPayload(page: Page, kind: nat, at: nat, imageBytes: nat)
    requires CellAt(page, kind, at, imageBytes).Some?
    ensures var cell, payload := CellAt(page, kind, at, imageBytes).value, AnnouncedPayload(page, kind, at);
            cell.local == LocalBytes(payload, kind) && cell.local + cell.spill == payload
  {
    LocalBytesFit(AnnouncedPayload(page, kind, at), kind);
  }

  /** The rows of a payload: one record of the table's fields; an interior cell of the schema table has none. */
  ghost predicate HoldsRows(kind: nat, table: Table, rowid: nat, payload: ByteString, rows: seq<Row>) {
    if kind == TABLE_INTERIOR then rows == []
    else
      && |rows| == 1 && rows[0].table == table && rows[0].rowid == rowid
      && IsRecord(payload, rows[0].values)
      && |rows[0].values| == if table.SchemaTable? then 5 else table.fields
  }

  /** The child pointer of an interior cell. */
  function ChildOf(page: Page, header: Header, at: nat): seq<nat>
    requires header.Interior() ==> at + 4 <= PAGE
  {
    if header.Interior() then [Big(page[at..at + 4])] else []
  }

  /**
    * A cell with what it leads to: its child, the overflow pages written with what its local share
    * leaves of the payload, and the record of the whole payload.
    */
  ghost predicate CellIsStored(raw: ByteString, e: Entry, header: Header, cell: Cell, data: ByteString, found: Found)
    requires 1 <= e.page <= PageCount(raw)
  {
    var page := PageAt(raw, e.page);
    var payload := AnnouncedPayload(page, header.kind, cell.range.lo);
    && (header.Interior() ==> cell.range.lo + 4 <= PAGE) && found.children == ChildOf(page, header, cell.range.lo)
    && cell.body + cell.local <= PAGE && cell.local == LocalBytes(payload, header.kind)
    && cell.local + |data| == payload && IsWritten(raw, cell.overflowPage, found.overflow, data)
    && HoldsRows(header.kind, e.table, cell.rowid, page[cell.body..cell.body + cell.local] + data, found.rows)
  }

  lemma FoundIsStored(raw: ByteString, e: Entry, header: Header, cell: Cell, found: Found) returns (data: ByteString)
    requires 1 <= e.page <= PageCount(raw) && cell.body + cell.local <= PAGE
    requires FoundInCell(raw, PageAt(raw, e.page), header.kind, e.table, cell) == Some(found)
    ensures |data| == cell.spill && IsWritten(raw, cell.overflowPage, found.overflow, data)
    ensures found.children == cell.left
    ensures var payload := PageAt(raw, e.page)[cell.body..cell.body + cell.local] + data;
            HoldsRows(header.kind, e.table, cell.rowid, payload, found.rows)
  {
    var page := PageAt(raw, e.page);
    data := ChainOf(raw, cell.overflowPage, cell.spill).value.data;
    ChainIsExact(raw, cell.overflowPage, cell.spill);
    ChainIsWritten(raw, cell.overflowPage, found.overflow, data);
    RowsAre(header.kind, e.table, cell.rowid, page[cell.body..cell.body + cell.local] + data);
  }

  lemma ChildIsFirst(page: Page, header: Header, at: nat, imageBytes: nat)
    requires CellAt(page, header.kind, at, imageBytes).Some?
    ensures header.Interior() ==> at + 4 <= PAGE
    ensures CellAt(page, header.kind, at, imageBytes).value.left == ChildOf(page, header, at)
  {
    if header.Interior() {
      U32IsBig(page, at);
    }
  }

  lemma NumberedCellIsStored(raw: ByteString, e: Entry, header: Header, k: nat, cell: Cell, here: Found)
    returns (data: ByteString)
    requires 1 <= e.page <= PageCount(raw) && header.Sound() && k < header.cellCount
    requires CellNumber(PageAt(raw, e.page), header, |raw|, k) == Some(cell)
    requires FoundInCell(raw, PageAt(raw, e.page), header.kind, e.table, cell) == Some(here)
    ensures CellIsStored(raw, e, header, cell, data, here)
  {
    var page := PageAt(raw, e.page);
    var at := U16(page, header.pointerStart + 2 * k);
    CellIsInside(page, header.kind, at, |raw|);
    CellSplitsPayload(page, header.kind, at, |raw|);
    ChildIsFirst(page, header, at, |raw|);
    data := FoundIsStored(raw, e, header, cell, here);
  }

  /** All that a part leads to is in the whole. */
  lemma PartIsIncluded(seen: Seen, right: seq<nat>, before: Found, here: Found, after: Found)
    requires Includes(seen, Found(right, [], []).Join(before.Join(here).Join(after)))
    ensures Includes(seen, here)
  {
    var whole := Found(right, [], []).Join(before.Join(here).Join(after));
    forall c | c in here.children ensures c in seen.btree {
      assert c in whole.children;
    }
    forall o | o in here.overflow ensures o in seen.overflow {
      assert o in whole.overflow;
    }
    forall r | r in here.rows ensures r in seen.rows {
      assert r in whole.rows;
    }
  }

  lemma CellOfPage(raw: ByteString, e: Entry, header: Header, frees: seq<Range>, cells: seq<Cell>, found: Found,
                   seen: Seen, k: nat)
    returns (here: Found, data: ByteString)
    requires IsLayout(raw, e, header, frees, cells) && k < |cells|
    requires CellsOf(Reader(PageAt(raw, e.page), header, |raw|), |cells|) == Some(cells)
    requires FoundOf(Leader(raw, PageAt(raw, e.page), header.kind, e.table), cells) == Some(found)
    requires Includes(seen, Found(RightChild(PageAt(raw, e.page), header), [], []).Join(found))
    ensures FoundInCell(raw, PageAt(raw, e.page), header.kind, e.table, cells[k]) == Some(here)
    ensures CellIsStored(raw, e, header, cells[k], data, here) && Includes(seen, here)
  {
    var page := PageAt(raw, e.page);
    var lead := Leader(raw, page, header.kind, e.table);
    var before, after;
    before, here, after := CellsSplit(Reader(page, header, |raw|), lead, |cells|, k, cells, found);
    PartIsIncluded(seen, RightChild(page, header), before, here, after);
    assert FoundInCell(raw, page, header.kind, e.table, cells[k]) == Some(here);
    data := NumberedCellIsStored(raw, e, header, k, cells[k], here);
  }

  /** A cell is stored and all it leads to is seen. */
  ghost predicate StoredAndSeen(raw: ByteString, seen: Seen, e: Entry, header: Header, cell: Cell)
    requires 1 <= e.page <= PageCount(raw)
  {
    exists data, found :: CellIsStored(raw, e, header, cell, data, found) && Includes(seen, found)
  }

  /** The right child of an interior page is seen. */
  ghost predicate RightIsSeen(raw: ByteString, seen: Seen, e: Entry, header: Header)
    requires 1 <= e.page <= PageCount(raw)
  {
    header.Interior() ==>
      && 4 <= header.pointerStart <= PAGE
      && Big(PageAt(raw, e.page)[header.pointerStart - 4..header.pointerStart]) in seen.btree
  }

  ghost predicate PageIsStored(raw: ByteString, seen: Seen, e: Entry, header: Header, cells: seq<Cell>)
    requires 1 <= e.page <= PageCount(raw)
  {
    && RightIsSeen(raw, seen, e, header)
    && forall k :: 0 <= k < |cells| ==> StoredAndSeen(raw, seen, e, header, cells[k])
  }

  lemma RightChildIsSeen(raw: ByteString, seen: Seen, e: Entry, header: Header, found: Found)
    requires 1 <= e.page <= PageCount(raw) && header.Sound() && (header.Interior() ==> 4 <= header.pointerStart)
    requires Includes(seen, Found(RightChild(PageAt(raw, e.page), header), [], []).Join(found))
    ensures RightIsSeen(raw, seen, e, header)
  {
    if header.Interior() {
      var page, whole := PageAt(raw, e.page), Found(RightChild(PageAt(raw, e.page), header), [], []).Join(found);
      U32IsBig(page, header.pointerStart - 4);
      assert whole.children[0] in whole.children;
    }
  }

  lemma FoundPageIsStored(raw: ByteString, seen: Seen, e: Entry)
    returns (header: Header, frees: seq<Range>, cells: seq<Cell>)
    requires PageFound(raw, e).Some? && Includes(seen, PageFound(raw, e).value)
    ensures IsLayout(raw, e, header, frees, cells) && PageIsStored(raw, seen, e, header, cells)
  {
    var found;
    header, frees, cells, found := LayoutOf(raw, e);
    RightChildIsSeen(raw, seen, e, header, found);
    forall k | 0 <= k < |cells| ensures StoredAndSeen(raw, seen, e, header, cells[k]) {
      var here, data := CellOfPage(raw, e, header, frees, cells, found, seen, k);
    }
  }

  /**
    * The cells of a b-tree page of an accepted image: each keeps exactly its local share, the rest is
    * written on exactly ceil((payload - local) / (page size - 4)) overflow pages, the payload is a record
    * of its table, and the children, these pages and the row are among those seen.
    */
  lemma CellsAreStored(raw: ByteString, tables: seq<Root>, p: int)
    returns (e: Entry, header: Header, frees: seq<Range>, cells: seq<Cell>)
    requires ImageWalk(raw, tables).Some? && p in ImageWalk(raw, tables).value.btree
    ensures e.page == p && IsLayout(raw, e, header, frees, cells)
    ensures PageIsStored(raw, ImageWalk(raw, tables).value, e, header, cells)
  {
    e := SeenWasFound(Finder(raw), PageCount(raw), {}, RootEntries(tables), p);
    var leadsTo := PageFound(raw, e);
    header, frees, cells := FoundPageIsStored(raw, ImageWalk(raw, tables).value, e);
  }

  // ------------------------------------------------------------- overflow pages

  /** An overflow page that cells lead to belongs to one of them. */
  lemma {:induction false} OverflowOfCell(lead: Cell -> Option<Found>, cells: seq<Cell>, p: nat) returns (k: nat)
    requires FoundOf(lead, cells).Some? && p in FoundOf(lead, cells).value.overflow
    ensures k < |cells| && lead(cells[k]).Some? && p in lead(cells[k]).value.overflow
  {
    var init, last := cells[..|cells| - 1], cells[|cells| - 1];
    k := |cells| - 1;
    if p !in lead(last).value.overflow {
      k := OverflowOfCell(lead, init, p);
    }
  }

  lemma OverflowOfPage(raw: ByteString, seen: Seen, e: Entry, p: nat)
    returns (header: Header, frees: seq<Range>, cells: seq<Cell>, k: nat, data: ByteString, found: Found)
    requires PageFound(raw, e).Some? && Includes(seen, PageFound(raw, e).value)
    requires p in PageFound(raw, e).value.overflow
    ensures IsLayout(raw, e, header, frees, cells) && k < |cells|
    ensures CellIsStored(raw, e, header, cells[k], data, found) && p in found.overflow
  {
    var all;
    header, frees, cells, all := LayoutOf(raw, e);
    var page := PageAt(raw, e.page);
    var lead := Leader(raw, page, header.kind, e.table);
    assert p in all.overflow;
    k := OverflowOfCell(lead, cells, p);
    assert lead(cells[k]) == FoundInCell(raw, page, header.kind, e.table, cells[k]);
    found, data := CellOfPage(raw, e, header, frees, cells, all, seen, k);
  }

  /**
    * Nothing is hidden on an overflow page of an accepted image: its 4096 bytes are the number of the
    * next page, a part of the payload of a cell, and zeros.
    */
  lemma NoHiddenOverflowBytes(raw: ByteString, tables: seq<Root>, p: nat)
    returns (e: Entry, header: Header, frees: seq<Range>, cells: seq<Cell>, k: nat, data: ByteString, found: Found,
             i: nat)
    requires ImageWalk(raw, tables).Some? && p in ImageWalk(raw, tables).value.overflow
    ensures e.page in ImageWalk(raw, tables).value.btree && IsLayout(raw, e, header, frees, cells) && k < |cells|
    ensures CellIsStored(raw, e, header, cells[k], data, found) && i < |found.overflow| && found.overflow[i] == p
    ensures 1 <= p <= PageCount(raw) && PageAt(raw, p) == LinkBytes(NextPage(found.overflow, i), Part(data, i))
  {
    e := OverflowWasFound(Finder(raw), PageCount(raw), {}, RootEntries(tables), p);
    var leadsTo := PageFound(raw, e);
    header, frees, cells, k, data, found := OverflowOfPage(raw, ImageWalk(raw, tables).value, e, p);
    i :| 0 <= i < |found.overflow| && found.overflow[i] == p;
    assert IsLink(raw, found.overflow, data, i);
  }
}
