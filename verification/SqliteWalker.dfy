/**
  * The page walk (protocol/conformance/hub_sync.py), which updates its work list, its set of
  * scheduled pages, the role of each claimed page and the rows in place.
  */
module SqliteWalker {
  import opened Outcomes
  import opened Bytes
  import opened Record
  import opened SqlitePage
  import opened PageForest
  import opened SqliteWalk
  import opened WalkState

  method DecodeRows(kind: nat, table: Table, rowid: nat, payload: ByteString) returns (r: Option<seq<Row>>)
    ensures r == RowsOf(kind, table, rowid, payload)
  {
    RowsAre(kind, table, rowid, payload);
    if kind == TABLE_INTERIOR {
      return Some([]);
    }
    var fields := if table.SchemaTable? then 5 else table.fields;
    var values := ReadRecord(payload, fields);
    DecodeRecordIsExact(payload, fields, values);
    if values.None? {
      return None;
    }
    return Some([Row(table, rowid, values.value)]);
  }

  /** The bytes of one overflow page, and where the chain goes on. */
  method NextLink(raw: ByteString, page: nat, rest: nat, data: ByteString, ghost whole: Option<Chain>,
                  ghost pages: seq<nat>)
    returns (next: nat, left: nat, more: ByteString)
    requires rest > 0 && CanFollow(raw, page, rest) && Partway(raw, whole, pages, data, page, rest)
    ensures left < rest && Partway(raw, whole, pages + [page], more, next, left)
  {
    more := data + PageAt(raw, page)[4..4 + Share(rest)];
    next, left := U32(PageAt(raw, page), 0), rest - Share(rest);
  }

  class Walker {
    const raw: ByteString
    const limit: nat
    var pending: seq<Entry>
    var scheduled: set<int>
    var roles: map<int, Role>
    var rows: seq<Row>

    constructor (raw: ByteString)
      requires PageCount(raw) <= MAX_PAGES
      ensures this.raw == raw && Valid() && Snap() == State([], {}, map[], [])
    {
      this.raw, limit := raw, PageCount(raw);
      pending, scheduled, roles, rows := [], {}, map[], [];
      new;
      StartIsSound(limit);
    }

    ghost function Snap(): State
      reads this
    {
      State(pending, scheduled, roles, rows)
    }

    ghost predicate Valid()
      reads this
    {
      limit == PageCount(raw) <= MAX_PAGES && Sound(limit, Snap())
    }

    method Claim(page: int, role: Role) returns (ok: bool)
      requires Valid()
      modifies this`roles
      ensures Fresh(limit, old(Snap()).Held(), [page]) ==> ok
      ensures ok ==> page !in old(Snap()).Held() && Snap() == old(Snap()).Claim(page, role)
    {
      if Fresh(limit, Snap().Held(), [page]) {
        RoomForFresh(limit, Snap(), page);
      }
      if page in roles || page in scheduled || |roles| >= MAX_PAGES {
        return false;
      }
      roles := roles[page := role];
      return true;
    }

    /** Schedules a b-tree page. The bound on scheduled pages can never be what rejects it. */
    method Schedule(page: int, depth: nat, table: Table) returns (ok: bool)
      requires Valid()
      modifies this`pending, this`scheduled
      ensures ok <==> Fresh(limit, old(Snap()).Held(), [page])
      ensures ok ==> Valid() && Snap() == old(Snap()).Push(Entry(page, depth, table))
    {
      if Fresh(limit, Snap().Held(), [page]) {
        RoomForFresh(limit, Snap(), page);
        PushIsSound(limit, Snap(), Entry(page, depth, table));
      }
      if !(1 <= page <= limit) || page in roles || page in scheduled {
        return false;
      }
      NotHeldIsFresh(limit, Snap(), page);
      if |roles| + |scheduled| >= limit {
        assert false;
      }
      scheduled := scheduled + {page};
      pending := pending + [Entry(page, depth, table)];
      return true;
    }

    /** Schedules the child page of a header or a cell, if there is one. */
    method ScheduleChild(children: seq<nat>, e: Entry) returns (ok: bool)
      requires Valid() && |children| <= 1
      modifies this`pending, this`scheduled
      ensures ok <==> Fresh(limit, old(Snap()).Held(), children)
      ensures ok ==> Valid() && Advanced(limit, old(Snap()), Snap(), e, Found(children, [], []))
    {
      if children == [] {
        NothingIsFresh(limit, Snap().Held());
        NoAdvance(limit, Snap(), e);
        return true;
      }
      assert children == [children[0]];
      PushAdvances(limit, Snap(), children[0], e);
      ok := Schedule(children[0], e.depth + 1, e.table);
    }

    /** Claims one overflow page and tests its link. */
    method ClaimOverflow(page: nat, rest: nat, ghost e: Entry) returns (ok: bool)
      requires Valid() && rest > 0
      modifies this`roles
      ensures ok <==> CanFollow(raw, page, rest) && Fresh(limit, old(Snap()).Held(), [page])
      ensures ok ==> Valid() && Advanced(limit, old(Snap()), Snap(), e, Found([], [page], []))
    {
      if Fresh(limit, Snap().Held(), [page]) {
        ClaimIsSound(limit, Snap(), page, Overflow);
        ClaimAdvances(limit, Snap(), page, e);
      }
      ok := Claim(page, Overflow);
      if !ok || !CanFollow(raw, page, rest) {
        return false;
      }
      NotHeldIsFresh(limit, old(Snap()), page);
    }

    /** Follows an overflow chain and claims its pages, which must be fresh. */
    method FollowOverflow(first: nat, remaining: nat, ghost e: Entry) returns (r: Option<ByteString>)
      requires Valid()
      modifies this`roles
      ensures var chain := ChainOf(raw, first, remaining);
              && (r.Some? <==> chain.Some? && Fresh(limit, old(Snap()).Held(), chain.value.pages))
              && (r.Some? ==> r.value == chain.value.data && Valid()
                              && Advanced(limit, old(Snap()), Snap(), e, Found([], chain.value.pages, [])))
    {
      var page: nat, rest: nat, data: ByteString := first, remaining, [];
      ghost var pages: seq<nat> := [];
      ghost var whole := ChainOf(raw, first, remaining);
      ChainBegins(raw, first, remaining);
      NoAdvance(limit, Snap(), e);
      while rest > 0
        invariant Valid() && Advanced(limit, old(Snap()), Snap(), e, Found([], pages, []))
        invariant Partway(raw, whole, pages, data, page, rest)
      {
        ghost var s := Snap();
        FreshNext(limit, old(Snap()), s, e, pages, page);
        var ok := ClaimOverflow(page, rest, e);
        if !ok {
          ChainStops(raw, whole, pages, data, page, rest, old(Snap()).Held());
          return None;
        }
        AdvancedTwice(limit, old(Snap()), s, Snap(), e, Found([], pages, []), Found([], [page], []));
        assert Found([], pages, []).Join(Found([], [page], [])) == Found([], pages + [page], []);
        var next, left, more := NextLink(raw, page, rest, data, whole, pages);
        pages := pages + [page];
        page, rest, data := next, left, more;
      }
      HeldAfter(limit, old(Snap()), Snap(), e, Found([], pages, []));
      return Some(data);
    }

    /** Schedules the child of a cell and follows its overflow chain. */
    method LinkCell(e: Entry, cell: Cell) returns (r: Option<ByteString>)
      requires Valid() && |cell.left| <= 1
      modifies this`pending, this`scheduled, this`roles
      ensures var chain := ChainOf(raw, cell.overflowPage, cell.spill);
              && (r.Some? <==> chain.Some? && Fresh(limit, old(Snap()).Held(), cell.left + chain.value.pages))
              && (r.Some? ==> r.value == chain.value.data && Valid()
                              && Advanced(limit, old(Snap()), Snap(), e, Found(cell.left, chain.value.pages, [])))
    {
      ghost var s, chain := Snap(), ChainOf(raw, cell.overflowPage, cell.spill);
      if chain.Some? {
        FreshConcat(limit, s.Held(), cell.left, chain.value.pages);
      }
      var ok := ScheduleChild(cell.left, e);
      if !ok {
        return None;
      }
      ghost var s1 := Snap();
      HeldAfter(limit, s, s1, e, Found(cell.left, [], []));
      assert s1.Held() == s.Held() + Elements(cell.left);
      r := FollowOverflow(cell.overflowPage, cell.spill, e);
      if r.Some? {
        TwoSteps(limit, s, s1, Snap(), e, cell.left, chain.value.pages);
      }
    }

    /** What a cell leads to, scheduled, claimed and recorded. */
    method VisitCell(e: Entry, page: Page, kind: nat, cell: Cell) returns (ok: bool)
      requires Valid() && |cell.left| <= 1 && cell.body + cell.local <= PAGE
      modifies this
      ensures var found := FoundInCell(raw, page, kind, e.table, cell);
              && (ok <==> found.Some? && Fresh(limit, old(Snap()).Held(), found.value.children + found.value.overflow))
              && (ok ==> Valid() && Advanced(limit, old(Snap()), Snap(), e, found.value))
    {
      var data := LinkCell(e, cell);
      if data.None? {
        return false;
      }
      ghost var s1, chain := Snap(), ChainOf(raw, cell.overflowPage, cell.spill).value;
      var found := DecodeRows(kind, e.table, cell.rowid, page[cell.body..cell.body + cell.local] + data.value);
      if found.None? {
        return false;
      }
      WithRows(limit, old(Snap()), s1, e, cell.left, chain.pages, found.value);
      rows := rows + found.value;
      ok := true;
    }

    /** Places and visits the k-th cell. */
    method VisitNext(e: Entry, page: Page, header: Header, k: nat, used: array<bool>, live: array<bool>,
                     ghost frees: seq<Range>, ghost cells: seq<Cell>,
                     ghost read: nat -> Option<Cell>, ghost lead: Cell -> Option<Found>)
      returns (ok: bool, ghost cell: Cell, ghost found: Found)
      requires Valid() && IsReader(read, page, header, |raw|) && IsLeader(lead, raw, page, header.kind, e.table)
      requires k < header.cellCount && used != live && Placed(header, frees, cells, used[..], live[..])
      modifies this, used, live
      ensures ok ==> read(k) == Some(cell) && lead(cell) == Some(found)
      ensures ok ==> Valid() && Advanced(limit, old(Snap()), Snap(), e, found)
      ensures ok ==> Placed(header, frees, cells + [cell], used[..], live[..])
      ensures !ok ==> Blocked(limit, old(Snap()).Held(), frees, cells, read(k), lead)
    {
      cell, found := Cell(Range(0, 0), [], 0, 0, 0, 0, 0), Found([], [], []);
      ghost var number := CellNumber(page, header, |raw|, k);
      if number.Some? {
        RangesAppend(cells, number.value);
        assert frees + Ranges(cells) + [number.value.range] == frees + Ranges(cells + [number.value]);
      }
      var placed := PlaceCell(page, header, |raw|, k, used, live, frees, Ranges(cells));
      if placed.None? {
        return false, cell, found;
      }
      cell := placed.value;
      CellIsInside(page, header.kind, U16(page, header.pointerStart + 2 * k), |raw|);
      ghost var leads := FoundInCell(raw, page, header.kind, e.table, cell);
      assert leads == lead(cell);
      ok := VisitCell(e, page, header.kind, placed.value);
      if ok {
        found := leads.value;
      }
    }

    /** The cell loop of a page. */
    method VisitCells(e: Entry, page: Page, header: Header, used: array<bool>, live: array<bool>,
                      ghost frees: seq<Range>, ghost read: nat -> Option<Cell>, ghost lead: Cell -> Option<Found>)
      returns (ok: bool, ghost cells: seq<Cell>, ghost found: Found)
      requires Valid() && IsReader(read, page, header, |raw|) && IsLeader(lead, raw, page, header.kind, e.table)
      requires used != live && Placed(header, frees, [], used[..], live[..])
      modifies this, used, live
      ensures ok ==> CellsOf(read, header.cellCount) == Some(cells) && FoundOf(lead, cells) == Some(found)
      ensures ok ==> Valid() && Advanced(limit, old(Snap()), Snap(), e, found)
      ensures ok ==> Placed(header, frees, cells, used[..], live[..])
      ensures !ok ==> NoWay(limit, old(Snap()).Held(), frees, header.cellCount, read, lead)
    {
      cells, found := [], NOTHING;
      NoAdvance(limit, Snap(), e);
      for k := 0 to header.cellCount
        invariant CellsOf(read, k) == Some(cells) && FoundOf(lead, cells) == Some(found)
        invariant Valid() && Advanced(limit, old(Snap()), Snap(), e, found)
        invariant Placed(header, frees, cells, used[..], live[..])
      {
        ghost var s := Snap();
        ghost var cell, here;
        ok, cell, here := VisitNext(e, page, header, k, used, live, frees, cells, read, lead);
        if !ok {
          BlockedForGood(limit, old(Snap()), s, e, frees, header.cellCount, k, cells, found, read, lead);
          return;
        }
        AdvancedTwice(limit, old(Snap()), s, Snap(), e, found, here);
        FoundSnoc(lead, cells, cell);
        cells, found := cells + [cell], found.Join(here);
      }
      ok := true;
    }

    /** A page after its header: freeblocks, right child, cells, and the accounting of its bytes. */
    method VisitBody(e: Entry, page: Page, header: Header) returns (ok: bool, ghost total: Found)
      requires Valid() && header.Sound() && (header.Interior() ==> 4 <= header.pointerStart)
      modifies this
      ensures ok ==> BodyFound(raw, page, header, e.table) == Some(total)
      ensures ok ==> Valid() && Advanced(limit, old(Snap()), Snap(), e, total)
      ensures !ok ==> Refused(limit, old(Snap()).Held(), BodyFound(raw, page, header, e.table))
    {
      total := NOTHING;
      var frees, used, live := LayFrees(page, header);
      if frees.None? {
        return false, total;
      }
      ghost var read, lead := Reader(page, header, |raw|), Leader(raw, page, header.kind, e.table);
      ghost var s, right, cells, found := Snap(), Found(RightChild(page, header), [], []), [], NOTHING;
      ok := ScheduleChild(RightChild(page, header), e);
      if !ok {
        RightIsRefused(limit, s.Held(), raw, page, header, e.table);
        return;
      }
      ghost var s1 := Snap();
      if !DistinctPointers(page, header) {
        PointersAreRefused(limit, s.Held(), raw, page, header, e.table);
        return false, total;
      }
      ok, cells, found := VisitCells(e, page, header, used, live, frees.value, read, lead);
      if !ok {
        CellsAreRefused(limit, s, s1, e, raw, page, header, frees.value);
        return;
      }
      ok := AccountFor(page, header, frees.value, used, live, Ranges(cells));
      AdvancedTwice(limit, s, s1, Snap(), e, right, found);
      total := right.Join(found);
    }

    /** Claims the page of an entry and visits it. */
    method VisitPage(e: Entry) returns (ok: bool, ghost total: Found)
      requires Valid() && Fresh(limit, Snap().Held(), [e.page])
      modifies this
      ensures ok ==> PageFound(raw, e) == Some(total) && Valid() && Finished(limit, old(Snap()), Snap(), e, total)
      ensures !ok ==> PageFound(raw, e).Some? ==>
                        !Admits(limit, old(roles).Keys, old(pending), e, PageFound(raw, e).value)
    {
      total := NOTHING;
      RoomForFresh(limit, Snap(), e.page);
      ClaimIsSound(limit, Snap(), e.page, BTree);
      var claimed := Claim(e.page, BTree);
      var page := PageAt(raw, e.page);
      var header := ReadHeader(page, e.page, e.table.SchemaTable?);
      if header.None? {
        return false, total;
      }
      ok, total := VisitBody(e, page, header.value);
      if ok {
        AdvanceFinishes(limit, old(Snap()), Snap(), e, total);
      } else if PageFound(raw, e).Some? {
        RefusedIsNotAdmitted(limit, old(Snap()), e, PageFound(raw, e).value);
      }
    }

    /** Schedules the roots; it fails when the walk could not get past them. */
    method ScheduleRoots(roots: seq<Entry>) returns (ok: bool)
      requires Valid() && pending == [] && roles == map[]
      modifies this`pending, this`scheduled
      ensures ok <==> Fresh(limit, {}, Pages(roots))
      ensures ok ==> Valid() && pending == roots
    {
      assert Pages([]) == [];
      NothingIsFresh(limit, {});
      for i := 0 to |roots|
        invariant Valid() && pending == roots[..i] && roles == map[] && Fresh(limit, {}, Pages(roots[..i]))
      {
        RootIsFresh(limit, Snap(), roots, i);
        ok := Schedule(roots[i].page, roots[i].depth, roots[i].table);
        if !ok {
          return;
        }
      }
      assert roots[..|roots|] == roots;
      ok := true;
    }

    /** Visits the entry that was last scheduled. */
    method VisitLast(ghost find: Find, ghost whole: Option<Seen>, ghost seen: Seen) returns (ok: bool, ghost more: Seen)
      requires Valid() && pending != [] && IsFinder(find, raw)
      requires Reaches(find, limit, whole, seen, roles.Keys, pending) && Matches(Snap(), seen)
      modifies this
      ensures !ok ==> whole == None
      ensures ok ==> Valid() && Reaches(find, limit, whole, more, roles.Keys, pending) && Matches(Snap(), more)
      ensures ok ==> Numbers(limit) - roles.Keys < Numbers(limit) - old(roles).Keys
    {
      more := seen;
      PopIsSound(limit, Snap());
      ghost var keys, rest := roles.Keys, pending[..|pending| - 1];
      var e := pending[|pending| - 1];
      assert pending == rest + [e];
      pending := pending[..|pending| - 1];
      scheduled := scheduled - {e.page};
      if e.depth > MAX_DEPTH {
        RefusedEndsWalk(find, limit, whole, seen, keys, rest, e);
        return false, more;
      }
      ghost var s, total := Snap(), NOTHING;
      ok, total := VisitPage(e);
      assert find(e) == PageFound(raw, e);
      if !ok {
        RefusedEndsWalk(find, limit, whole, seen, keys, rest, e);
        return;
      }
      VisitGoesOn(find, limit, whole, seen, keys, rest, e, total);
      more := After(seen, e, total);
      MatchesAfter(limit, s, Snap(), seen, e, total);
    }

    /** Walks all pages; every step claims a page that was not claimed before. */
    method Run(roots: seq<Entry>, ghost find: Find) returns (ok: bool)
      requires Valid() && Snap() == State([], {}, map[], []) && IsFinder(find, raw)
      modifies this
      ensures ok <==> Walk(find, limit, {}, roots).Some?
      ensures ok ==> Matches(Snap(), Walk(find, limit, {}, roots).value) && roles.Keys == Numbers(limit)
    {
      ghost var whole := Walk(find, limit, {}, roots);
      ok := ScheduleRoots(roots);
      if !ok {
        if whole.Some? {
          PendingIsFresh(find, limit, {}, roots);
        }
        return;
      }
      ReachesAtStart(find, limit, roots);
      assert roles.Keys == {};
      ghost var seen := Seen([], [], []);
      while pending != []
        invariant Valid() && Matches(Snap(), seen)
        invariant Reaches(find, limit, whole, seen, roles.Keys, pending)
        decreases Numbers(limit) - roles.Keys
      {
        ok, seen := VisitLast(find, whole, seen);
        if !ok {
          return;
        }
      }
      AllClaimed(limit, Snap());
      ok := |roles| == limit;
    }
  }

  /** The rows are those seen, and the roles say which pages were seen as what. */
  ghost predicate Matches(s: State, seen: Seen) {
    s.rows == seen.rows && Recorded(map[], s.roles, seen.btree, seen.overflow)
  }

  lemma MatchesAfter(limit: nat, s: State, s': State, seen: Seen, e: Entry, total: Found)
    requires Matches(s, seen) && Finished(limit, s, s', e, total)
    ensures Matches(s', After(seen, e, total))
  {
  }

  lemma AllClaimed(limit: nat, s: State)
    requires Sound(limit, s)
    ensures |s.roles| == limit <==> s.roles.Keys == Numbers(limit)
  {
    SoundIs(limit, s);
    NumbersCount(limit);
    assert |s.roles| == |s.roles.Keys|;
    var left := Numbers(limit) - s.roles.Keys;
    assert Numbers(limit) == s.roles.Keys + left;
    assert |s.roles.Keys + left| == |s.roles.Keys| + |left|;
  }

  lemma RootIsFresh(limit: nat, s: State, roots: seq<Entry>, i: nat)
    requires Sound(limit, s) && s.roles == map[] && i < |roots| && s.pending == roots[..i]
    requires Fresh(limit, {}, Pages(roots[..i]))
    ensures Fresh(limit, {}, Pages(roots[..i + 1])) <==> Fresh(limit, s.Held(), [roots[i].page])
    ensures roots[..i + 1] == roots[..i] + [roots[i]]
    ensures !Fresh(limit, s.Held(), [roots[i].page]) ==> !Fresh(limit, {}, Pages(roots))
  {
    SoundIs(limit, s);
    assert roots[..i + 1] == roots[..i] + [roots[i]];
    assert Pages(roots[..i + 1]) == Pages(roots[..i]) + [roots[i].page];
    assert s.Held() == {} + Elements(Pages(roots[..i]));
    FreshConcat(limit, {}, Pages(roots[..i]), [roots[i].page]);
    assert Pages(roots) == Pages(roots[..i + 1]) + Pages(roots[i + 1..]);
    FreshConcat(limit, {}, Pages(roots[..i + 1]), Pages(roots[i + 1..]));
  }

  /** A page is refused: it leads nowhere, or to a held page. */
  ghost predicate Refused(limit: nat, held: set<int>, found: Option<Found>) {
    found.Some? ==> !Fresh(limit, held, found.value.children + found.value.overflow)
  }

  lemma RightIsRefused(limit: nat, held: set<int>, raw: ByteString, page: Page, header: Header, table: Table)
    requires header.Sound() && (header.Interior() ==> 4 <= header.pointerStart)
    requires !Fresh(limit, held, RightChild(page, header))
    ensures Refused(limit, held, BodyFound(raw, page, header, table))
  {
    var body := BodyFound(raw, page, header, table);
    if body.Some? && Fresh(limit, held, body.value.children + body.value.overflow) {
      var right, all := RightChild(page, header), body.value.children + body.value.overflow;
      assert all == right + all[|right|..];
      FreshSplits(limit, held, right, all[|right|..]);
    }
  }

  lemma PointersAreRefused(limit: nat, held: set<int>, raw: ByteString, page: Page, header: Header, table: Table)
    requires header.Sound() && (header.Interior() ==> 4 <= header.pointerStart)
    requires !DistinctPointers(page, header)
    ensures Refused(limit, held, BodyFound(raw, page, header, table))
  {
    var read, frees := Reader(page, header, |raw|), Freeblocks(page, header.contentStart, header.firstFree);
    if frees.Some? && CellsOf(read, header.cellCount).Some? {
      SamePointersTouch(page, header, |raw|, read, frees.value);
      CanonicalIs(page, header, frees.value, Ranges(CellsOf(read, header.cellCount).value));
    }
  }

  lemma CellsAreRefused(limit: nat, s: State, s1: State, e: Entry, raw: ByteString, page: Page, header: Header,
                        frees: seq<Range>)
    requires header.Sound() && (header.Interior() ==> 4 <= header.pointerStart)
    requires Freeblocks(page, header.contentStart, header.firstFree) == Some(frees)
    requires Advanced(limit, s, s1, e, Found(RightChild(page, header), [], []))
    requires NoWay(limit, s1.Held(), frees, header.cellCount, Reader(page, header, |raw|),
                   Leader(raw, page, header.kind, e.table))
    ensures Refused(limit, s.Held(), BodyFound(raw, page, header, e.table))
  {
    var read, lead := Reader(page, header, |raw|), Leader(raw, page, header.kind, e.table);
    var body := BodyFound(raw, page, header, e.table);
    if body.Some? && Fresh(limit, s.Held(), body.value.children + body.value.overflow) {
      var cells := CellsOf(read, header.cellCount).value;
      var found := FoundOf(lead, cells).value;
      var right := Found(RightChild(page, header), [], []);
      CanonicalIs(page, header, frees, Ranges(cells));
      assert Leads(frees, header.cellCount, read, lead, cells, found);
      JoinNothing(right.Join(found));
      PartIsFresh(limit, s.Held(), right, found, NOTHING);
      HeldAfter(limit, s, s1, e, right);
    }
  }

  /** Marks the header and the freeblocks of a page. */
  method LayFrees(page: Page, header: Header) returns (r: Option<seq<Range>>, used: array<bool>, live: array<bool>)
    requires header.Sound()
    ensures fresh(used) && fresh(live) && used != live
    ensures r == Freeblocks(page, header.contentStart, header.firstFree)
    ensures r.Some? ==> Increasing(r.value) && Within(r.value, header.contentStart, PAGE)
    ensures r.Some? ==> Placed(header, r.value, [], used[..], live[..])
  {
    used := new bool[PAGE](i => 0 <= i < header.pointerEnd);
    live := new bool[PAGE](i => 0 <= i < header.pointerEnd);
    assert Marks(used[..], header.pointerEnd, []) && Marks(live[..], header.pointerEnd, []);
    r := WalkFreeblocks(page, header, used);
    if r.Some? {
      FreeblocksIncrease(page, header.contentStart, header.firstFree);
      assert r.value + Ranges([]) == r.value && Ranges([]) == [];
    }
  }

  // ------------------------------------------------------------ the cells of a page

  /** The bytes of some cells are marked, apart from each other and from the freeblocks. */
  ghost predicate Placed(header: Header, frees: seq<Range>, cells: seq<Cell>, used: seq<bool>, live: seq<bool>) {
    && Marks(used, header.pointerEnd, frees + Ranges(cells)) && Marks(live, header.pointerEnd, Ranges(cells))
    && AllApart(frees + Ranges(cells)) && Within(frees + Ranges(cells), header.contentStart, PAGE)
  }

  /** Why a cell cannot be visited: it cannot be read or decoded, touches others or names a held page. */
  ghost predicate Blocked(limit: nat, held: set<int>, frees: seq<Range>, cells: seq<Cell>, read: Option<Cell>,
                          lead: Cell -> Option<Found>)
  {
    read.Some? && AllApart(frees + Ranges(cells + [read.value])) && lead(read.value).Some? ==>
      !Fresh(limit, held, lead(read.value).value.children + lead(read.value).value.overflow)
  }

  /** No reading of the cells gets past the held pages. */
  ghost predicate NoWay(limit: nat, held: set<int>, frees: seq<Range>, n: nat, read: nat -> Option<Cell>,
                        lead: Cell -> Option<Found>)
  {
    forall cells, found ::
      Leads(frees, n, read, lead, cells, found) ==> !Fresh(limit, held, found.children + found.overflow)
  }

  ghost predicate Leads(frees: seq<Range>, n: nat, read: nat -> Option<Cell>, lead: Cell -> Option<Found>,
                        cells: seq<Cell>, found: Found)
  {
    CellsOf(read, n) == Some(cells) && FoundOf(lead, cells) == Some(found) && AllApart(frees + Ranges(cells))
  }

  lemma FoundSnoc(lead: Cell -> Option<Found>, cells: seq<Cell>, cell: Cell)
    requires FoundOf(lead, cells).Some? && lead(cell).Some?
    ensures FoundOf(lead, cells + [cell]) == Some(FoundOf(lead, cells).value.Join(lead(cell).value))
  {
    assert (cells + [cell])[..|cells|] == cells;
  }

  /** What is found among other things is fresh beside the rest, if all of it is. */
  lemma PartIsFresh(limit: nat, held: set<int>, before: Found, here: Found, after: Found)
    requires var all := before.Join(here).Join(after); Fresh(limit, held, all.children + all.overflow)
    ensures Fresh(limit, held + Elements(before.children) + Elements(before.overflow), here.children + here.overflow)
  {
    var all := before.Join(here).Join(after);
    var part, others := here.children + here.overflow, before.children + before.overflow;
    assert multiset(part) + multiset(others) <= multiset(all.children + all.overflow) by {
      assert all.children == before.children + here.children + after.children;
      assert all.overflow == before.overflow + here.overflow + after.overflow;
    }
    FreshPart(limit, held, all.children + all.overflow, part, others);
    assert held + Elements(before.children) + Elements(before.overflow) == held + Elements(others);
  }

  lemma BlocksAny(limit: nat, held: set<int>, held': set<int>, frees: seq<Range>, n: nat, k: nat,
                  cells: seq<Cell>, found: Found, read: nat -> Option<Cell>, lead: Cell -> Option<Found>,
                  cells': seq<Cell>, found': Found)
    requires k < n && CellsOf(read, k) == Some(cells) && FoundOf(lead, cells) == Some(found)
    requires held' == held + Elements(found.children) + Elements(found.overflow)
    requires Blocked(limit, held', frees, cells, read(k), lead)
    requires Leads(frees, n, read, lead, cells', found')
    ensures !Fresh(limit, held, found'.children + found'.overflow)
  {
    var before, here, after := CellsSplit(read, lead, n, k, cells', found');
    BlockedHere(limit, held', frees, cells, cells', k, here, read(k), lead);
    if Fresh(limit, held, found'.children + found'.overflow) {
      PartIsFresh(limit, held, before, here, after);
    }
  }

  lemma BlockedHere(limit: nat, held: set<int>, frees: seq<Range>, cells: seq<Cell>, cells': seq<Cell>, k: nat,
                    here: Found, read: Option<Cell>, lead: Cell -> Option<Found>)
    requires k < |cells'| && cells'[..k] == cells && read == Some(cells'[k]) && lead(cells'[k]) == Some(here)
    requires AllApart(frees + Ranges(cells')) && Blocked(limit, held, frees, cells, read, lead)
    ensures !Fresh(limit, held, here.children + here.overflow)
  {
    ApartPrefix(frees, cells', k + 1);
    assert cells'[..k + 1] == cells + [cells'[k]];
  }

  /** A cell that cannot be visited now cannot be visited on any way to the end. */
  lemma BlockedForGood(limit: nat, s: State, s': State, e: Entry, frees: seq<Range>, n: nat, k: nat,
                       cells: seq<Cell>, found: Found, read: nat -> Option<Cell>, lead: Cell -> Option<Found>)
    requires k < n && CellsOf(read, k) == Some(cells) && FoundOf(lead, cells) == Some(found)
    requires Advanced(limit, s, s', e, found)
    requires Blocked(limit, s'.Held(), frees, cells, read(k), lead)
    ensures NoWay(limit, s.Held(), frees, n, read, lead)
  {
    HeldAfter(limit, s, s', e, found);
    forall cells', found' | Leads(frees, n, read, lead, cells', found')
      ensures !Fresh(limit, s.Held(), found'.children + found'.overflow)
    {
      BlocksAny(limit, s.Held(), s'.Held(), frees, n, k, cells, found, read, lead, cells', found');
    }
  }

  lemma TwoSteps(limit: nat, s: State, s1: State, s2: State, e: Entry, children: seq<nat>, pages: seq<nat>)
    requires Advanced(limit, s, s1, e, Found(children, [], [])) && Advanced(limit, s1, s2, e, Found([], pages, []))
    ensures Advanced(limit, s, s2, e, Found(children, pages, []))
  {
    AdvancedTwice(limit, s, s1, s2, e, Found(children, [], []), Found([], pages, []));
    assert Found(children, [], []).Join(Found([], pages, [])) == Found(children, pages, []);
  }

  lemma WithRows(limit: nat, s: State, s1: State, e: Entry, children: seq<nat>, pages: seq<nat>, rows: seq<Row>)
    requires Sound(limit, s1) && Advanced(limit, s, s1, e, Found(children, pages, []))
    ensures Sound(limit, s1.(rows := s1.rows + rows))
    ensures Advanced(limit, s, s1.(rows := s1.rows + rows), e, Found(children, pages, rows))
  {
    RowsAdvance(limit, s1, rows, e);
    AdvancedTwice(limit, s, s1, s1.(rows := s1.rows + rows), e, Found(children, pages, []), Found([], [], rows));
    assert Found(children, pages, []).Join(Found([], [], rows)) == Found(children, pages, rows);
  }
}
