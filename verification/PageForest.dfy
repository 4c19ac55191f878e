/**
  * The page graph of an image: a work list of b-tree pages, each of which leads to child pages and
  * overflow pages. What a page leads to is a parameter here.
  */
module PageForest {
  import opened Outcomes
  import opened Record

  datatype Table = SchemaTable | RowTable(name: string, fields: nat)

  datatype Entry = Entry(page: int, depth: nat, table: Table)

  datatype Row = Row(table: Table, rowid: nat, values: seq<Value>)

  /** The child pages, overflow pages and rows found on a page. */
  datatype Found = Found(children: seq<nat>, overflow: seq<nat>, rows: seq<Row>) {
    function Join(other: Found): Found {
      Found(children + other.children, overflow + other.overflow, rows + other.rows)
    }
  }

  type Find = Entry -> Option<Found>

  const MAX_DEPTH := 32

  /** The entries of child pages. */
  function Entries(children: seq<nat>, parent: Entry): seq<Entry> {
    seq(|children|, (i: nat) requires i < |children| => Entry(children[i], parent.depth + 1, parent.table))
  }

  function Pages(entries: seq<Entry>): seq<int> {
    seq(|entries|, (i: nat) requires i < |entries| => entries[i].page)
  }

  // ---------------------------------------------------------------- fresh pages

  predicate Numbered(p: int, limit: nat) {
    1 <= p <= limit
  }

  function Numbers(limit: nat): set<int> {
    set p | 1 <= p <= limit && Numbered(p, limit)
  }

  function Elements(pages: seq<int>): set<int> {
    set p | p in pages
  }

  /** Pages in range, none of them twice and none of them held already. */
  ghost predicate AllNew(limit: nat, held: set<int>, pages: seq<int>) {
    && (forall p <- pages :: 1 <= p <= limit && p !in held)
    && (forall i, j :: 0 <= i < j < |pages| ==> pages[i] != pages[j])
  }

  /** Names a test for new pages; what it tests is looked up only where this stands. */
  predicate Tested(limit: nat, held: set<int>, pages: seq<int>) {
    true
  }

  ghost predicate Tests(f: (nat, set<int>, seq<int>) -> bool) {
    forall limit: nat, held: set<int>, pages: seq<int> {:trigger Tested(limit, held, pages)} ::
      Tested(limit, held, pages) ==> f(limit, held, pages) == AllNew(limit, held, pages)
  }

  ghost predicate Fresh(limit: nat, held: set<int>, pages: seq<int>) {
    var test: (nat, set<int>, seq<int>) -> bool :=
      (limit: nat, held: set<int>, pages: seq<int>) => AllNew(limit, held, pages);
    assert Tests(test);
    var f: (nat, set<int>, seq<int>) -> bool :| Tests(f);
    f(limit, held, pages)
  }

  lemma FreshIs(limit: nat, held: set<int>, pages: seq<int>)
    ensures Fresh(limit, held, pages) == AllNew(limit, held, pages)
  {
    assert Tested(limit, held, pages);
  }

  lemma NothingIsFresh(limit: nat, held: set<int>)
    ensures Fresh(limit, held, [])
  {
    FreshIs(limit, held, []);
  }

  lemma FreshBesideFewer(limit: nat, held: set<int>, more: set<int>, pages: seq<int>)
    requires Fresh(limit, more, pages) && held <= more
    ensures Fresh(limit, held, pages)
  {
    FreshIs(limit, held, pages);
    FreshIs(limit, more, pages);
  }

  lemma FreshSplits(limit: nat, held: set<int>, a: seq<int>, b: seq<int>)
    requires Fresh(limit, held, a + b)
    ensures Fresh(limit, held, a) && Fresh(limit, held + Elements(a), b)
  {
    var all := a + b;
    FreshIs(limit, held, all);
    FreshIs(limit, held, a);
    FreshIs(limit, held + Elements(a), b);
    assert forall i :: 0 <= i < |a| ==> all[i] == a[i];
    assert forall i :: 0 <= i < |b| ==> all[|a| + i] == b[i];
    forall p | p in b ensures 1 <= p <= limit && p !in held && p !in a {
      assert p in all;
      var j :| 0 <= j < |b| && b[j] == p;
      assert forall i :: 0 <= i < |a| ==> all[i] != all[|a| + j];
    }
    forall i, j | 0 <= i < j < |b| ensures b[i] != b[j] {
      assert all[|a| + i] != all[|a| + j];
    }
    forall p | p in a ensures 1 <= p <= limit && p !in held {
      assert p in all;
    }
  }

  lemma FreshJoins(limit: nat, held: set<int>, a: seq<int>, b: seq<int>)
    requires Fresh(limit, held, a) && Fresh(limit, held + Elements(a), b)
    ensures Fresh(limit, held, a + b)
  {
    var all := a + b;
    FreshIs(limit, held, all);
    FreshIs(limit, held, a);
    FreshIs(limit, held + Elements(a), b);
    forall i, j | 0 <= i < j < |all| ensures all[i] != all[j] {
      if i < |a| <= j {
        assert all[i] in a && all[j] in b;
      }
    }
  }

  lemma FreshConcat(limit: nat, held: set<int>, a: seq<int>, b: seq<int>)
    ensures Fresh(limit, held, a + b) <==> Fresh(limit, held, a) && Fresh(limit, held + Elements(a), b)
  {
    if Fresh(limit, held, a + b) {
      FreshSplits(limit, held, a, b);
    }
    if Fresh(limit, held, a) && Fresh(limit, held + Elements(a), b) {
      FreshJoins(limit, held, a, b);
    }
  }

  lemma {:induction false} NoneTwice(pages: seq<int>, p: int)
    requires forall i, j :: 0 <= i < j < |pages| ==> pages[i] != pages[j]
    ensures multiset(pages)[p] <= 1
  {
    if pages != [] {
      var init, last := pages[..|pages| - 1], pages[|pages| - 1];
      NoneTwice(init, p);
      assert pages == init + [last];
      if p == last {
        assert last !in init;
      }
    }
  }

  lemma TwiceCounts(pages: seq<int>, i: nat, j: nat)
    requires i < j < |pages| && pages[i] == pages[j]
    ensures multiset(pages)[pages[i]] >= 2
  {
    assert pages == pages[..j] + [pages[j]] + pages[j + 1..];
    assert pages[..j][i] == pages[i];
  }

  /** Among fresh pages, some are fresh beside others. */
  lemma FreshPart(limit: nat, held: set<int>, all: seq<int>, part: seq<int>, others: seq<int>)
    requires Fresh(limit, held, all)
    requires multiset(part) + multiset(others) <= multiset(all)
    ensures Fresh(limit, held + Elements(others), part)
  {
    FreshIs(limit, held, all);
    FreshIs(limit, held + Elements(others), part);
    forall p | p in part ensures 1 <= p <= limit && p !in held && p !in others {
      NoneTwice(all, p);
      assert p in multiset(part) && p in multiset(all);
      assert p in all;
      assert p in others ==> p in multiset(others);
    }
    forall i, j | 0 <= i < j < |part| ensures part[i] != part[j] {
      NoneTwice(all, part[i]);
      if part[i] == part[j] {
        TwiceCounts(part, i, j);
      }
    }
  }

  /** What must hold for a walk to get past an entry: all the pages it touches are fresh. */
  ghost predicate Admits(limit: nat, claimed: set<int>, rest: seq<Entry>, e: Entry, found: Found) {
    Fresh(limit, claimed, Claims(e, found) + (Pages(rest) + found.children))
  }

  // ------------------------------------------------------------------- the walk

  /** The pages and rows seen by a walk, in the order seen. */
  datatype Seen = Seen(btree: seq<int>, overflow: seq<int>, rows: seq<Row>)

  function Before(e: Entry, found: Found, seen: Seen): Seen {
    Seen([e.page] + seen.btree, found.overflow + seen.overflow, found.rows + seen.rows)
  }

  /** The pages that visiting an entry claims. */
  function Claims(e: Entry, found: Found): seq<int> {
    [e.page] + found.overflow
  }

  lemma ClaimsAdvance(limit: nat, claimed: set<int>, e: Entry, found: Found)
    requires Fresh(limit, claimed, Claims(e, found))
    ensures Numbers(limit) - (claimed + Elements(Claims(e, found))) < Numbers(limit) - claimed
  {
    FreshIs(limit, claimed, Claims(e, found));
    assert e.page in Claims(e, found) && e.page in Numbers(limit) - claimed;
  }

  /**
    * Visits the last pending page and then what is pending after it. A walk succeeds when every page
    * it claims is fresh and in the end all pages are claimed.
    */
  ghost function Walk(find: Find, limit: nat, claimed: set<int>, pending: seq<Entry>): Option<Seen>
    decreases Numbers(limit) - claimed
  {
    if pending == [] then
      if claimed == Numbers(limit) then Some(Seen([], [], [])) else None
    else
      var e := pending[|pending| - 1];
      match if e.depth > MAX_DEPTH then None else find(e)
      case None => None
      case Some(found) =>
        if !Fresh(limit, claimed, Claims(e, found)) then None
        else
          ClaimsAdvance(limit, claimed, e, found);
          match Walk(find, limit, claimed + Elements(Claims(e, found)),
                     pending[..|pending| - 1] + Entries(found.children, e))
          case None => None
          case Some(seen) => Some(Before(e, found, seen))
  }

  lemma MoveFirst(limit: nat, held: set<int>, page: int, between: seq<int>, pages: seq<int>)
    requires Fresh(limit, held, ([page] + between) + pages)
    ensures Fresh(limit, held, pages + [page])
  {
    var all := ([page] + between) + pages;
    assert multiset(pages + [page]) <= multiset(all);
    FreshPart(limit, held, all, pages + [page], []);
    assert held + Elements([]) == held;
  }

  /** A page that is pending will be claimed: it is in range, pending once and not yet claimed. */
  lemma {:induction false} PendingIsFresh(find: Find, limit: nat, claimed: set<int>, pending: seq<Entry>)
    requires Walk(find, limit, claimed, pending).Some?
    ensures Fresh(limit, claimed, Pages(pending))
    decreases Numbers(limit) - claimed
  {
    if pending == [] {
      NothingIsFresh(limit, claimed);
    } else {
      var e, rest := pending[|pending| - 1], pending[..|pending| - 1];
      var found := find(e).value;
      var claimed' := claimed + Elements(Claims(e, found));
      ClaimsAdvance(limit, claimed, e, found);
      PendingIsFresh(find, limit, claimed', rest + Entries(found.children, e));
      assert Pages(rest + Entries(found.children, e)) == Pages(rest) + Pages(Entries(found.children, e));
      FreshSplits(limit, claimed', Pages(rest), Pages(Entries(found.children, e)));
      FreshJoins(limit, claimed, Claims(e, found), Pages(rest));
      MoveFirst(limit, claimed, e.page, found.overflow, Pages(rest));
      assert Pages(pending) == Pages(rest) + [e.page];
    }
  }

  lemma WalkAdmits(find: Find, limit: nat, claimed: set<int>, rest: seq<Entry>, e: Entry)
    requires Walk(find, limit, claimed, rest + [e]).Some?
    ensures e.depth <= MAX_DEPTH && find(e).Some? && Admits(limit, claimed, rest, e, find(e).value)
  {
    var pending := rest + [e];
    assert pending[..|pending| - 1] == rest;
    var found := find(e).value;
    ClaimsAdvance(limit, claimed, e, found);
    var claimed' := claimed + Elements(Claims(e, found));
    PendingIsFresh(find, limit, claimed', rest + Entries(found.children, e));
    assert Pages(rest + Entries(found.children, e)) == Pages(rest) + found.children;
    FreshJoins(limit, claimed, Claims(e, found), Pages(rest) + found.children);
  }

  function After(seen: Seen, e: Entry, found: Found): Seen {
    Seen(seen.btree + [e.page], seen.overflow + found.overflow, seen.rows + found.rows)
  }

  /** Having seen some pages, going on from a work list gives the whole walk. */
  ghost predicate Reaches(find: Find, limit: nat, whole: Option<Seen>, seen: Seen, claimed: set<int>,
                          pending: seq<Entry>)
    decreases Numbers(limit) - claimed
  {
    if pending == [] then whole == if claimed == Numbers(limit) then Some(seen) else None
    else
      var e := pending[|pending| - 1];
      match if e.depth > MAX_DEPTH then None else find(e)
      case None => whole == None
      case Some(found) =>
        if !Fresh(limit, claimed, Claims(e, found)) then whole == None
        else
          ClaimsAdvance(limit, claimed, e, found);
          Reaches(find, limit, whole, After(seen, e, found), claimed + Elements(Claims(e, found)),
                  pending[..|pending| - 1] + Entries(found.children, e))
  }

  function Joined(seen: Seen, later: Option<Seen>): Option<Seen> {
    match later
    case None => None
    case Some(v) => Some(Seen(seen.btree + v.btree, seen.overflow + v.overflow, seen.rows + v.rows))
  }

  lemma {:induction false} GoingOn(find: Find, limit: nat, seen: Seen, claimed: set<int>, pending: seq<Entry>)
    ensures Reaches(find, limit, Joined(seen, Walk(find, limit, claimed, pending)), seen, claimed, pending)
    decreases Numbers(limit) - claimed
  {
    if pending == [] {
      assert Seen(seen.btree + [], seen.overflow + [], seen.rows + []) == seen;
    } else {
      var e, rest := pending[|pending| - 1], pending[..|pending| - 1];
      if e.depth <= MAX_DEPTH && find(e).Some? && Fresh(limit, claimed, Claims(e, find(e).value)) {
        var found := find(e).value;
        ClaimsAdvance(limit, claimed, e, found);
        var claimed', pending' := claimed + Elements(Claims(e, found)), rest + Entries(found.children, e);
        GoingOn(find, limit, After(seen, e, found), claimed', pending');
        JoinedBefore(seen, e, found, Walk(find, limit, claimed', pending'));
      }
    }
  }

  lemma JoinedBefore(seen: Seen, e: Entry, found: Found, later: Option<Seen>)
    ensures Joined(After(seen, e, found), later)
         == if later.None? then None else Joined(seen, Some(Before(e, found, later.value)))
  {
    if later.Some? {
      var v := later.value;
      assert (seen.btree + [e.page]) + v.btree == seen.btree + ([e.page] + v.btree);
      assert (seen.overflow + found.overflow) + v.overflow == seen.overflow + (found.overflow + v.overflow);
      assert (seen.rows + found.rows) + v.rows == seen.rows + (found.rows + v.rows);
    }
  }

  lemma ReachesAtStart(find: Find, limit: nat, roots: seq<Entry>)
    ensures Reaches(find, limit, Walk(find, limit, {}, roots), Seen([], [], []), {}, roots)
  {
    var walk := Walk(find, limit, {}, roots);
    GoingOn(find, limit, Seen([], [], []), {}, roots);
    if walk.Some? {
      var v := walk.value;
      assert [] + v.btree == v.btree && [] + v.overflow == v.overflow && [] + v.rows == v.rows;
    }
  }

  lemma {:induction false} ReachesMeansWalk(find: Find, limit: nat, whole: Option<Seen>, seen: Seen,
                                            claimed: set<int>, pending: seq<Entry>)
    requires Reaches(find, limit, whole, seen, claimed, pending) && whole.Some?
    ensures Walk(find, limit, claimed, pending).Some?
    decreases Numbers(limit) - claimed
  {
    if pending != [] {
      var e, rest := pending[|pending| - 1], pending[..|pending| - 1];
      var found := find(e).value;
      ClaimsAdvance(limit, claimed, e, found);
      ReachesMeansWalk(find, limit, whole, After(seen, e, found), claimed + Elements(Claims(e, found)),
                       rest + Entries(found.children, e));
    }
  }

  /** An entry that is refused ends the walk. */
  lemma RefusedEndsWalk(find: Find, limit: nat, whole: Option<Seen>, seen: Seen, claimed: set<int>, rest: seq<Entry>,
                        e: Entry)
    requires Reaches(find, limit, whole, seen, claimed, rest + [e])
    requires e.depth <= MAX_DEPTH && find(e).Some? ==> !Admits(limit, claimed, rest, e, find(e).value)
    ensures whole == None
  {
    if whole.Some? {
      ReachesMeansWalk(find, limit, whole, seen, claimed, rest + [e]);
      WalkAdmits(find, limit, claimed, rest, e);
    }
  }

  /** An entry that is visited carries the walk on. */
  lemma VisitGoesOn(find: Find, limit: nat, whole: Option<Seen>, seen: Seen, claimed: set<int>, rest: seq<Entry>,
                    e: Entry,
                    found: Found)
    requires Reaches(find, limit, whole, seen, claimed, rest + [e])
    requires e.depth <= MAX_DEPTH && find(e) == Some(found) && Fresh(limit, claimed, Claims(e, found))
    ensures Reaches(find, limit, whole, After(seen, e, found), claimed + Elements(Claims(e, found)),
                    rest + Entries(found.children, e))
    ensures Numbers(limit) - (claimed + Elements(Claims(e, found))) < Numbers(limit) - claimed
  {
    ClaimsAdvance(limit, claimed, e, found);
    assert (rest + [e])[..|rest|] == rest;
  }

  /** A walk that succeeds sees every page once, either as a b-tree page or as an overflow page. */
  lemma {:induction false} PagesArePartitioned(find: Find, limit: nat, claimed: set<int>, pending: seq<Entry>)
    requires Walk(find, limit, claimed, pending).Some?
    ensures var seen := Walk(find, limit, claimed, pending).value;
            && Fresh(limit, claimed, seen.btree) && Fresh(limit, claimed, seen.overflow)
            && Elements(seen.btree) !! Elements(seen.overflow)
            && claimed + Elements(seen.btree) + Elements(seen.overflow) == Numbers(limit)
    decreases Numbers(limit) - claimed
  {
    if pending == [] {
      NothingIsFresh(limit, claimed);
    } else {
      var e, rest := pending[|pending| - 1], pending[..|pending| - 1];
      var found := find(e).value;
      var claimed' := claimed + Elements(Claims(e, found));
      ClaimsAdvance(limit, claimed, e, found);
      PagesArePartitioned(find, limit, claimed', rest + Entries(found.children, e));
      var seen' := Walk(find, limit, claimed', rest + Entries(found.children, e)).value;
      FreshSplits(limit, claimed, [e.page], found.overflow);
      FreshBesideFewer(limit, claimed, claimed + Elements([e.page]), found.overflow);
      FreshLater(limit, claimed, [e.page], seen'.btree, claimed');
      FreshLater(limit, claimed, found.overflow, seen'.overflow, claimed');
      SeenJoins(claimed, e, found, seen', limit);
    }
  }

  lemma FreshLater(limit: nat, held: set<int>, a: seq<int>, b: seq<int>, held': set<int>)
    requires Fresh(limit, held, a) && Fresh(limit, held', b) && held + Elements(a) <= held'
    ensures Fresh(limit, held, a + b)
  {
    FreshBesideFewer(limit, held + Elements(a), held', b);
    FreshJoins(limit, held, a, b);
  }

  lemma SeenJoins(claimed: set<int>, e: Entry, found: Found, seen: Seen, limit: nat)
    requires Fresh(limit, claimed, Claims(e, found))
    requires var held := claimed + Elements(Claims(e, found));
             && Fresh(limit, held, seen.btree) && Fresh(limit, held, seen.overflow)
             && Elements(seen.btree) !! Elements(seen.overflow)
    ensures var all := Before(e, found, seen);
            && Elements(all.btree) !! Elements(all.overflow)
            && claimed + Elements(all.btree) + Elements(all.overflow)
            == claimed + Elements(Claims(e, found)) + Elements(seen.btree) + Elements(seen.overflow)
  {
    var held := claimed + Elements(Claims(e, found));
    FreshSplits(limit, claimed, [e.page], found.overflow);
    FreshIs(limit, claimed + Elements([e.page]), found.overflow);
    FreshIs(limit, held, seen.btree);
    FreshIs(limit, held, seen.overflow);
    var all := Before(e, found, seen);
    assert e.page in Claims(e, found) && e.page in [e.page];
    assert forall p <- found.overflow :: p in Claims(e, found) && p in held;
    forall p | p in all.btree ensures p !in all.overflow {
      if p != e.page {
        assert p in seen.btree && p in Elements(seen.btree);
      }
      assert p !in found.overflow;
      assert p !in seen.overflow by {
        assert p in seen.overflow ==> p in Elements(seen.overflow);
      }
    }
  }

  /** All that a page leads to is among what was seen. */
  predicate Includes(seen: Seen, found: Found) {
    && (forall c <- found.children :: c in seen.btree)
    && (forall o <- found.overflow :: o in seen.overflow)
    && (forall r <- found.rows :: r in seen.rows)
  }

  /** Every pending page is visited. */
  lemma {:induction false} PendingIsSeen(find: Find, limit: nat, claimed: set<int>, pending: seq<Entry>, i: nat)
    requires Walk(find, limit, claimed, pending).Some? && i < |pending|
    ensures pending[i].page in Walk(find, limit, claimed, pending).value.btree
    decreases Numbers(limit) - claimed
  {
    if i < |pending| - 1 {
      var e, rest := pending[|pending| - 1], pending[..|pending| - 1];
      var found := find(e).value;
      ClaimsAdvance(limit, claimed, e, found);
      PendingIsSeen(find, limit, claimed + Elements(Claims(e, found)), rest + Entries(found.children, e), i);
    }
  }

  /** All that the last pending page leads to is seen. */
  lemma TopIsIncluded(find: Find, limit: nat, claimed: set<int>, pending: seq<Entry>)
    requires Walk(find, limit, claimed, pending).Some? && pending != []
    ensures Includes(Walk(find, limit, claimed, pending).value, find(pending[|pending| - 1]).value)
  {
    var e, rest := pending[|pending| - 1], pending[..|pending| - 1];
    var found := find(e).value;
    ClaimsAdvance(limit, claimed, e, found);
    var entries := Entries(found.children, e);
    forall c | c in found.children ensures c in Walk(find, limit, claimed, pending).value.btree {
      var i :| 0 <= i < |found.children| && found.children[i] == c;
      assert (rest + entries)[|rest| + i] == entries[i];
      PendingIsSeen(find, limit, claimed + Elements(Claims(e, found)), rest + entries, |rest| + i);
    }
  }

  /** Every b-tree page seen was an entry of bounded depth, and all it led to was seen. */
  lemma {:induction false} SeenWasFound(find: Find, limit: nat, claimed: set<int>, pending: seq<Entry>, p: int)
    returns (e: Entry)
    requires Walk(find, limit, claimed, pending).Some? && p in Walk(find, limit, claimed, pending).value.btree
    ensures e.page == p && e.depth <= MAX_DEPTH && find(e).Some?
    ensures Includes(Walk(find, limit, claimed, pending).value, find(e).value)
    decreases Numbers(limit) - claimed
  {
    e := pending[|pending| - 1];
    if e.page == p {
      TopIsIncluded(find, limit, claimed, pending);
    } else {
      var found := find(e).value;
      ClaimsAdvance(limit, claimed, e, found);
      e := SeenWasFound(find, limit, claimed + Elements(Claims(e, found)),
                        pending[..|pending| - 1] + Entries(found.children, e), p);
    }
  }

  /** Every overflow page seen belongs to a b-tree page seen. */
  lemma {:induction false} OverflowWasFound(find: Find, limit: nat, claimed: set<int>, pending: seq<Entry>, p: nat)
    returns (e: Entry)
    requires Walk(find, limit, claimed, pending).Some? && p in Walk(find, limit, claimed, pending).value.overflow
    ensures e.page in Walk(find, limit, claimed, pending).value.btree && find(e).Some?
    ensures p in find(e).value.overflow
    ensures Includes(Walk(find, limit, claimed, pending).value, find(e).value)
    decreases Numbers(limit) - claimed
  {
    e := pending[|pending| - 1];
    var found := find(e).value;
    if p in found.overflow {
      TopIsIncluded(find, limit, claimed, pending);
    } else {
      ClaimsAdvance(limit, claimed, e, found);
      e := OverflowWasFound(find, limit, claimed + Elements(Claims(e, found)),
                            pending[..|pending| - 1] + Entries(found.children, e), p);
    }
  }

  /** Every row that a page leads to belongs to the table of the page. */
  ghost predicate RowsKeepTable(find: Find) {
    forall e, r :: find(e).Some? && r in find(e).value.rows ==> r.table == e.table
  }

  /** Every row seen belongs to a table of the work list. */
  lemma {:induction false} SeenRowsHaveTables(find: Find, limit: nat, claimed: set<int>, pending: seq<Entry>, r: Row)
    returns (i: nat)
    requires Walk(find, limit, claimed, pending).Some? && r in Walk(find, limit, claimed, pending).value.rows
    requires RowsKeepTable(find)
    ensures i < |pending| && pending[i].table == r.table
    decreases Numbers(limit) - claimed
  {
    var e, rest := pending[|pending| - 1], pending[..|pending| - 1];
    var found := find(e).value;
    if r in found.rows {
      i := |rest|;
    } else {
      ClaimsAdvance(limit, claimed, e, found);
      i := SeenRowsHaveTables(find, limit, claimed + Elements(Claims(e, found)), rest + Entries(found.children, e), r);
      i := if i < |rest| then i else |rest|;
    }
  }

  // ------------------------------------------------------------------- forests

  /** A b-tree page, the overflow pages of its cells, and the trees of its children. */
  datatype Tree = Node(page: int, overflow: seq<nat>, children: seq<Tree>)

  /** Lists joined from the last to the first, which is the order of the walk. */
  function Concat(lists: seq<seq<int>>): seq<int> {
    if lists == [] then [] else lists[|lists| - 1] + Concat(lists[..|lists| - 1])
  }

  function TreePages(t: Tree): seq<int> {
    [t.page] + t.overflow
    + Concat(seq(|t.children|, (i: nat) requires i < |t.children| => TreePages(t.children[i])))
  }

  function ForestPages(trees: seq<Tree>): seq<int> {
    Concat(seq(|trees|, (i: nat) requires i < |trees| => TreePages(trees[i])))
  }

  /** A tree that an entry leads to. */
  ghost predicate Fits(find: Find, e: Entry, t: Tree)
    decreases t
  {
    && t.page == e.page && e.depth <= MAX_DEPTH
    && find(e).Some?
    && t.overflow == find(e).value.overflow
    && |t.children| == |find(e).value.children|
    && forall i :: 0 <= i < |t.children| ==> Fits(find, Entries(find(e).value.children, e)[i], t.children[i])
  }

  /** A tree that an entry leads to, however high. */
  ghost predicate FitsAnyHeight(find: Find, e: Entry, t: Tree)
    decreases t
  {
    && t.page == e.page && find(e).Some?
    && t.overflow == find(e).value.overflow
    && |t.children| == |find(e).value.children|
    && forall i :: 0 <= i < |t.children| ==> FitsAnyHeight(find, Entries(find(e).value.children, e)[i], t.children[i])
  }

  /** Every path from the root down has at most so many pages. */
  predicate AtMostHigh(t: Tree, levels: nat)
    decreases t
  {
    levels > 0 && forall i :: 0 <= i < |t.children| ==> AtMostHigh(t.children[i], levels - 1)
  }

  /** The depth test admits exactly the trees with at most 33 pages on every path from a root down. */
  lemma {:induction false} DepthBoundsHeight(find: Find, e: Entry, t: Tree)
    requires e.depth <= MAX_DEPTH + 1
    ensures Fits(find, e, t) <==> FitsAnyHeight(find, e, t) && AtMostHigh(t, MAX_DEPTH + 1 - e.depth)
    decreases t
  {
    if e.depth <= MAX_DEPTH && find(e).Some? && |t.children| == |find(e).value.children| {
      var entries := Entries(find(e).value.children, e);
      forall i | 0 <= i < |t.children|
        ensures Fits(find, entries[i], t.children[i])
           <==> FitsAnyHeight(find, entries[i], t.children[i]) && AtMostHigh(t.children[i], MAX_DEPTH - e.depth)
      {
        DepthBoundsHeight(find, entries[i], t.children[i]);
      }
    }
  }

  /** Trees from the pending pages whose pages are fresh and complete the image. */
  ghost predicate IsForest(find: Find, limit: nat, claimed: set<int>, pending: seq<Entry>, trees: seq<Tree>) {
    && |trees| == |pending|
    && (forall i :: 0 <= i < |trees| ==> Fits(find, pending[i], trees[i]))
    && Fresh(limit, claimed, ForestPages(trees))
    && claimed + Elements(ForestPages(trees)) == Numbers(limit)
  }

  ghost predicate HasForest(find: Find, limit: nat, roots: seq<Entry>) {
    exists trees :: IsForest(find, limit, {}, roots, trees)
  }

  lemma TreeAndChildren(t: Tree)
    ensures TreePages(t) == ([t.page] + t.overflow) + ForestPages(t.children)
  {
    var c := t.children;
    assert seq(|c|, (i: nat) requires i < |c| => TreePages(c[i]))
        == seq(|t.children|, (i: nat) requires i < |t.children| => TreePages(t.children[i]));
  }

  lemma ForestSnoc(trees: seq<Tree>, t: Tree)
    ensures ForestPages(trees + [t]) == TreePages(t) + ForestPages(trees)
  {
    var all := trees + [t];
    var lists := seq(|all|, (i: nat) requires i < |all| => TreePages(all[i]));
    assert lists[..|trees|] == seq(|trees|, (i: nat) requires i < |trees| => TreePages(trees[i]));
  }

  lemma {:induction false} ForestConcat(a: seq<Tree>, b: seq<Tree>)
    ensures ForestPages(a + b) == ForestPages(b) + ForestPages(a)
    decreases |b|
  {
    if b == [] {
      assert a + b == a;
      assert [] + ForestPages(a) == ForestPages(a);
    } else {
      var init, last := b[..|b| - 1], b[|b| - 1];
      calc {
        ForestPages(a + b);
        { assert a + b == (a + init) + [last]; ForestSnoc(a + init, last); }
        TreePages(last) + ForestPages(a + init);
        { ForestConcat(a, init); }
        TreePages(last) + (ForestPages(init) + ForestPages(a));
        (TreePages(last) + ForestPages(init)) + ForestPages(a);
        { assert b == init + [last]; ForestSnoc(init, last); }
        ForestPages(b) + ForestPages(a);
      }
    }
  }

  /** Opening the last tree leaves the pages that visiting its root claims, and the rest. */
  lemma OpenTree(trees: seq<Tree>, t: Tree)
    ensures ForestPages(trees + [t]) == ([t.page] + t.overflow) + ForestPages(trees + t.children)
  {
    calc {
      ForestPages(trees + [t]);
      { ForestSnoc(trees, t); }
      TreePages(t) + ForestPages(trees);
      { TreeAndChildren(t); }
      (([t.page] + t.overflow) + ForestPages(t.children)) + ForestPages(trees);
      ([t.page] + t.overflow) + (ForestPages(t.children) + ForestPages(trees));
      { ForestConcat(trees, t.children); }
      ([t.page] + t.overflow) + ForestPages(trees + t.children);
    }
  }

  /** A walk that succeeds has a forest. */
  lemma {:induction false} WalkHasForest(find: Find, limit: nat, claimed: set<int>, pending: seq<Entry>)
    returns (trees: seq<Tree>)
    requires Walk(find, limit, claimed, pending).Some?
    ensures IsForest(find, limit, claimed, pending, trees)
    decreases Numbers(limit) - claimed
  {
    if pending == [] {
      trees := [];
      assert ForestPages(trees) == [];
      NothingIsFresh(limit, claimed);
    } else {
      var e, rest := pending[|pending| - 1], pending[..|pending| - 1];
      var found := find(e).value;
      var claimed' := claimed + Elements(Claims(e, found));
      ClaimsAdvance(limit, claimed, e, found);
      var later := WalkHasForest(find, limit, claimed', rest + Entries(found.children, e));
      trees := CloseTree(find, limit, claimed, rest, e, found, later);
      assert pending == rest + [e];
    }
  }

  /** The trees of the children of an entry, gathered under its page. */
  lemma CloseTree(find: Find, limit: nat, claimed: set<int>, rest: seq<Entry>, e: Entry, found: Found, later: seq<Tree>)
    returns (trees: seq<Tree>)
    requires e.depth <= MAX_DEPTH && find(e) == Some(found) && Fresh(limit, claimed, Claims(e, found))
    requires IsForest(find, limit, claimed + Elements(Claims(e, found)), rest + Entries(found.children, e), later)
    ensures IsForest(find, limit, claimed, rest + [e], trees)
  {
    var front, t := later[..|rest|], Node(e.page, found.overflow, later[|rest|..]);
    trees := front + [t];
    assert ForestPages(trees) == Claims(e, found) + ForestPages(later) by {
      OpenTree(front, t);
      assert front + t.children == later;
    }
    FreshAll(limit, claimed, Claims(e, found), ForestPages(later));
    TreeFits(find, rest, e, found, later);
  }

  lemma FreshAll(limit: nat, claimed: set<int>, first: seq<int>, later: seq<int>)
    requires Fresh(limit, claimed, first) && Fresh(limit, claimed + Elements(first), later)
    ensures Fresh(limit, claimed, first + later)
    ensures claimed + Elements(first + later) == claimed + Elements(first) + Elements(later)
  {
    FreshJoins(limit, claimed, first, later);
  }

  lemma TreeFits(find: Find, rest: seq<Entry>, e: Entry, found: Found, later: seq<Tree>)
    requires e.depth <= MAX_DEPTH && find(e) == Some(found)
    requires var entries := rest + Entries(found.children, e);
             |later| == |entries| && forall i :: 0 <= i < |later| ==> Fits(find, entries[i], later[i])
    ensures Fits(find, e, Node(e.page, found.overflow, later[|rest|..]))
    ensures forall i :: 0 <= i < |rest| ==> Fits(find, rest[i], later[i])
  {
    var entries := rest + Entries(found.children, e);
    var t := Node(e.page, found.overflow, later[|rest|..]);
    forall i | 0 <= i < |t.children| ensures Fits(find, Entries(found.children, e)[i], t.children[i]) {
      assert Fits(find, entries[|rest| + i], later[|rest| + i]);
    }
    forall i | 0 <= i < |rest| ensures Fits(find, rest[i], later[i]) {
      assert Fits(find, entries[i], later[i]);
    }
  }

  /** The converse of gathering. */
  lemma CutTree(find: Find, limit: nat, claimed: set<int>, rest: seq<Entry>, e: Entry, trees: seq<Tree>)
    returns (later: seq<Tree>)
    requires IsForest(find, limit, claimed, rest + [e], trees)
    ensures e.depth <= MAX_DEPTH && find(e).Some? && Fresh(limit, claimed, Claims(e, find(e).value))
    ensures IsForest(find, limit, claimed + Elements(Claims(e, find(e).value)),
                     rest + Entries(find(e).value.children, e), later)
  {
    var front, t := trees[..|rest|], trees[|rest|];
    assert Fits(find, (rest + [e])[|rest|], trees[|rest|]);
    var found := find(e).value;
    later := front + t.children;
    assert trees == front + [t];
    OpenTree(front, t);
    FreshSplits(limit, claimed, Claims(e, found), ForestPages(later));
    var entries := rest + Entries(found.children, e);
    forall i | 0 <= i < |later| ensures Fits(find, entries[i], later[i]) {
      if i < |rest| {
        assert Fits(find, (rest + [e])[i], trees[i]);
      } else {
        assert Fits(find, Entries(found.children, e)[i - |rest|], t.children[i - |rest|]);
      }
    }
  }

  /** A forest makes the walk succeed. */
  lemma {:induction false} ForestIsWalked(find: Find, limit: nat, claimed: set<int>, pending: seq<Entry>,
                                          trees: seq<Tree>)
    requires IsForest(find, limit, claimed, pending, trees)
    ensures Walk(find, limit, claimed, pending).Some?
    decreases Numbers(limit) - claimed
  {
    if pending != [] {
      var e, rest := pending[|pending| - 1], pending[..|pending| - 1];
      assert pending == rest + [e];
      var later := CutTree(find, limit, claimed, rest, e, trees);
      var found := find(e).value;
      ClaimsAdvance(limit, claimed, e, found);
      ForestIsWalked(find, limit, claimed + Elements(Claims(e, found)), rest + Entries(found.children, e), later);
    } else {
      assert trees == [];
    }
  }

  /**
    * The walk accepts exactly the images whose pages are a forest: the trees from the roots have
    * sound pages of bounded depth, and their pages and overflow pages are all the pages, each once.
    */
  lemma AcceptsExactlyForests(find: Find, limit: nat, roots: seq<Entry>)
    ensures Walk(find, limit, {}, roots).Some? <==> HasForest(find, limit, roots)
  {
    if Walk(find, limit, {}, roots).Some? {
      var trees := WalkHasForest(find, limit, {}, roots);
    }
    if trees :| IsForest(find, limit, {}, roots, trees) {
      ForestIsWalked(find, limit, {}, roots, trees);
    }
  }
}
