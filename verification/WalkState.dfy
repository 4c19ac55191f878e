/**
  * The state of the page walk as a value: the pending and scheduled pages, the role of each claimed
  * page, and the rows read.
  */
module WalkState {
  import opened Outcomes
  import opened Record
  import opened PageForest

  const MAX_PAGES := 16384

  datatype Role = BTree | Overflow

  datatype State = State(pending: seq<Entry>, scheduled: set<int>, roles: map<int, Role>, rows: seq<Row>) {
    /** The pages that no new reference may name. */
    ghost function Held(): set<int> {
      roles.Keys + scheduled
    }

    function Push(e: Entry): State {
      this.(pending := pending + [e], scheduled := scheduled + {e.page})
    }

    function Claim(page: int, role: Role): State {
      this.(roles := roles[page := role])
    }
  }

  // ----------------------------------------------------------- counting pages

  lemma {:induction false} NumbersCount(limit: nat)
    ensures |Numbers(limit)| == limit
  {
    if limit > 0 {
      NumbersCount(limit - 1);
      assert Numbers(limit) == Numbers(limit - 1) + {limit as int};
    } else {
      assert Numbers(0) == {};
    }
  }

  lemma SubsetCount(a: set<int>, b: set<int>)
    requires a <= b
    ensures |a| <= |b|
  {
    assert b == a + (b - a);
    assert |a + (b - a)| == |a| + |b - a|;
  }

  // ---------------------------------------------------------------- soundness

  /** The scheduled pages are the pending ones, each pending once and none of them claimed. */
  ghost predicate Consistent(limit: nat, s: State) {
    && s.roles.Keys <= Numbers(limit)
    && Fresh(limit, s.roles.Keys, Pages(s.pending))
    && s.scheduled == Elements(Pages(s.pending)) && |s.scheduled| == |s.pending|
  }

  /** Names a test of a state; what it tests is looked up only where this stands. */
  predicate Examined(limit: nat, s: State) {
    true
  }

  ghost predicate Examines(f: (nat, State) -> bool) {
    forall limit: nat, s: State {:trigger Examined(limit, s)} ::
      Examined(limit, s) ==> f(limit, s) == Consistent(limit, s)
  }

  ghost predicate Sound(limit: nat, s: State) {
    var test: (nat, State) -> bool := (limit: nat, s: State) => Consistent(limit, s);
    assert Examines(test);
    var f: (nat, State) -> bool :| Examines(f);
    f(limit, s)
  }

  lemma SoundIs(limit: nat, s: State)
    ensures Sound(limit, s) == Consistent(limit, s)
  {
    assert Examined(limit, s);
  }

  lemma StartIsSound(limit: nat)
    ensures Sound(limit, State([], {}, map[], []))
  {
    var s := State([], {}, map[], []);
    SoundIs(limit, s);
    NothingIsFresh(limit, s.roles.Keys);
    assert Pages(s.pending) == [];
  }

  /** With a fresh page left, fewer pages are held than there are. */
  lemma RoomForFresh(limit: nat, s: State, page: int)
    requires Sound(limit, s) && Fresh(limit, s.Held(), [page])
    ensures 1 <= page <= limit && page !in s.roles && page !in s.scheduled
    ensures |s.roles| + |s.scheduled| < limit
  {
    SoundIs(limit, s);
    FreshIs(limit, s.Held(), [page]);
    assert page in [page];
    FreshIs(limit, s.roles.Keys, Pages(s.pending));
    assert s.scheduled <= Numbers(limit) && s.roles.Keys !! s.scheduled;
    SubsetCount(s.Held() + {page}, Numbers(limit));
    NumbersCount(limit);
    assert |s.roles.Keys + s.scheduled| == |s.roles.Keys| + |s.scheduled|;
  }

  lemma NotHeldIsFresh(limit: nat, s: State, page: int)
    requires 1 <= page <= limit && page !in s.roles && page !in s.scheduled
    ensures Fresh(limit, s.Held(), [page])
  {
    FreshIs(limit, s.Held(), [page]);
  }

  // ----------------------------------------------------------- progress of a visit

  /** The roles are as before, with overflow pages added. */
  ghost predicate Added(before: map<int, Role>, roles: map<int, Role>, pages: seq<nat>) {
    && roles.Keys == before.Keys + Elements(pages)
    && (forall p <- before :: roles[p] == before[p])
    && (forall p <- pages :: roles[p] == Overflow)
  }

  /** What has been found is scheduled, claimed and recorded. */
  ghost predicate Extends(limit: nat, s: State, s': State, e: Entry, found: Found) {
    && s'.pending == s.pending + Entries(found.children, e)
    && s'.rows == s.rows + found.rows
    && Added(s.roles, s'.roles, found.overflow)
    && s'.Held() == s.Held() + Elements(found.children) + Elements(found.overflow)
    && Fresh(limit, s.Held(), found.overflow)
  }

  /** Names a comparison of states; what it compares is looked up only where this stands. */
  predicate Compared(limit: nat, s: State, s': State, e: Entry, found: Found) {
    true
  }

  ghost predicate Compares(f: (nat, State, State, Entry, Found) -> bool) {
    forall limit: nat, s, s', e, found {:trigger Compared(limit, s, s', e, found)} ::
      Compared(limit, s, s', e, found) ==> f(limit, s, s', e, found) == Extends(limit, s, s', e, found)
  }

  ghost predicate Advanced(limit: nat, s: State, s': State, e: Entry, found: Found) {
    var test: (nat, State, State, Entry, Found) -> bool :=
      (limit: nat, s: State, s': State, e: Entry, found: Found) => Extends(limit, s, s', e, found);
    assert Compares(test);
    var f: (nat, State, State, Entry, Found) -> bool :| Compares(f);
    f(limit, s, s', e, found)
  }

  lemma AdvancedIs(limit: nat, s: State, s': State, e: Entry, found: Found)
    ensures Advanced(limit, s, s', e, found) == Extends(limit, s, s', e, found)
  {
    assert Compared(limit, s, s', e, found);
  }

  const NOTHING := Found([], [], [])

  lemma NoAdvance(limit: nat, s: State, e: Entry)
    ensures Advanced(limit, s, s, e, NOTHING)
  {
    AdvancedIs(limit, s, s, e, NOTHING);
    NothingIsFresh(limit, s.Held());
    assert s.pending + Entries([], e) == s.pending;
    assert s.rows + [] == s.rows;
  }

  lemma AdvancedTwice(limit: nat, s: State, s': State, s'': State, e: Entry, f: Found, g: Found)
    requires Advanced(limit, s, s', e, f) && Advanced(limit, s', s'', e, g)
    ensures Advanced(limit, s, s'', e, f.Join(g))
  {
    var h := f.Join(g);
    AdvancedIs(limit, s, s', e, f);
    AdvancedIs(limit, s', s'', e, g);
    AdvancedIs(limit, s, s'', e, h);
    assert s''.pending == s.pending + Entries(h.children, e) by {
      assert Entries(h.children, e) == Entries(f.children, e) + Entries(g.children, e);
    }
    assert s''.rows == s.rows + h.rows;
    assert Elements(h.children) == Elements(f.children) + Elements(g.children);
    assert Elements(h.overflow) == Elements(f.overflow) + Elements(g.overflow);
    FreshLater(limit, s.Held(), f.overflow, g.overflow, s'.Held());
    AddedTwice(s.roles, s'.roles, s''.roles, f.overflow, g.overflow);
  }

  lemma AddedTwice(a: map<int, Role>, b: map<int, Role>, c: map<int, Role>, p: seq<nat>, q: seq<nat>)
    requires Added(a, b, p) && Added(b, c, q)
    ensures Added(a, c, p + q)
  {
    assert Elements(p + q) == Elements(p) + Elements(q);
  }

  lemma HeldAfter(limit: nat, s: State, s': State, e: Entry, found: Found)
    requires Advanced(limit, s, s', e, found)
    ensures s'.Held() == s.Held() + Elements(found.children) + Elements(found.overflow)
    ensures Fresh(limit, s.Held(), found.overflow)
  {
    AdvancedIs(limit, s, s', e, found);
  }

  // ----------------------------------------------------------------- single steps

  lemma FreshPushed(limit: nat, claimed: set<int>, pending: seq<Entry>, e: Entry)
    requires Fresh(limit, claimed, Pages(pending)) && Fresh(limit, claimed + Elements(Pages(pending)), [e.page])
    ensures Fresh(limit, claimed, Pages(pending + [e]))
    ensures Elements(Pages(pending + [e])) == Elements(Pages(pending)) + {e.page}
  {
    FreshJoins(limit, claimed, Pages(pending), [e.page]);
    assert Pages(pending + [e]) == Pages(pending) + [e.page];
  }

  lemma PushIsSound(limit: nat, s: State, e: Entry)
    requires Sound(limit, s) && Fresh(limit, s.Held(), [e.page])
    ensures Sound(limit, s.Push(e))
  {
    assert e.page !in s.scheduled by {
      RoomForFresh(limit, s, e.page);
    }
    SoundIs(limit, s);
    FreshPushed(limit, s.roles.Keys, s.pending, e);
    SoundIs(limit, s.Push(e));
  }

  lemma PushAdvances(limit: nat, s: State, child: nat, e: Entry)
    ensures Advanced(limit, s, s.Push(Entry(child, e.depth + 1, e.table)), e, Found([child], [], []))
  {
    var s' := s.Push(Entry(child, e.depth + 1, e.table));
    AdvancedIs(limit, s, s', e, Found([child], [], []));
    NothingIsFresh(limit, s.Held());
    assert Entries([child], e) == [Entry(child, e.depth + 1, e.table)];
    assert Elements([child]) == {child as int};
    assert s.rows + [] == s.rows;
  }

  lemma ClaimIsSound(limit: nat, s: State, page: int, role: Role)
    requires Sound(limit, s) && Fresh(limit, s.Held(), [page])
    ensures Sound(limit, s.Claim(page, role))
  {
    RoomForFresh(limit, s, page);
    SoundIs(limit, s);
    SoundIs(limit, s.Claim(page, role));
    assert s.Claim(page, role).roles.Keys == s.roles.Keys + {page};
    FreshIs(limit, s.roles.Keys, Pages(s.pending));
    FreshIs(limit, s.roles.Keys + {page}, Pages(s.pending));
  }

  lemma AddedOne(roles: map<int, Role>, page: nat)
    requires page !in roles
    ensures Added(roles, roles[page as int := Overflow], [page])
    ensures roles[page as int := Overflow].Keys == roles.Keys + {page as int}
  {
    assert Elements([page]) == {page as int};
  }

  lemma ClaimAdvances(limit: nat, s: State, page: nat, e: Entry)
    requires Fresh(limit, s.Held(), [page])
    ensures Advanced(limit, s, s.Claim(page, Overflow), e, Found([], [page], []))
  {
    assert page !in s.roles by {
      FreshIs(limit, s.Held(), [page]);
      assert page in [page];
    }
    AddedOne(s.roles, page);
    assert s.pending == s.pending + Entries([], e) && s.rows + [] == s.rows;
    assert s.Claim(page, Overflow).Held() == s.Held() + Elements([]) + Elements([page]);
    AdvancedIs(limit, s, s.Claim(page, Overflow), e, Found([], [page], []));
  }

  lemma RowsAdvance(limit: nat, s: State, rows: seq<Row>, e: Entry)
    requires Sound(limit, s)
    ensures Sound(limit, s.(rows := s.rows + rows))
    ensures Advanced(limit, s, s.(rows := s.rows + rows), e, Found([], [], rows))
  {
    var s' := s.(rows := s.rows + rows);
    SoundIs(limit, s);
    SoundIs(limit, s');
    AdvancedIs(limit, s, s', e, Found([], [], rows));
    NothingIsFresh(limit, s.Held());
    assert s.pending + Entries([], e) == s.pending;
  }

  /** Whether one more overflow page is fresh can be told from the state after the others. */
  lemma FreshNext(limit: nat, s: State, s': State, e: Entry, pages: seq<nat>, page: nat)
    requires Advanced(limit, s, s', e, Found([], pages, []))
    ensures Fresh(limit, s.Held(), pages + [page]) <==> Fresh(limit, s'.Held(), [page])
  {
    HeldAfter(limit, s, s', e, Found([], pages, []));
    assert s'.Held() == s.Held() + Elements(pages);
    FreshConcat(limit, s.Held(), pages, [page]);
  }

  // ------------------------------------------------------------- visiting an entry

  /** The entry just taken off the work list. */
  function Popped(s: State): State
    requires s.pending != []
  {
    var e := s.pending[|s.pending| - 1];
    s.(pending := s.pending[..|s.pending| - 1], scheduled := s.scheduled - {e.page})
  }

  lemma PopIsSound(limit: nat, s: State)
    requires Sound(limit, s) && s.pending != []
    ensures Sound(limit, Popped(s)) && Fresh(limit, Popped(s).Held(), [s.pending[|s.pending| - 1].page])
  {
    var e, rest := s.pending[|s.pending| - 1], s.pending[..|s.pending| - 1];
    SoundIs(limit, s);
    SoundIs(limit, Popped(s));
    assert Pages(s.pending) == Pages(rest) + [e.page];
    FreshSplits(limit, s.roles.Keys, Pages(rest), [e.page]);
    LastElement(limit, s.roles.Keys, Pages(rest), e.page);
    assert Popped(s).Held() == s.roles.Keys + Elements(Pages(rest));
  }

  lemma LastElement(limit: nat, held: set<int>, pages: seq<int>, page: int)
    requires Fresh(limit, held + Elements(pages), [page])
    ensures Elements(pages + [page]) - {page} == Elements(pages) && page in Elements(pages + [page])
  {
    FreshIs(limit, held + Elements(pages), [page]);
    assert page in [page];
    assert Elements(pages + [page]) == Elements(pages) + {page};
  }

  /** The claimed pages of a visited entry, and what it adds to the work list and the rows. */
  ghost predicate Finished(limit: nat, s: State, s': State, e: Entry, total: Found) {
    && Fresh(limit, s.roles.Keys, Claims(e, total))
    && s'.roles.Keys == s.roles.Keys + Elements(Claims(e, total))
    && s'.pending == s.pending + Entries(total.children, e)
    && s'.rows == s.rows + total.rows
    && Recorded(s.roles, s'.roles, [e.page], total.overflow)
  }

  /** The roles are as before, with b-tree pages and overflow pages added. */
  ghost predicate Recorded(before: map<int, Role>, roles: map<int, Role>, btree: seq<int>, overflow: seq<int>) {
    && (forall p <- before :: p in roles && roles[p] == before[p])
    && (forall p <- btree :: p in roles && roles[p] == BTree)
    && (forall p <- overflow :: p in roles && roles[p] == Overflow)
  }

  lemma AdvanceFinishes(limit: nat, s: State, s': State, e: Entry, total: Found)
    requires Fresh(limit, s.Held(), [e.page]) && Advanced(limit, s.Claim(e.page, BTree), s', e, total)
    ensures Finished(limit, s, s', e, total)
  {
    var s1 := s.Claim(e.page, BTree);
    AdvancedIs(limit, s1, s', e, total);
    assert s1.roles.Keys == s.roles.Keys + {e.page};
    assert e.page !in s.roles by {
      FreshIs(limit, s.Held(), [e.page]);
      assert e.page in [e.page];
    }
    FreshBesideFewer(limit, s.roles.Keys, s.Held(), [e.page]);
    assert Elements([e.page]) == {e.page};
    FreshBesideFewer(limit, s.roles.Keys + {e.page}, s1.Held(), total.overflow);
    FreshJoins(limit, s.roles.Keys, [e.page], total.overflow);
    assert Elements(Claims(e, total)) == {e.page} + Elements(total.overflow);
  }

  /** A page whose finds are not fresh beside the held pages keeps the walk from succeeding. */
  lemma RefusedIsNotAdmitted(limit: nat, s: State, e: Entry, total: Found)
    requires Sound(limit, s)
    requires !Fresh(limit, s.Claim(e.page, BTree).Held(), total.children + total.overflow)
    ensures !Admits(limit, s.roles.Keys, s.pending, e, total)
  {
    if Admits(limit, s.roles.Keys, s.pending, e, total) {
      var all: seq<int> := Claims(e, total) + (Pages(s.pending) + total.children);
      var part: seq<int>, others: seq<int> := total.children + total.overflow, [e.page] + Pages(s.pending);
      assert multiset(part) + multiset(others) <= multiset(all);
      FreshPart(limit, s.roles.Keys, all, part, others);
      SoundIs(limit, s);
      HeldOf(s, e.page);
    }
  }

  lemma HeldOf(s: State, page: int)
    requires s.scheduled == Elements(Pages(s.pending))
    ensures s.Claim(page, BTree).Held() == s.roles.Keys + Elements([page] + Pages(s.pending))
  {
    assert s.Claim(page, BTree).roles.Keys == s.roles.Keys + {page};
    assert Elements([page] + Pages(s.pending)) == {page} + Elements(Pages(s.pending));
  }
}
