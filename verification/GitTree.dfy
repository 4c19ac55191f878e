/**
  * Git tree identity of a set of regular files (scripts/rust-source-evidence.py): a trie of path
  * components, serialized in Git's entry order and hashed bottom-up.
  *
  * SHA-1 is a parameter. Paths are their UTF-8 bytes, and digests are the raw 20 bytes.
  */
module GitTree {
  import opened Outcomes
  import opened Bytes

  type Name = ByteString
  type Digest = d: ByteString | |d| == 20 witness seq(20, _ => 0)
  type Hash = ByteString -> Digest

  const NUL: Byte := 0
  const SPACE: Byte := 32
  const SLASH: Byte := 47

  // ------------------------------------------------------------------ objects

  const BLOB: ByteString := [98, 108, 111, 98]
  const TREE: ByteString := [116, 114, 101, 101]

  function Decimal(n: nat): (s: ByteString)
    ensures NUL !in s
  {
    if n < 10 then [48 + n] else Decimal(n / 10) + [48 + n % 10]
  }

  /** The number that digits spell. */
  function Spelled(s: ByteString): int {
    if s == [] then 0 else 10 * Spelled(s[..|s| - 1]) + s[|s| - 1] - 48
  }

  /** A decimal is the digits of its number, without a leading zero. */
  lemma {:induction false} DecimalSpells(n: nat)
    ensures var s := Decimal(n);
            && s != [] && Spelled(s) == n && (forall d <- s :: 48 <= d <= 57) && (s[0] == 48 ==> n == 0 && |s| == 1)
  {
    if n >= 10 {
      DecimalSpells(n / 10);
      var s := Decimal(n);
      assert s[..|s| - 1] == Decimal(n / 10);
    }
  }

  /** The header and content that a Git object identifier is the hash of. */
  function Object(kind: ByteString, data: ByteString): ByteString {
    kind + [SPACE] + (Decimal(|data|) + [NUL] + data)
  }

  lemma Reassociated(a: ByteString, b: ByteString, c: ByteString, d: ByteString)
    ensures a + (b + c + d) == a + b + c + d
  {
  }

  lemma KindsAreText()
    ensures Ascii("blob ") == BLOB + [SPACE] && Ascii("tree ") == TREE + [SPACE]
  {
  }

  /** A Git object is its kind, its length and its content. */
  lemma ObjectText(data: ByteString)
    ensures Object(BLOB, data) == Ascii("blob ") + Decimal(|data|) + [0] + data
    ensures Object(TREE, data) == Ascii("tree ") + Decimal(|data|) + [0] + data
  {
    KindsAreText();
    Reassociated(BLOB + [SPACE], Decimal(|data|), [0], data);
    Reassociated(TREE + [SPACE], Decimal(|data|), [0], data);
  }

  lemma ObjectIsInjective(kind: ByteString, x: ByteString, y: ByteString)
    requires Object(kind, x) == Object(kind, y)
    ensures x == y
  {
    var n := |kind + [SPACE]|;
    assert Object(kind, x)[n..] == Decimal(|x|) + [NUL] + x;
    assert Object(kind, y)[n..] == Decimal(|y|) + [NUL] + y;
    CutAtSeparator(NUL, Decimal(|x|), x, Decimal(|y|), y);
  }

  // -------------------------------------------------------------------- paths

  function FirstSlash(path: ByteString): (i: nat)
    ensures i <= |path|
    ensures SLASH !in path[..i]
    ensures i < |path| ==> path[i] == SLASH
  {
    if path == [] || path[0] == SLASH then 0
    else
      var i := FirstSlash(path[1..]);
      assert path[..i + 1] == [path[0]] + path[1..][..i];
      1 + i
  }

  function Split(path: ByteString): (parts: seq<Name>)
    ensures parts != []
    decreases |path|
  {
    var i := FirstSlash(path);
    if i == |path| then [path] else [path[..i]] + Split(path[i + 1..])
  }

  function Join(parts: seq<Name>): ByteString {
    if parts == [] then []
    else if |parts| == 1 then parts[0]
    else parts[0] + [SLASH] + Join(parts[1..])
  }

  lemma {:induction false} JoinUndoesSplit(path: ByteString)
    ensures Join(Split(path)) == path
    decreases |path|
  {
    var i := FirstSlash(path);
    if i < |path| {
      JoinUndoesSplit(path[i + 1..]);
      assert Split(path)[1..] == Split(path[i + 1..]);
      assert path == path[..i] + [SLASH] + path[i + 1..];
    }
  }

  predicate SlashFree(name: Name) {
    SLASH !in name
  }

  predicate NulFree(name: Name) {
    NUL !in name
  }

  lemma {:induction false} SplitNames(path: ByteString)
    ensures forall n :: n in Split(path) ==> SlashFree(n) && (NulFree(path) ==> NulFree(n))
    decreases |path|
  {
    var i := FirstSlash(path);
    if i < |path| {
      SplitNames(path[i + 1..]);
    } else {
      assert path[..i] == path;
    }
  }

  // --------------------------------------------------------------------- trie

  datatype Leaf = Leaf(executable: bool, blob: Digest)
  datatype Node = File(leaf: Leaf) | Dir(children: map<Name, Node>)

  const EMPTY: Node := Dir(map[])

  /** Walks or creates the directories of a path and adds the file; None is either conflict error. */
  function Insert(node: Node, parts: seq<Name>, leaf: Leaf): (r: Option<Node>)
    requires node.Dir? && parts != []
    ensures r.Some? ==> r.value.Dir?
    decreases |parts|
  {
    var name := parts[0];
    if |parts| == 1 then
      if name in node.children then None
      else Some(Dir(node.children[name := File(leaf)]))
    else
      var child := if name in node.children then node.children[name] else EMPTY;
      if child.File? then None
      else
        var grown :- Insert(child, parts[1..], leaf);
        Some(Dir(node.children[name := grown]))
  }

  /** The file stored under a path. */
  function Find(node: Node, parts: seq<Name>): Option<Leaf>
    requires node.Dir?
    decreases |parts|
  {
    if parts == [] || parts[0] !in node.children then None
    else
      var child := node.children[parts[0]];
      if child.File? then (if |parts| == 1 then Some(child.leaf) else None)
      else if |parts| == 1 then None
      else Find(child, parts[1..])
  }

  /** No directory below the root is empty. */
  ghost predicate Pruned(node: Node) {
    node.Dir? ==>
      forall n :: n in node.children ==> node.children[n] != EMPTY && Pruned(node.children[n])
  }

  ghost predicate AllNames(node: Node, ok: Name -> bool) {
    node.Dir? ==> forall n :: n in node.children ==> ok(n) && AllNames(node.children[n], ok)
  }

  lemma {:induction false} FindAfterInsert(node: Node, parts: seq<Name>, leaf: Leaf, q: seq<Name>)
    requires node.Dir? && parts != []
    requires Insert(node, parts, leaf).Some?
    ensures Find(Insert(node, parts, leaf).value, q) == if q == parts then Some(leaf) else Find(node, q)
    decreases |parts|
  {
    if q != [] && q[0] == parts[0] {
      assert q == [q[0]] + q[1..] && parts == [parts[0]] + parts[1..];
      if |parts| > 1 && |q| > 1 {
        var child := if parts[0] in node.children then node.children[parts[0]] else EMPTY;
        FindAfterInsert(child, parts[1..], leaf, q[1..]);
      }
    }
  }

  lemma {:induction false} InsertKeepsPruned(node: Node, parts: seq<Name>, leaf: Leaf)
    requires node.Dir? && parts != []
    requires Insert(node, parts, leaf).Some? && Pruned(node)
    ensures Pruned(Insert(node, parts, leaf).value) && Insert(node, parts, leaf).value != EMPTY
    decreases |parts|
  {
    assert parts[0] in Insert(node, parts, leaf).value.children;
    if |parts| > 1 {
      var child := if parts[0] in node.children then node.children[parts[0]] else EMPTY;
      InsertKeepsPruned(child, parts[1..], leaf);
    }
  }

  lemma {:induction false} InsertKeepsNames(node: Node, parts: seq<Name>, leaf: Leaf, ok: Name -> bool)
    requires node.Dir? && parts != []
    requires Insert(node, parts, leaf).Some?
    requires AllNames(node, ok) && forall n :: n in parts ==> ok(n)
    ensures AllNames(Insert(node, parts, leaf).value, ok)
    decreases |parts|
  {
    if |parts| > 1 {
      var child := if parts[0] in node.children then node.children[parts[0]] else EMPTY;
      InsertKeepsNames(child, parts[1..], leaf, ok);
    }
  }

  lemma {:induction false} SomePath(node: Node) returns (q: seq<Name>)
    requires node.Dir? && Pruned(node) && node != EMPTY
    ensures Find(node, q).Some?
    decreases node
  {
    var n :| n in node.children;
    if node.children[n].File? {
      q := [n];
    } else {
      var p := SomePath(node.children[n]);
      q := [n] + p;
    }
  }

  /** Two component paths clash when one is a prefix of the other. */
  predicate Clash(p: seq<Name>, q: seq<Name>) {
    p <= q || q <= p
  }

  lemma {:induction false} InsertFailsOnlyOnClash(node: Node, parts: seq<Name>, leaf: Leaf) returns (q: seq<Name>)
    requires node.Dir? && parts != [] && Pruned(node)
    requires Insert(node, parts, leaf).None?
    ensures Find(node, q).Some? && Clash(q, parts)
    decreases |parts|
  {
    var name := parts[0];
    assert parts == [name] + parts[1..];
    var child := if name in node.children then node.children[name] else EMPTY;
    if child.File? {
      q := [name];
    } else if |parts| == 1 {
      var p := SomePath(child);
      q := [name] + p;
    } else {
      var p := InsertFailsOnlyOnClash(child, parts[1..], leaf);
      q := [name] + p;
    }
  }

  lemma {:induction false} InsertFailsOnClash(node: Node, parts: seq<Name>, leaf: Leaf, q: seq<Name>)
    requires node.Dir? && parts != []
    requires Find(node, q).Some? && Clash(q, parts)
    ensures Insert(node, parts, leaf).None?
    decreases |parts|
  {
    assert q[0] == parts[0];
    assert q == [q[0]] + q[1..] && parts == [parts[0]] + parts[1..];
    if |parts| > 1 && node.children[q[0]].Dir? {
      InsertFailsOnClash(node.children[q[0]], parts[1..], leaf, q[1..]);
    }
  }

  /** A trie without empty directories is determined by the files it stores. */
  lemma {:induction false} StoredFilesDetermineTrie(a: Node, b: Node)
    requires a.Dir? && b.Dir? && Pruned(a) && Pruned(b)
    requires forall q :: Find(a, q) == Find(b, q)
    ensures a == b
    decreases a
  {
    forall n | n in a.children
      ensures n in b.children && a.children[n] == b.children[n]
    {
      StoredUnderName(a, b, n);
    }
    forall n | n in b.children
      ensures n in a.children
    {
      if b.children[n].File? {
        assert Find(b, [n]).Some?;
      } else {
        var p := SomePath(b.children[n]);
        assert Find(b, [n] + p).Some?;
      }
    }
    assert a.children == b.children;
  }

  lemma {:induction false} StoredUnderName(a: Node, b: Node, n: Name)
    requires a.Dir? && b.Dir? && Pruned(a) && Pruned(b)
    requires forall q :: Find(a, q) == Find(b, q)
    requires n in a.children
    ensures n in b.children && a.children[n] == b.children[n]
    decreases a, 0
  {
    if a.children[n].File? {
      assert Find(a, [n]) == Some(a.children[n].leaf);
      assert Find(b, [n]) == Some(a.children[n].leaf);
    } else {
      var p := SomePath(a.children[n]);
      assert ([n] + p)[1..] == p;
      assert Find(a, [n] + p).Some?;
      assert Find(b, [n] + p).Some?;
      forall q
        ensures Find(a.children[n], q) == Find(b.children[n], q)
      {
        assert ([n] + q)[1..] == q;
        assert Find(a, [n] + q) == Find(b, [n] + q);
      }
      StoredFilesDetermineTrie(a.children[n], b.children[n]);
    }
  }

  // -------------------------------------------------------------------- build

  /** The entries of the file dictionary, in its iteration order. */
  datatype Entry = Entry(path: ByteString, data: ByteString)

  predicate DistinctPaths(entries: seq<Entry>) {
    forall i, j :: 0 <= i < j < |entries| ==> entries[i].path != entries[j].path
  }

  function LeafOf(hash: Hash, executable: set<ByteString>, entry: Entry): Leaf {
    Leaf(entry.path in executable, hash(Object(BLOB, entry.data)))
  }

  function Build(hash: Hash, entries: seq<Entry>, executable: set<ByteString>): (r: Option<Node>)
    ensures r.Some? ==> r.value.Dir?
  {
    if entries == [] then Some(EMPTY)
    else
      var last := entries[|entries| - 1];
      var node :- Build(hash, entries[..|entries| - 1], executable);
      Insert(node, Split(last.path), LeafOf(hash, executable, last))
  }

  /** The source's loop, which stops at the first conflict. */
  method BuildTrie(hash: Hash, entries: seq<Entry>, executable: set<ByteString>) returns (r: Option<Node>)
    ensures r == Build(hash, entries, executable)
  {
    var root := EMPTY;
    for i := 0 to |entries|
      invariant root.Dir? && Build(hash, entries[..i], executable) == Some(root)
    {
      assert entries[..i + 1][..i] == entries[..i];
      var grown := Insert(root, Split(entries[i].path), LeafOf(hash, executable, entries[i]));
      if grown.None? {
        BuildFailsEarly(hash, entries, executable, i + 1);
        return None;
      }
      root := grown.value;
    }
    assert entries[..|entries|] == entries;
    return Some(root);
  }

  lemma {:induction false} BuildFailsEarly(hash: Hash, entries: seq<Entry>, executable: set<ByteString>, i: nat)
    requires i <= |entries|
    requires Build(hash, entries[..i], executable).None?
    ensures Build(hash, entries, executable).None?
    decreases |entries| - i
  {
    if i == |entries| {
      assert entries[..i] == entries;
    } else {
      assert entries[..i + 1][..i] == entries[..i];
      BuildFailsEarly(hash, entries, executable, i + 1);
    }
  }

  ghost predicate NulFreePaths(entries: seq<Entry>) {
    forall i :: 0 <= i < |entries| ==> NulFree(entries[i].path)
  }

  lemma {:induction false} BuildNames(hash: Hash, entries: seq<Entry>, executable: set<ByteString>)
    requires Build(hash, entries, executable).Some?
    ensures AllNames(Build(hash, entries, executable).value, SlashFree)
    ensures NulFreePaths(entries) ==> AllNames(Build(hash, entries, executable).value, NulFree)
  {
    if entries != [] {
      var init, last := entries[..|entries| - 1], entries[|entries| - 1];
      BuildNames(hash, init, executable);
      SplitNames(last.path);
      var node, leaf := Build(hash, init, executable).value, LeafOf(hash, executable, last);
      InsertKeepsNames(node, Split(last.path), leaf, SlashFree);
      if NulFreePaths(entries) {
        InsertKeepsNames(node, Split(last.path), leaf, NulFree);
      }
    }
  }

  /** The trie stores every entry under its components, and nothing else. */
  ghost predicate Stores(root: Node, hash: Hash, entries: seq<Entry>, executable: set<ByteString>) {
    && root.Dir? && Pruned(root)
    && (forall i :: 0 <= i < |entries| ==>
          Find(root, Split(entries[i].path)) == Some(LeafOf(hash, executable, entries[i])))
    && (forall q :: Find(root, q).Some? ==> IsStoredPath(entries, q))
  }

  ghost predicate IsStoredPath(entries: seq<Entry>, q: seq<Name>) {
    exists i :: 0 <= i < |entries| && q == Split(entries[i].path)
  }

  lemma InsertStores(node: Node, hash: Hash, entries: seq<Entry>, executable: set<ByteString>)
    requires entries != []
    requires Stores(node, hash, entries[..|entries| - 1], executable)
    requires var last := entries[|entries| - 1];
             Insert(node, Split(last.path), LeafOf(hash, executable, last)).Some?
    ensures var last := entries[|entries| - 1];
            Stores(Insert(node, Split(last.path), LeafOf(hash, executable, last)).value, hash, entries, executable)
  {
    var n := |entries| - 1;
    var parts, leaf := Split(entries[n].path), LeafOf(hash, executable, entries[n]);
    InsertKeepsPruned(node, parts, leaf);
    var root := Insert(node, parts, leaf).value;
    forall i | 0 <= i < |entries|
      ensures Find(root, Split(entries[i].path)) == Some(LeafOf(hash, executable, entries[i]))
    {
      FindAfterInsert(node, parts, leaf, Split(entries[i].path));
      if i < n {
        assert entries[..n][i] == entries[i];
        if Split(entries[i].path) == parts {
          InsertFailsOnClash(node, parts, leaf, parts);
        }
      }
    }
    forall q | Find(root, q).Some?
      ensures IsStoredPath(entries, q)
    {
      FindAfterInsert(node, parts, leaf, q);
      if q != parts {
        var i :| 0 <= i < n && q == Split(entries[..n][i].path);
        assert q == Split(entries[i].path);
      }
    }
  }

  lemma {:induction false} BuildStoresEntries(hash: Hash, entries: seq<Entry>, executable: set<ByteString>)
    requires Build(hash, entries, executable).Some?
    ensures Stores(Build(hash, entries, executable).value, hash, entries, executable)
  {
    if entries != [] {
      var init := entries[..|entries| - 1];
      BuildStoresEntries(hash, init, executable);
      InsertStores(Build(hash, init, executable).value, hash, entries, executable);
    }
  }

  /** No path is a component prefix of another one. */
  ghost predicate ConflictFree(entries: seq<Entry>) {
    forall i, j :: 0 <= i < |entries| && 0 <= j < |entries| && i != j ==>
      !(Split(entries[i].path) <= Split(entries[j].path))
  }

  lemma ConflictFreeStep(entries: seq<Entry>)
    requires entries != []
    ensures var n := |entries| - 1;
            ConflictFree(entries)
            <==> && ConflictFree(entries[..n])
                 && forall i :: 0 <= i < n ==> !Clash(Split(entries[i].path), Split(entries[n].path))
  {
    var n := |entries| - 1;
    var init := entries[..n];
    assert forall i :: 0 <= i < n ==> init[i] == entries[i];
  }

  lemma InsertSucceedsExactly(node: Node, hash: Hash, entries: seq<Entry>, executable: set<ByteString>,
                              parts: seq<Name>, leaf: Leaf)
    requires Stores(node, hash, entries, executable) && parts != []
    ensures Insert(node, parts, leaf).Some?
       <==> forall i :: 0 <= i < |entries| ==> !Clash(Split(entries[i].path), parts)
  {
    if Insert(node, parts, leaf).None? {
      var q := InsertFailsOnlyOnClash(node, parts, leaf);
      assert IsStoredPath(entries, q);
    }
    forall i | 0 <= i < |entries| && Clash(Split(entries[i].path), parts)
      ensures Insert(node, parts, leaf).None?
    {
      InsertFailsOnClash(node, parts, leaf, Split(entries[i].path));
    }
  }

  /** A file can be added exactly when it clashes with none of those stored. */
  lemma AddSucceedsExactly(hash: Hash, entries: seq<Entry>, executable: set<ByteString>, e: Entry)
    requires Build(hash, entries, executable).Some?
    ensures Insert(Build(hash, entries, executable).value, Split(e.path), LeafOf(hash, executable, e)).Some?
       <==> forall i :: 0 <= i < |entries| ==> !Clash(Split(entries[i].path), Split(e.path))
  {
    var node := Build(hash, entries, executable).value;
    BuildStoresEntries(hash, entries, executable);
    InsertSucceedsExactly(node, hash, entries, executable, Split(e.path), LeafOf(hash, executable, e));
  }

  /** The build succeeds exactly on conflict-free files. */
  lemma {:induction false} BuildSucceedsExactly(hash: Hash, entries: seq<Entry>, executable: set<ByteString>)
    ensures Build(hash, entries, executable).Some? <==> ConflictFree(entries)
  {
    if entries != [] {
      var n := |entries| - 1;
      var init := entries[..n];
      BuildSucceedsExactly(hash, init, executable);
      ConflictFreeStep(entries);
      if Build(hash, init, executable).Some? {
        AddSucceedsExactly(hash, init, executable, entries[n]);
        assert forall i :: 0 <= i < n ==> init[i] == entries[i];
      }
    }
  }

  ghost predicate Enumerates(entries: seq<Entry>, files: map<ByteString, ByteString>) {
    && DistinctPaths(entries)
    && (forall e :: e in entries ==> e.path in files && files[e.path] == e.data)
    && (forall p :: p in files ==> Entry(p, files[p]) in entries)
  }

  /** Every map of files can be enumerated. */
  lemma {:induction false} EnumerationExists(files: map<ByteString, ByteString>) returns (entries: seq<Entry>)
    ensures Enumerates(entries, files)
    decreases |files|
  {
    if files == map[] {
      entries := [];
    } else {
      var p :| p in files;
      var others := files - {p};
      var rest := EnumerationExists(others);
      var last := Entry(p, files[p]);
      entries := rest + [last];
      forall q | q in files ensures Entry(q, files[q]) in entries {
        assert q != p ==> q in others && others[q] == files[q];
        assert entries[|rest|] == last;
      }
    }
  }

  lemma StoredInBoth(s: Node, t: Node, hash: Hash, files: map<ByteString, ByteString>,
                     executable: set<ByteString>, a: seq<Entry>, b: seq<Entry>, q: seq<Name>)
    requires Enumerates(a, files) && Enumerates(b, files)
    requires Stores(s, hash, a, executable) && Stores(t, hash, b, executable)
    requires Find(s, q).Some?
    ensures Find(s, q) == Find(t, q)
  {
    var i :| 0 <= i < |a| && q == Split(a[i].path);
    assert a[i] in a;
    assert a[i] == Entry(a[i].path, files[a[i].path]);
    var j :| 0 <= j < |b| && b[j] == a[i];
    assert Find(t, Split(b[j].path)) == Some(LeafOf(hash, executable, b[j]));
  }

  lemma SameFilesSameTrie(s: Node, t: Node, hash: Hash, files: map<ByteString, ByteString>,
                          executable: set<ByteString>, a: seq<Entry>, b: seq<Entry>)
    requires Enumerates(a, files) && Enumerates(b, files)
    requires Stores(s, hash, a, executable) && Stores(t, hash, b, executable)
    ensures s == t
  {
    forall q
      ensures Find(s, q) == Find(t, q)
    {
      if Find(s, q).Some? {
        StoredInBoth(s, t, hash, files, executable, a, b, q);
      } else if Find(t, q).Some? {
        StoredInBoth(t, s, hash, files, executable, b, a, q);
      }
    }
    StoredFilesDetermineTrie(s, t);
  }

  /** The trie does not depend on the order in which the files are inserted. */
  lemma OrderDoesNotMatter(hash: Hash, files: map<ByteString, ByteString>, executable: set<ByteString>,
                           a: seq<Entry>, b: seq<Entry>)
    requires Enumerates(a, files) && Enumerates(b, files)
    ensures Build(hash, a, executable) == Build(hash, b, executable)
  {
    BuildSucceedsExactly(hash, a, executable);
    BuildSucceedsExactly(hash, b, executable);
    if ConflictFree(a) {
      SameFilesSameConflicts(files, a, b);
      BuildStoresEntries(hash, a, executable);
      BuildStoresEntries(hash, b, executable);
      SameFilesSameTrie(Build(hash, a, executable).value, Build(hash, b, executable).value,
                        hash, files, executable, a, b);
    } else if ConflictFree(b) {
      SameFilesSameConflicts(files, b, a);
    }
  }

  lemma SameFilesSameConflicts(files: map<ByteString, ByteString>, a: seq<Entry>, b: seq<Entry>)
    requires Enumerates(a, files) && Enumerates(b, files)
    requires ConflictFree(a)
    ensures ConflictFree(b)
  {
    forall i, j | 0 <= i < |b| && 0 <= j < |b| && i != j
      ensures !(Split(b[i].path) <= Split(b[j].path))
    {
      assert b[i] in b && b[j] in b;
      assert b[i] == Entry(b[i].path, files[b[i].path]) && b[j] == Entry(b[j].path, files[b[j].path]);
      var k :| 0 <= k < |a| && a[k] == b[i];
      var l :| 0 <= l < |a| && a[l] == b[j];
      assert b[i].path != b[j].path;
    }
  }
}
