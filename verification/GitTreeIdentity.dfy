/** Serialization of a trie and what its identifier determines (scripts/rust-source-evidence.py). */
module GitTreeIdentity {
  import opened Outcomes
  import opened Bytes
  import opened GitTree
  import Sorting

  // -------------------------------------------------------------- entry order

  /** Git orders a directory as if its name ended in a slash. */
  function Key(node: Node, name: Name): ByteString
    requires node.Dir? && name in node.children
  {
    if node.children[name].Dir? then name + [SLASH] else name
  }

  lemma KeyHasName(node: Node, n: Name)
    requires node.Dir? && AllNames(node, SlashFree) && n in node.children
    ensures var k := Key(node, n); n == if SLASH in k then k[..|k| - 1] else k
  {
    assert SlashFree(n);
    if node.children[n].Dir? {
      assert Key(node, n)[|n|] == SLASH;
    }
  }

  lemma KeysAreDistinct(node: Node, m: Name, n: Name)
    requires node.Dir? && AllNames(node, SlashFree)
    requires m in node.children && n in node.children && m != n
    ensures Key(node, m) != Key(node, n)
  {
    KeyHasName(node, m);
    KeyHasName(node, n);
  }

  /** The sort key of a directory's entries. */
  function EntryKey(node: Node): Sorting.Key<Name> {
    name => if node.Dir? && name in node.children then Key(node, name) else name
  }

  lemma EntryKeySeparates(node: Node, names: set<Name>)
    requires node.Dir? && AllNames(node, SlashFree) && names <= node.children.Keys
    ensures Sorting.Separates(EntryKey(node), names)
  {
    forall x, y | x in names && y in names && EntryKey(node)(x) == EntryKey(node)(y)
      ensures x == y
    {
      if x != y {
        KeysAreDistinct(node, x, y);
      }
    }
  }

  /** The entries in Git's order. */
  ghost function Listing(node: Node): seq<Name>
    requires node.Dir? && AllNames(node, SlashFree)
  {
    EntryKeySeparates(node, node.children.Keys);
    Sorting.Sorted(EntryKey(node), node.children.Keys)
  }

  lemma ListingMembers(node: Node)
    requires node.Dir? && AllNames(node, SlashFree)
    ensures forall n :: n in Listing(node) <==> n in node.children
  {
    EntryKeySeparates(node, node.children.Keys);
    Sorting.SortedMembers(EntryKey(node), node.children.Keys);
  }

  /** The listing is in Git's order, and no other enumeration of the names is. */
  lemma ListingIsTheSort(node: Node, names: seq<Name>)
    requires node.Dir? && AllNames(node, SlashFree)
    requires forall n :: n in names <==> n in node.children
    ensures Sorting.Ascending(EntryKey(node), names) <==> names == Listing(node)
  {
    EntryKeySeparates(node, node.children.Keys);
    Sorting.SortedAscends(EntryKey(node), node.children.Keys);
    if Sorting.Ascending(EntryKey(node), names) {
      Sorting.AscendingIsSorted(EntryKey(node), node.children.Keys, names);
    }
  }

  // ------------------------------------------------------------ serialization

  function Mode(node: Node): ByteString {
    match node
    case Dir(_) => [52, 48, 48, 48, 48]
    case File(leaf) => if leaf.executable then [49, 48, 48, 55, 53, 53] else [49, 48, 48, 54, 52, 52]
  }

  ghost function DigestOf(hash: Hash, node: Node): Digest
    requires AllNames(node, SlashFree)
    decreases node, 2
  {
    match node
    case File(leaf) => leaf.blob
    case Dir(_) => hash(TreeObject(hash, node))
  }

  ghost function TreeObject(hash: Hash, node: Node): ByteString
    requires node.Dir? && AllNames(node, SlashFree)
    decreases node, 1
  {
    ListingMembers(node);
    Object(TREE, TreeData(hash, node, Listing(node)))
  }

  ghost function TreeData(hash: Hash, node: Node, names: seq<Name>): ByteString
    requires node.Dir? && AllNames(node, SlashFree)
    requires forall n :: n in names ==> n in node.children
    decreases node, 0, |names|
  {
    if names == [] then []
    else
      var child := node.children[names[0]];
      EntryData(Mode(child), names[0], DigestOf(hash, child)) + TreeData(hash, node, names[1..])
  }

  function EntryData(mode: ByteString, name: Name, digest: Digest): ByteString {
    mode + [SPACE] + (name + [NUL] + digest)
  }

  // --------------------------------------------------------- the text that is hashed

  /** A name as Git compares it. */
  function Compared(node: Node, name: Name): ByteString
    requires node.Dir? && name in node.children
  {
    name + match node.children[name]
           case Dir(_) => Ascii("/")
           case File(_) => []
  }

  function ModeText(node: Node): ByteString {
    match node
    case Dir(_) => Ascii("40000")
    case File(leaf) => if leaf.executable then Ascii("100755") else Ascii("100644")
  }

  /** The names are listed once each, in byte order with a slash after those of directories. */
  lemma ListingOrder(node: Node)
    requires node.Dir? && AllNames(node, SlashFree)
    ensures forall n :: n in Listing(node) <==> n in node.children
    ensures var names := Listing(node);
            forall i, j :: 0 <= i < j < |names| && names[i] in node.children && names[j] in node.children ==>
              Sorting.Less(Compared(node, names[i]), Compared(node, names[j]))
  {
    ListingMembers(node);
    EntryKeySeparates(node, node.children.Keys);
    Sorting.SortedAscends(EntryKey(node), node.children.Keys);
    forall n | n in node.children ensures Key(node, n) == Compared(node, n) {
      assert Ascii("/") == [SLASH] && n + [] == n;
    }
  }

  lemma ModeIsText(node: Node)
    ensures Mode(node) == ModeText(node)
  {
  }

  function Concat(parts: seq<ByteString>): ByteString {
    if parts == [] then [] else parts[0] + Concat(parts[1..])
  }

  /** A tree entry: mode, a space, the name, a zero byte and the digest. */
  ghost function EntryText(hash: Hash, node: Node, name: Name): ByteString
    requires node.Dir? && AllNames(node, SlashFree) && name in node.children
  {
    var child := node.children[name];
    ModeText(child) + Ascii(" ") + name + [0]
    + match child
      case File(leaf) => leaf.blob
      case Dir(_) => hash(TreeObject(hash, child))
  }

  lemma EntryIsText(hash: Hash, node: Node, name: Name)
    requires node.Dir? && AllNames(node, SlashFree) && name in node.children
    ensures var child := node.children[name];
            EntryData(Mode(child), name, DigestOf(hash, child)) == EntryText(hash, node, name)
  {
    var child := node.children[name];
    ModeIsText(child);
    SpaceIsText();
    Regrouped(Mode(child), [SPACE], name, [NUL], DigestOf(hash, child));
  }

  lemma SpaceIsText()
    ensures Ascii(" ") == [SPACE]
  {
  }

  lemma Regrouped(a: ByteString, b: ByteString, c: ByteString, d: ByteString, e: ByteString)
    ensures a + b + (c + d + e) == a + b + c + d + e
  {
  }

  lemma {:induction false} DataIsText(hash: Hash, node: Node, names: seq<Name>) returns (entries: seq<ByteString>)
    requires node.Dir? && AllNames(node, SlashFree) && forall n :: n in names ==> n in node.children
    ensures |entries| == |names| && TreeData(hash, node, names) == Concat(entries)
    ensures forall k :: 0 <= k < |names| ==> entries[k] == EntryText(hash, node, names[k])
  {
    entries := [];
    if names != [] {
      var rest := DataIsText(hash, node, names[1..]);
      EntryIsText(hash, node, names[0]);
      entries := [EntryText(hash, node, names[0])] + rest;
      assert entries[1..] == rest;
    }
  }

  /** A tree object is its entries in Git's order, after "tree", their length and a zero byte. */
  lemma TreeText(hash: Hash, node: Node) returns (entries: seq<ByteString>)
    requires node.Dir? && AllNames(node, SlashFree)
    ensures |entries| == |Listing(node)| && forall n :: n in Listing(node) <==> n in node.children
    ensures forall k :: 0 <= k < |entries| ==> Listing(node)[k] in node.children
    ensures forall k :: 0 <= k < |entries| ==> entries[k] == EntryText(hash, node, Listing(node)[k])
    ensures TreeObject(hash, node) == Ascii("tree ") + Decimal(|Concat(entries)|) + [0] + Concat(entries)
  {
    ListingMembers(node);
    entries := DataIsText(hash, node, Listing(node));
    ObjectText(Concat(entries));
  }

  /** An entry and what follows it can be told apart. */
  lemma EntryIsDelimited(m: ByteString, n: Name, d: Digest, x: ByteString,
                         m': ByteString, n': Name, d': Digest, x': ByteString)
    requires SPACE !in m && SPACE !in m' && NulFree(n) && NulFree(n')
    requires EntryData(m, n, d) + x == EntryData(m', n', d') + x'
    ensures m == m' && n == n' && d == d' && x == x'
  {
    assert EntryData(m, n, d) + x == m + [SPACE] + (n + [NUL] + (d + x));
    assert EntryData(m', n', d') + x' == m' + [SPACE] + (n' + [NUL] + (d' + x'));
    CutAtSeparator(SPACE, m, n + [NUL] + (d + x), m', n' + [NUL] + (d' + x'));
    CutAtSeparator(NUL, n, d + x, n', d' + x');
    assert d == (d + x)[..20] && d' == (d' + x')[..20];
    assert x == (d + x)[20..] && x' == (d' + x')[20..];
  }

  lemma ModesHaveNoSpace(node: Node)
    ensures SPACE !in Mode(node)
  {
  }

  lemma {:induction false} SameDataSameEntries(hash: Hash, a: Node, m: seq<Name>, b: Node, n: seq<Name>)
    requires a.Dir? && AllNames(a, SlashFree) && AllNames(a, NulFree)
    requires b.Dir? && AllNames(b, SlashFree) && AllNames(b, NulFree)
    requires forall x :: x in m ==> x in a.children
    requires forall x :: x in n ==> x in b.children
    requires TreeData(hash, a, m) == TreeData(hash, b, n)
    ensures m == n
    ensures forall x :: x in m ==> && Mode(a.children[x]) == Mode(b.children[x])
                                   && DigestOf(hash, a.children[x]) == DigestOf(hash, b.children[x])
    decreases |m|
  {
    if m != [] && n != [] {
      var s, t := a.children[m[0]], b.children[n[0]];
      ModesHaveNoSpace(s);
      ModesHaveNoSpace(t);
      EntryIsDelimited(Mode(s), m[0], DigestOf(hash, s), TreeData(hash, a, m[1..]),
                       Mode(t), n[0], DigestOf(hash, t), TreeData(hash, b, n[1..]));
      SameDataSameEntries(hash, a, m[1..], b, n[1..]);
      assert m == [m[0]] + m[1..] && n == [n[0]] + n[1..];
    }
  }

  // ----------------------------------------------------------------- identity

  /** The tree objects hashed while the identifier of a trie is computed. */
  ghost predicate HashedTree(hash: Hash, node: Node, x: ByteString)
    requires AllNames(node, SlashFree)
  {
    node.Dir? &&
    (|| x == TreeObject(hash, node)
     || exists n :: n in node.children && HashedTree(hash, node.children[n], x))
  }

  ghost predicate NoTreeCollision(hash: Hash, a: Node, b: Node)
    requires AllNames(a, SlashFree) && AllNames(b, SlashFree)
  {
    forall x, y :: HashedTree(hash, a, x) && HashedTree(hash, b, y) && hash(x) == hash(y) ==> x == y
  }

  ghost predicate Serializable(node: Node) {
    node.Dir? && AllNames(node, SlashFree) && AllNames(node, NulFree)
  }

  lemma SameObjectSameEntries(hash: Hash, a: Node, b: Node)
    requires Serializable(a) && Serializable(b)
    requires TreeObject(hash, a) == TreeObject(hash, b)
    ensures a.children.Keys == b.children.Keys
    ensures forall x :: x in a.children ==> && Mode(a.children[x]) == Mode(b.children[x])
                                            && DigestOf(hash, a.children[x]) == DigestOf(hash, b.children[x])
  {
    ListingMembers(a);
    ListingMembers(b);
    var m, n := Listing(a), Listing(b);
    ObjectIsInjective(TREE, TreeData(hash, a, m), TreeData(hash, b, n));
    SameDataSameEntries(hash, a, m, b, n);
    assert forall x :: x in a.children.Keys <==> x in m;
    assert forall x :: x in b.children.Keys <==> x in n;
  }

  lemma {:induction false} SameObjectSameTrie(hash: Hash, a: Node, b: Node)
    requires Serializable(a) && Serializable(b)
    requires TreeObject(hash, a) == TreeObject(hash, b)
    requires NoTreeCollision(hash, a, b)
    ensures a == b
    decreases a, 1
  {
    SameObjectSameEntries(hash, a, b);
    forall x | x in a.children
      ensures a.children[x] == b.children[x]
    {
      SameChild(hash, a, b, x);
    }
    assert a.children == b.children;
  }

  lemma {:induction false} SameChild(hash: Hash, a: Node, b: Node, n: Name)
    requires Serializable(a) && Serializable(b)
    requires n in a.children && n in b.children
    requires Mode(a.children[n]) == Mode(b.children[n])
    requires DigestOf(hash, a.children[n]) == DigestOf(hash, b.children[n])
    requires NoTreeCollision(hash, a, b)
    ensures a.children[n] == b.children[n]
    decreases a, 0
  {
    var s, t := a.children[n], b.children[n];
    if s.Dir? {
      SubtreesHaveNoCollision(hash, a, b, n);
      assert HashedTree(hash, s, TreeObject(hash, s)) && HashedTree(hash, t, TreeObject(hash, t));
      SameObjectSameTrie(hash, s, t);
    }
  }

  lemma SubtreesHaveNoCollision(hash: Hash, a: Node, b: Node, n: Name)
    requires AllNames(a, SlashFree) && AllNames(b, SlashFree)
    requires NoTreeCollision(hash, a, b)
    requires a.Dir? && b.Dir? && n in a.children && n in b.children
    ensures NoTreeCollision(hash, a.children[n], b.children[n])
  {
    forall x, y | HashedTree(hash, a.children[n], x) && HashedTree(hash, b.children[n], y) && hash(x) == hash(y)
      ensures x == y
    {
      assert HashedTree(hash, a, x) && HashedTree(hash, b, y);
    }
  }

  /** The identifier the source returns, where the build succeeds. */
  ghost function TreeId(hash: Hash, entries: seq<Entry>, executable: set<ByteString>): (r: Option<Digest>) {
    var root :- Build(hash, entries, executable);
    BuildNames(hash, entries, executable);
    Some(DigestOf(hash, root))
  }

  /** The trie holds a file at its path, with the hash of its blob object and its executable bit. */
  ghost predicate HoldsFile(hash: Hash, root: Node, executable: set<ByteString>, path: ByteString, data: ByteString)
    requires root.Dir?
  {
    Find(root, Split(path))
    == Some(Leaf(path in executable, hash(Ascii("blob ") + Decimal(|data|) + [0] + data)))
  }

  /**
    * The identifier is the hash of the root's tree object, written as Git writes it, over a trie that
    * holds every file at its path.
    */
  lemma IdentityText(hash: Hash, files: map<ByteString, ByteString>, entries: seq<Entry>, executable: set<ByteString>)
    returns (root: Node, texts: seq<ByteString>)
    requires Enumerates(entries, files) && TreeId(hash, entries, executable).Some?
    ensures root.Dir? && AllNames(root, SlashFree) && |texts| == |Listing(root)|
    ensures forall k :: 0 <= k < |texts| ==>
              Listing(root)[k] in root.children && texts[k] == EntryText(hash, root, Listing(root)[k])
    ensures TreeId(hash, entries, executable)
         == Some(hash(Ascii("tree ") + Decimal(|Concat(texts)|) + [0] + Concat(texts)))
    ensures forall p <- files :: HoldsFile(hash, root, executable, p, files[p])
  {
    root := Build(hash, entries, executable).value;
    BuildNames(hash, entries, executable);
    BuildStoresEntries(hash, entries, executable);
    texts := TreeText(hash, root);
    forall p | p in files ensures HoldsFile(hash, root, executable, p, files[p]) {
      FileIsHeld(hash, root, files, entries, executable, p);
    }
  }

  lemma FileIsHeld(hash: Hash, root: Node, files: map<ByteString, ByteString>, entries: seq<Entry>,
                   executable: set<ByteString>, p: ByteString)
    requires Enumerates(entries, files) && Stores(root, hash, entries, executable) && p in files
    ensures HoldsFile(hash, root, executable, p, files[p])
  {
    assert Entry(p, files[p]) in entries;
    var i :| 0 <= i < |entries| && entries[i] == Entry(p, files[p]);
    ObjectText(files[p]);
  }

  /** Everything that is hashed on the way to an identifier. */
  ghost predicate Hashed(hash: Hash, entries: seq<Entry>, executable: set<ByteString>, x: ByteString) {
    || (exists i :: 0 <= i < |entries| && x == Object(BLOB, entries[i].data))
    || (&& Build(hash, entries, executable).Some?
        && AllNames(Build(hash, entries, executable).value, SlashFree)
        && HashedTree(hash, Build(hash, entries, executable).value, x))
  }

  /** SHA-1 maps no two different inputs of these two computations to one digest. */
  ghost predicate NoCollision(hash: Hash, a: seq<Entry>, ea: set<ByteString>, b: seq<Entry>, eb: set<ByteString>) {
    forall x, y :: Hashed(hash, a, ea, x) && Hashed(hash, b, eb, y) && hash(x) == hash(y) ==> x == y
  }

  /** The trie determines which entries there are. */
  lemma StoredEntryIsCommon(hash: Hash, root: Node, a: seq<Entry>, ea: set<ByteString>, b: seq<Entry>,
                            eb: set<ByteString>, i: nat)
    requires Stores(root, hash, a, ea) && Stores(root, hash, b, eb)
    requires NoCollision(hash, a, ea, b, eb)
    requires i < |a|
    ensures a[i] in b && (a[i].path in ea <==> a[i].path in eb)
  {
    var q := Split(a[i].path);
    assert Find(root, q).Some?;
    assert IsStoredPath(b, q);
    var j :| 0 <= j < |b| && q == Split(b[j].path);
    JoinUndoesSplit(a[i].path);
    JoinUndoesSplit(b[j].path);
    assert LeafOf(hash, ea, a[i]) == LeafOf(hash, eb, b[j]);
    assert Hashed(hash, a, ea, Object(BLOB, a[i].data)) && Hashed(hash, b, eb, Object(BLOB, b[j].data));
    ObjectIsInjective(BLOB, a[i].data, b[j].data);
  }

  lemma SameIdSameTrie(hash: Hash, a: seq<Entry>, ea: set<ByteString>, b: seq<Entry>, eb: set<ByteString>)
    requires NulFreePaths(a) && NulFreePaths(b)
    requires TreeId(hash, a, ea).Some? && TreeId(hash, a, ea) == TreeId(hash, b, eb)
    requires NoCollision(hash, a, ea, b, eb)
    ensures Build(hash, a, ea) == Build(hash, b, eb)
  {
    BuildNames(hash, a, ea);
    BuildNames(hash, b, eb);
    var s, t := Build(hash, a, ea).value, Build(hash, b, eb).value;
    assert HashedTree(hash, s, TreeObject(hash, s)) && HashedTree(hash, t, TreeObject(hash, t));
    assert Hashed(hash, a, ea, TreeObject(hash, s)) && Hashed(hash, b, eb, TreeObject(hash, t));
    forall x, y | HashedTree(hash, s, x) && HashedTree(hash, t, y) && hash(x) == hash(y)
      ensures x == y
    {
      assert Hashed(hash, a, ea, x) && Hashed(hash, b, eb, y);
    }
    SameObjectSameTrie(hash, s, t);
  }

  lemma CommonTrieCommonFiles(hash: Hash, root: Node, files: map<ByteString, ByteString>,
                              files': map<ByteString, ByteString>,
                              a: seq<Entry>, ea: set<ByteString>, b: seq<Entry>, eb: set<ByteString>, p: ByteString)
    requires Enumerates(a, files) && Enumerates(b, files')
    requires Stores(root, hash, a, ea) && Stores(root, hash, b, eb)
    requires NoCollision(hash, a, ea, b, eb)
    requires p in files
    ensures p in files' && files[p] == files'[p] && (p in ea <==> p in eb)
  {
    assert Entry(p, files[p]) in a;
    var i :| 0 <= i < |a| && a[i] == Entry(p, files[p]);
    StoredEntryIsCommon(hash, root, a, ea, b, eb, i);
  }

  lemma CommonTrieSubset(hash: Hash, root: Node, files: map<ByteString, ByteString>,
                         files': map<ByteString, ByteString>,
                         a: seq<Entry>, ea: set<ByteString>, b: seq<Entry>, eb: set<ByteString>)
    requires Enumerates(a, files) && Enumerates(b, files')
    requires Stores(root, hash, a, ea) && Stores(root, hash, b, eb)
    requires NoCollision(hash, a, ea, b, eb)
    ensures files.Items <= files'.Items && ea * files.Keys <= eb
  {
    forall item | item in files.Items
      ensures item in files'.Items
    {
      CommonTrieCommonFiles(hash, root, files, files', a, ea, b, eb, item.0);
    }
    forall p | p in ea && p in files
      ensures p in eb
    {
      CommonTrieCommonFiles(hash, root, files, files', a, ea, b, eb, p);
    }
  }

  lemma SameItemsSameMap(m: map<ByteString, ByteString>, n: map<ByteString, ByteString>)
    requires m.Items <= n.Items && n.Items <= m.Items
    ensures m == n
  {
    forall p
      ensures p in m <==> p in n
      ensures p in m ==> m[p] == n[p]
    {
      assert p in m ==> (p, m[p]) in n.Items;
      assert p in n ==> (p, n[p]) in m.Items;
    }
  }

  /**
    * Identifiers are equal exactly when the files are equal and the same files are executable; names of
    * no file in an executable set have no part in it.
    */
  lemma IdentityDeterminesFiles(hash: Hash, files: map<ByteString, ByteString>, files': map<ByteString, ByteString>,
                                a: seq<Entry>, ea: set<ByteString>, b: seq<Entry>, eb: set<ByteString>)
    requires Enumerates(a, files) && Enumerates(b, files')
    requires NulFreePaths(a) && NulFreePaths(b)
    requires TreeId(hash, a, ea).Some? && NoCollision(hash, a, ea, b, eb)
    ensures TreeId(hash, a, ea) == TreeId(hash, b, eb)
       <==> files == files' && ea * files.Keys == eb * files'.Keys
  {
    if TreeId(hash, a, ea) == TreeId(hash, b, eb) {
      SameIdSameFiles(hash, files, files', a, ea, b, eb);
    }
    if files == files' && ea * files.Keys == eb * files'.Keys {
      SameFilesSameId(hash, files, a, ea, b, eb);
    }
  }

  lemma SameFilesSameId(hash: Hash, files: map<ByteString, ByteString>, a: seq<Entry>, ea: set<ByteString>,
                        b: seq<Entry>, eb: set<ByteString>)
    requires Enumerates(a, files) && Enumerates(b, files) && ea * files.Keys == eb * files.Keys
    ensures TreeId(hash, a, ea) == TreeId(hash, b, eb)
  {
    forall e | e in a ensures e.path in ea <==> e.path in eb {
      assert e.path in files.Keys;
      assert e.path in ea * files.Keys <==> e.path in eb * files.Keys;
    }
    OnlyFilesAreExecutable(hash, a, ea, eb);
    OrderDoesNotMatter(hash, files, eb, a, b);
  }

  lemma SameIdSameFiles(hash: Hash, files: map<ByteString, ByteString>, files': map<ByteString, ByteString>,
                        a: seq<Entry>, ea: set<ByteString>, b: seq<Entry>, eb: set<ByteString>)
    requires Enumerates(a, files) && Enumerates(b, files')
    requires NulFreePaths(a) && NulFreePaths(b)
    requires TreeId(hash, a, ea).Some? && TreeId(hash, a, ea) == TreeId(hash, b, eb)
    requires NoCollision(hash, a, ea, b, eb)
    ensures files == files' && ea * files.Keys == eb * files'.Keys
  {
    SameIdSameTrie(hash, a, ea, b, eb);
    CollisionIsSymmetric(hash, a, ea, b, eb);
    BuildStoresEntries(hash, a, ea);
    BuildStoresEntries(hash, b, eb);
    var root := Build(hash, a, ea).value;
    CommonTrieSubset(hash, root, files, files', a, ea, b, eb);
    CommonTrieSubset(hash, root, files', files, b, eb, a, ea);
    SameItemsSameMap(files, files');
  }

  lemma {:induction false} OnlyFilesAreExecutable(hash: Hash, entries: seq<Entry>, ea: set<ByteString>,
                                                  eb: set<ByteString>)
    requires forall e <- entries :: e.path in ea <==> e.path in eb
    ensures Build(hash, entries, ea) == Build(hash, entries, eb)
  {
    if entries != [] {
      assert entries[|entries| - 1] in entries;
      OnlyFilesAreExecutable(hash, entries[..|entries| - 1], ea, eb);
    }
  }

  lemma CollisionIsSymmetric(hash: Hash, a: seq<Entry>, ea: set<ByteString>, b: seq<Entry>, eb: set<ByteString>)
    requires NoCollision(hash, a, ea, b, eb)
    ensures NoCollision(hash, b, eb, a, ea)
  {
  }

  /** The identifier exists exactly for conflict-free files and ignores their order. */
  lemma IdentityIsWellDefined(hash: Hash, files: map<ByteString, ByteString>, executable: set<ByteString>,
                              a: seq<Entry>, b: seq<Entry>)
    requires Enumerates(a, files) && Enumerates(b, files)
    ensures TreeId(hash, a, executable).Some? <==> ConflictFree(a)
    ensures TreeId(hash, a, executable) == TreeId(hash, b, executable)
  {
    BuildSucceedsExactly(hash, a, executable);
    OrderDoesNotMatter(hash, files, executable, a, b);
  }

  // ------------------------------------------------- why NUL must be rejected

  const REGULAR: ByteString := [49, 48, 48, 54, 52, 52]

  function One(m: Name, d: Digest): Node {
    Dir(map[m := File(Leaf(false, d))])
  }

  function Two(m: Name, d: Digest, n: Name, e: Digest): Node {
    Dir(map[m := File(Leaf(false, d)), n := File(Leaf(false, e))])
  }

  lemma FileEntry(hash: Hash, node: Node, names: seq<Name>, d: Digest)
    requires node.Dir? && AllNames(node, SlashFree)
    requires names != [] && forall n :: n in names ==> n in node.children
    requires node.children[names[0]] == File(Leaf(false, d))
    ensures TreeData(hash, node, names) == EntryData(REGULAR, names[0], d) + TreeData(hash, node, names[1..])
  {
    assert DigestOf(hash, node.children[names[0]]) == d;
  }

  lemma OneEntryObject(hash: Hash, m: Name, d: Digest)
    requires SlashFree(m)
    ensures AllNames(One(m, d), SlashFree)
    ensures TreeObject(hash, One(m, d)) == Object(TREE, EntryData(REGULAR, m, d))
  {
    var node := One(m, d);
    ListingIsTheSort(node, [m]);
    FileEntry(hash, node, [m], d);
    assert TreeData(hash, node, [m][1..]) == [];
  }

  lemma TwoEntryListing(m: Name, d: Digest, n: Name, e: Digest)
    requires SlashFree(m) && SlashFree(n) && Sorting.Less(m, n)
    ensures var node := Two(m, d, n, e); m != n && AllNames(node, SlashFree) && Listing(node) == [m, n]
  {
    Sorting.LessIsStrict(m, n);
    ListingIsTheSort(Two(m, d, n, e), [m, n]);
  }

  lemma TwoEntryData(hash: Hash, m: Name, d: Digest, n: Name, e: Digest)
    requires m != n && AllNames(Two(m, d, n, e), SlashFree)
    ensures TreeData(hash, Two(m, d, n, e), [m, n]) == EntryData(REGULAR, m, d) + EntryData(REGULAR, n, e)
  {
    var node := Two(m, d, n, e);
    calc {
      TreeData(hash, node, [m, n]);
      { FileEntry(hash, node, [m, n], d); assert [m, n][1..] == [n]; }
      EntryData(REGULAR, m, d) + TreeData(hash, node, [n]);
      { FileEntry(hash, node, [n], e); assert [n][1..] == []; }
      EntryData(REGULAR, m, d) + (EntryData(REGULAR, n, e) + []);
      EntryData(REGULAR, m, d) + EntryData(REGULAR, n, e);
    }
  }

  lemma TwoEntryObject(hash: Hash, m: Name, d: Digest, n: Name, e: Digest)
    requires SlashFree(m) && SlashFree(n) && Sorting.Less(m, n)
    ensures AllNames(Two(m, d, n, e), SlashFree)
    ensures TreeObject(hash, Two(m, d, n, e)) == Object(TREE, EntryData(REGULAR, m, d) + EntryData(REGULAR, n, e))
  {
    TwoEntryListing(m, d, n, e);
    TwoEntryData(hash, m, d, n, e);
  }

  lemma BuildOne(hash: Hash, m: Name, x: ByteString)
    requires SlashFree(m)
    ensures Build(hash, [Entry(m, x)], {}) == Some(One(m, hash(Object(BLOB, x))))
  {
    assert [Entry(m, x)][..0] == [];
    assert Split(m) == [m];
  }

  lemma BuildTwo(hash: Hash, m: Name, x: ByteString, n: Name, y: ByteString)
    requires SlashFree(m) && SlashFree(n) && m != n
    ensures Build(hash, [Entry(m, x), Entry(n, y)], {}) == Some(Two(m, hash(Object(BLOB, x)), n, hash(Object(BLOB, y))))
  {
    var entries := [Entry(m, x), Entry(n, y)];
    BuildOne(hash, m, x);
    assert entries[..1] == [Entry(m, x)];
    assert Split(n) == [n];
  }

  lemma ImitatedBoundary(m: Name, d: Digest, n: Name, e: Digest)
    ensures EntryData(REGULAR, m, d) + EntryData(REGULAR, n, e)
         == EntryData(REGULAR, m + [NUL] + d + REGULAR + [SPACE] + n, e)
  {
  }

  /**
    * A name with a NUL byte can imitate an entry boundary: two different file sets, hashed without
    * any collision, get one identifier. Rejecting NUL in paths is therefore necessary.
    */
  lemma NulBreaksIdentity(hash: Hash, m: Name, x: ByteString, n: Name, y: ByteString)
    requires SlashFree(m) && SlashFree(n) && Sorting.Less(m, n)
    requires SLASH !in hash(Object(BLOB, x))
    ensures var name := m + [NUL] + hash(Object(BLOB, x)) + REGULAR + [SPACE] + n;
            && TreeId(hash, [Entry(m, x), Entry(n, y)], {}).Some?
            && TreeId(hash, [Entry(m, x), Entry(n, y)], {}) == TreeId(hash, [Entry(name, y)], {})
  {
    var d, e := hash(Object(BLOB, x)), hash(Object(BLOB, y));
    var name := m + [NUL] + d + REGULAR + [SPACE] + n;
    Sorting.LessIsStrict(m, n);
    BuildTwo(hash, m, x, n, y);
    BuildOne(hash, name, y);
    TwoEntryObject(hash, m, d, n, e);
    OneEntryObject(hash, name, e);
    ImitatedBoundary(m, d, n, e);
  }
}
