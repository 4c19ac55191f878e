/**
  * Admission of a changed-set pack (protocol/conformance/hub_sync_14.py) and of a live pack
  * (protocol/conformance/hub_sync_15.py). A pack is its decoded content: stored rows, row roles,
  * tombstones, affected projected ids and impacted roots, each keyed as its primary key is.
  */
module ChangedSet {
  import opened Outcomes

  datatype Table = GlobalSettings | CarSettings | Cars | Drives | Positions | ChargingProcesses | Charges
                 | Addresses | Geofences | States | Updates

  datatype Projection = PCars | PCarSettings | PDrives | PPositions | PCharges | PChargeSamples | PCarStates
                      | PCarUpdates

  datatype Role = Changed | Context

  datatype Effect = Recompute | Delete

  datatype Kind = DriveRoot | ChargeRoot

  datatype Presence = Absent | Open | Closed

  /** What admission reads of a stored row: the root that a child row names, and whether a root has ended. */
  datatype Row = Row(owner: Option<int>, ended: bool)

  datatype Root = Root(base: Presence, target: Presence, children: nat)

  datatype Pack = Pack(rows: map<(Table, int), Row>, roles: map<(Table, int), Role>, tombstones: set<(Table, int)>,
                       scope: map<(Projection, int), Effect>, roots: map<(Kind, int), Root>)

  /** The counts of a receipt, and whether its digests and metadata match the pack. */
  datatype Receipt = Receipt(totalRows: nat, affected: nat, impacted: nat, bound: bool)

  function Projected(t: Table): Option<Projection> {
    match t
    case Cars => Some(PCars)
    case CarSettings => Some(PCarSettings)
    case Drives => Some(PDrives)
    case Positions => Some(PPositions)
    case ChargingProcesses => Some(PCharges)
    case Charges => Some(PChargeSamples)
    case States => Some(PCarStates)
    case Updates => Some(PCarUpdates)
    case _ => None
  }

  function RootKind(t: Table): Option<Kind> {
    match t
    case Drives => Some(DriveRoot)
    case ChargingProcesses => Some(ChargeRoot)
    case _ => None
  }

  function RootTable(k: Kind): Table {
    match k
    case DriveRoot => Drives
    case ChargeRoot => ChargingProcesses
  }

  function ChildTable(k: Kind): Table {
    match k
    case DriveRoot => Positions
    case ChargeRoot => Charges
  }

  function ProjectedRoot(k: Kind): Projection {
    match k
    case DriveRoot => PDrives
    case ChargeRoot => PCharges
  }

  function ProjectedChild(k: Kind): Projection {
    match k
    case DriveRoot => PPositions
    case ChargeRoot => PChargeSamples
  }

  predicate Has(p: Pack, projection: Projection, id: int, effect: Effect) {
    (projection, id) in p.scope && p.scope[(projection, id)] == effect
  }

  /** The stored children of a root. */
  function Children(p: Pack, k: Kind, id: int): set<(Table, int)> {
    set key | key in p.rows && key.0 == ChildTable(k) && p.rows[key].owner == Some(id)
  }

  // ------------------------------------------------------------------- admission

  /** A changed row: its recomputation is in scope and, for a root, the root is witnessed. */
  predicate ChangedRowPasses(p: Pack, key: (Table, int)) {
    && (Projected(key.0).Some? ==> Has(p, Projected(key.0).value, key.1, Recompute))
    && (RootKind(key.0).Some? ==> (RootKind(key.0).value, key.1) in p.roots)
  }

  predicate TombstonePasses(p: Pack, key: (Table, int)) {
    && (Projected(key.0).Some? ==> Has(p, Projected(key.0).value, key.1, Delete))
    && (RootKind(key.0).Some? ==> (RootKind(key.0).value, key.1) in p.roots)
  }

  /** A changed child names a witnessed root, if it names one. */
  predicate ChangedChildPasses(p: Pack, k: Kind, key: (Table, int)) {
    key in p.roles && p.roles[key] == Changed && key.0 == ChildTable(k) && key in p.rows ==>
      match p.rows[key].owner
      case None => true
      case Some(owner) => (k, owner) in p.roots
  }

  predicate RootPasses(p: Pack, k: Kind, id: int, root: Root) {
    var key := (RootTable(k), id);
    var count := |Children(p, k, id)|;
    && count == root.children
    && (root.target == Absent <==> key !in p.rows)
    && (root.target == Absent && root.base != Absent ==> key in p.tombstones)
    && if root.target == Absent && root.base == Absent then
         key !in p.tombstones && !Has(p, ProjectedRoot(k), id, Delete)
       else
         && Has(p, ProjectedRoot(k), id, if root.target == Absent then Delete else Recompute)
         && (k == ChargeRoot && root.target == Absent ==> count == 0)
         && (key in p.rows ==> (root.target == Open <==> !p.rows[key].ended))
  }

  /** A child of an impacted root is recomputed. */
  predicate ChildPasses(p: Pack, k: Kind, key: (Table, int)) {
    key in p.rows && key.0 == ChildTable(k) && p.rows[key].owner.Some? && (k, p.rows[key].owner.value) in p.roots ==>
      Has(p, ProjectedChild(k), key.1, Recompute)
  }

  /** A surviving position of a drive that is gone or open again is recomputed. */
  predicate SurvivorPasses(p: Pack, key: (Table, int)) {
    key in p.rows && key.0 == Positions && p.rows[key].owner.Some? && (DriveRoot, p.rows[key].owner.value) in p.roots
    && p.roots[(DriveRoot, p.rows[key].owner.value)].target != Closed ==>
      Has(p, PPositions, key.1, Recompute)
  }

  predicate VerifyPack(r: Receipt, p: Pack) {
    && |p.roles| == |p.rows| && (forall key <- p.rows :: key in p.roles)
    && (forall key <- p.tombstones :: key !in p.roles)
    && |p.roles| + |p.tombstones| == r.totalRows
    && r.bound
    && |p.scope| == r.affected && |p.roots| == r.impacted
    && (forall key <- p.roles :: p.roles[key] == Changed ==> ChangedRowPasses(p, key))
    && (forall key <- p.tombstones :: TombstonePasses(p, key))
    && (forall key <- p.roles :: ChangedChildPasses(p, DriveRoot, key) && ChangedChildPasses(p, ChargeRoot, key))
    && (forall key <- p.roots :: RootPasses(p, key.0, key.1, p.roots[key]))
    && (forall key <- p.rows :: SurvivorPasses(p, key))
    && (forall key <- p.rows :: ChildPasses(p, DriveRoot, key) && ChildPasses(p, ChargeRoot, key))
  }

  // -------------------------------------------------------- what admission means

  /** The tables of a kind of root: its own, that of its children, and the projections of both. */
  datatype Family = Family(root: Table, child: Table, projectedRoot: Projection, projectedChild: Projection)

  function FamilyOf(k: Kind): Family {
    if k == DriveRoot then Family(Drives, Positions, PDrives, PPositions)
    else Family(ChargingProcesses, Charges, PCharges, PChargeSamples)
  }

  /** Which table is projected to which. */
  predicate Projects(t: Table, p: Projection) {
    || (t == Cars && p == PCars) || (t == CarSettings && p == PCarSettings)
    || (t == Drives && p == PDrives) || (t == Positions && p == PPositions)
    || (t == ChargingProcesses && p == PCharges) || (t == Charges && p == PChargeSamples)
    || (t == States && p == PCarStates) || (t == Updates && p == PCarUpdates)
  }

  lemma TablesAgree(k: Kind, t: Table, p: Projection)
    ensures FamilyOf(k) == Family(RootTable(k), ChildTable(k), ProjectedRoot(k), ProjectedChild(k))
    ensures Projects(t, p) <==> Projected(t) == Some(p)
    ensures RootKind(t) == Some(k) <==> t == FamilyOf(k).root
  {
  }

  /** The roots that were there and are gone. */
  predicate Removed(p: Pack, k: Kind, id: int) {
    (k, id) in p.roots && p.roots[(k, id)].base != Absent && p.roots[(k, id)].target == Absent
  }

  /** The projected rows that the pack makes stale: of changed rows, stored roots and their children. */
  predicate Stale(p: Pack, projection: Projection, id: int) {
    StaleChange(p, projection, id) || StaleRoot(p, projection, id) || StaleChild(p, projection, id)
  }

  predicate StaleChange(p: Pack, projection: Projection, id: int) {
    exists key <- p.roles :: p.roles[key] == Changed && key.1 == id && Projects(key.0, projection)
  }

  predicate StaleRoot(p: Pack, projection: Projection, id: int) {
    exists k <- {DriveRoot, ChargeRoot} :: FamilyOf(k).projectedRoot == projection && IsStoredRoot(p, k, id)
  }

  predicate StaleChild(p: Pack, projection: Projection, id: int) {
    exists k <- {DriveRoot, ChargeRoot}, key <- p.rows ::
      IsChild(p, k, key) && key.1 == id && FamilyOf(k).projectedChild == projection
  }

  /** An impacted root that is stored. */
  predicate IsStoredRoot(p: Pack, k: Kind, id: int) {
    (FamilyOf(k).root, id) in p.rows && (k, id) in p.roots
  }

  /** A stored child of an impacted root. */
  predicate IsChild(p: Pack, k: Kind, key: (Table, int)) {
    key in p.rows && key.0 == FamilyOf(k).child && p.rows[key].owner.Some? && (k, p.rows[key].owner.value) in p.roots
  }

  /** The projected rows of tombstoned rows. */
  predicate Gone(p: Pack, projection: Projection, id: int) {
    exists key <- p.tombstones :: key.1 == id && Projects(key.0, projection)
  }

  /** The roots that a pack must list: changed or tombstoned ones, and the owners of changed children. */
  predicate MustBeListed(p: Pack, k: Kind, id: int) {
    || IsChanged(p, (FamilyOf(k).root, id))
    || (FamilyOf(k).root, id) in p.tombstones
    || exists key <- p.rows :: key.0 == FamilyOf(k).child && IsChanged(p, key) && p.rows[key].owner == Some(id)
  }

  predicate IsChanged(p: Pack, key: (Table, int)) {
    key in p.roles && p.roles[key] == Changed
  }

  ghost predicate AllListed(p: Pack) {
    forall k, id :: MustBeListed(p, k, id) ==> (k, id) in p.roots
  }

  /** The state that the stored rows give a root. */
  function StateOf(p: Pack, k: Kind, id: int): Presence {
    var key := (FamilyOf(k).root, id);
    if key !in p.rows then Absent else if p.rows[key].ended then Closed else Open
  }

  /** The stored rows that name a root as their owner. */
  function ChildRows(p: Pack, k: Kind, id: int): set<(Table, int)> {
    set key | key in p.rows && key.0 == FamilyOf(k).child && p.rows[key].owner == Some(id)
  }

  /** A listed root is what the stored rows make of it; a removed charge leaves no samples. */
  predicate RootAgrees(p: Pack, k: Kind, id: int, root: Root) {
    && root.target == StateOf(p, k, id)
    && root.children == |ChildRows(p, k, id)|
    && (k == ChargeRoot && Removed(p, k, id) ==> root.children == 0)
    && (root.base == Absent == root.target ==> !Has(p, FamilyOf(k).projectedRoot, id, Delete))
  }

  ghost predicate TombstonesRemove(p: Pack) {
    forall k: Kind, id: int :: (FamilyOf(k).root, id) in p.tombstones <==> Removed(p, k, id)
  }

  ghost predicate ScopeCovers(p: Pack) {
    && (forall projection, id :: Stale(p, projection, id) ==> Has(p, projection, id, Recompute))
    && (forall projection, id :: Gone(p, projection, id) ==> Has(p, projection, id, Delete))
  }

  predicate RootsAgree(p: Pack) {
    forall key <- p.roots :: RootAgrees(p, key.0, key.1, p.roots[key])
  }

  /** The closure of a pack, stated without the order of its tests. */
  ghost predicate Coherent(p: Pack) {
    && p.roles.Keys == p.rows.Keys && p.tombstones !! p.rows.Keys
    && TombstonesRemove(p) && ScopeCovers(p) && AllListed(p) && RootsAgree(p)
  }

  predicate Counts(r: Receipt, p: Pack) {
    && |p.rows| + |p.tombstones| == r.totalRows && r.bound
    && |p.scope| == r.affected && |p.roots| == r.impacted
  }

  lemma SameKeys<K, A, B>(a: map<K, A>, b: map<K, B>)
    requires a.Keys <= b.Keys && |a| == |b|
    ensures a.Keys == b.Keys
  {
    var more := b.Keys - a.Keys;
    assert b.Keys == a.Keys + more;
    assert |a.Keys + more| == |a.Keys| + |more|;
    assert |a.Keys| == |a| && |b.Keys| == |b|;
  }

  lemma VerifiedKeys(r: Receipt, p: Pack)
    requires VerifyPack(r, p)
    ensures p.roles.Keys == p.rows.Keys && p.tombstones !! p.rows.Keys
  {
    SameKeys(p.rows, p.roles);
  }

  /** The tombstoned roots are exactly the removed ones. */
  lemma TombstonesAreRemovals(r: Receipt, p: Pack, k: Kind, id: int)
    requires VerifyPack(r, p)
    ensures (FamilyOf(k).root, id) in p.tombstones <==> Removed(p, k, id)
  {
    VerifiedKeys(r, p);
    if (RootTable(k), id) in p.tombstones {
      assert TombstonePasses(p, (RootTable(k), id));
      assert RootPasses(p, k, id, p.roots[(k, id)]);
    }
    if Removed(p, k, id) {
      assert RootPasses(p, k, id, p.roots[(k, id)]);
    }
  }

  lemma StaleRootIsRecomputed(r: Receipt, p: Pack, k: Kind, id: int)
    requires VerifyPack(r, p) && IsStoredRoot(p, k, id)
    ensures Has(p, FamilyOf(k).projectedRoot, id, Recompute)
  {
    assert RootPasses(p, k, id, p.roots[(k, id)]);
  }

  lemma StaleChildIsRecomputed(r: Receipt, p: Pack, k: Kind, key: (Table, int))
    requires VerifyPack(r, p) && IsChild(p, k, key)
    ensures Has(p, FamilyOf(k).projectedChild, key.1, Recompute)
  {
    assert ChildPasses(p, DriveRoot, key) && ChildPasses(p, ChargeRoot, key);
  }

  lemma ChangedIsRecomputed(r: Receipt, p: Pack, key: (Table, int))
    requires VerifyPack(r, p) && key in p.roles && p.roles[key] == Changed
    ensures ChangedRowPasses(p, key)
  {
  }

  lemma ChangedTarget(p: Pack, key: (Table, int), projection: Projection)
    requires ChangedRowPasses(p, key) && Projects(key.0, projection)
    ensures Has(p, projection, key.1, Recompute)
  {
  }

  lemma StaleChangeIsRecomputed(r: Receipt, p: Pack, projection: Projection, id: int)
    requires VerifyPack(r, p) && StaleChange(p, projection, id)
    ensures Has(p, projection, id, Recompute)
  {
    var key :| key in p.roles && p.roles[key] == Changed && key.1 == id && Projects(key.0, projection);
    ChangedIsRecomputed(r, p, key);
    ChangedTarget(p, key, projection);
  }

  lemma StaleIsRecomputed(r: Receipt, p: Pack, projection: Projection, id: int)
    requires VerifyPack(r, p) && Stale(p, projection, id)
    ensures Has(p, projection, id, Recompute)
  {
    if StaleChange(p, projection, id) {
      StaleChangeIsRecomputed(r, p, projection, id);
    } else if StaleRoot(p, projection, id) {
      var k: Kind :| FamilyOf(k).projectedRoot == projection && IsStoredRoot(p, k, id);
      StaleRootIsRecomputed(r, p, k, id);
    } else {
      var k: Kind, key :| IsChild(p, k, key) && key.1 == id && FamilyOf(k).projectedChild == projection;
      StaleChildIsRecomputed(r, p, k, key);
    }
  }

  lemma TombstoneTarget(p: Pack, key: (Table, int), projection: Projection)
    requires TombstonePasses(p, key) && Projects(key.0, projection)
    ensures Has(p, projection, key.1, Delete)
  {
  }

  lemma GoneIsDeleted(r: Receipt, p: Pack, projection: Projection, id: int)
    requires VerifyPack(r, p) && Gone(p, projection, id)
    ensures Has(p, projection, id, Delete)
  {
    var key :| key in p.tombstones && key.1 == id && Projects(key.0, projection);
    assert TombstonePasses(p, key);
    TombstoneTarget(p, key, projection);
  }

  lemma VerifiedScope(r: Receipt, p: Pack)
    requires VerifyPack(r, p)
    ensures ScopeCovers(p)
  {
    forall projection, id | Stale(p, projection, id) ensures Has(p, projection, id, Recompute) {
      StaleIsRecomputed(r, p, projection, id);
    }
    forall projection, id | Gone(p, projection, id) ensures Has(p, projection, id, Delete) {
      GoneIsDeleted(r, p, projection, id);
    }
  }

  lemma VerifiedRoots(r: Receipt, p: Pack)
    requires VerifyPack(r, p)
    ensures RootsAgree(p) && TombstonesRemove(p)
  {
    forall key | key in p.roots ensures RootAgrees(p, key.0, key.1, p.roots[key]) {
      VerifiedRoot(r, p, key.0, key.1);
    }
    forall k: Kind, id: int ensures (FamilyOf(k).root, id) in p.tombstones <==> Removed(p, k, id) {
      TombstonesAreRemovals(r, p, k, id);
    }
  }

  lemma VerifiedRoot(r: Receipt, p: Pack, k: Kind, id: int)
    requires VerifyPack(r, p) && (k, id) in p.roots
    ensures RootAgrees(p, k, id, p.roots[(k, id)])
  {
    ChildrenAre(p, k, id);
    assert RootPasses(p, k, id, p.roots[(k, id)]);
  }

  lemma ChildrenAre(p: Pack, k: Kind, id: int)
    ensures Children(p, k, id) == ChildRows(p, k, id)
  {
  }

  lemma MustBeListedIsListed(r: Receipt, p: Pack, k: Kind, id: int)
    requires VerifyPack(r, p) && MustBeListed(p, k, id)
    ensures (k, id) in p.roots
  {
    var root := (RootTable(k), id);
    if IsChanged(p, root) {
      ChangedIsRecomputed(r, p, root);
    } else if root in p.tombstones {
      assert TombstonePasses(p, root);
    } else {
      var key :| key in p.rows && key.0 == ChildTable(k) && IsChanged(p, key) && p.rows[key].owner == Some(id);
      assert ChangedChildPasses(p, DriveRoot, key) && ChangedChildPasses(p, ChargeRoot, key);
    }
  }

  lemma VerifiedListing(r: Receipt, p: Pack)
    requires VerifyPack(r, p)
    ensures AllListed(p)
  {
    forall k, id | MustBeListed(p, k, id) ensures (k, id) in p.roots {
      MustBeListedIsListed(r, p, k, id);
    }
  }

  lemma VerifiedIsCoherent(r: Receipt, p: Pack)
    requires VerifyPack(r, p)
    ensures Coherent(p) && Counts(r, p)
  {
    VerifiedKeys(r, p);
    VerifiedScope(r, p);
    VerifiedRoots(r, p);
    VerifiedListing(r, p);
  }

  // ------------------------------------------------------------------ the converse

  lemma CoherentRoot(p: Pack, k: Kind, id: int)
    requires Coherent(p) && (k, id) in p.roots
    ensures RootPasses(p, k, id, p.roots[(k, id)])
  {
    var root, key := p.roots[(k, id)], (RootTable(k), id);
    assert RootAgrees(p, k, id, root);
    ChildrenAre(p, k, id);
    assert key in p.tombstones <==> Removed(p, k, id);
    assert Projected(RootTable(k)) == Some(ProjectedRoot(k));
    if Removed(p, k, id) {
      assert Gone(p, ProjectedRoot(k), id);
    } else if root.target != Absent {
      assert k in {DriveRoot, ChargeRoot};
      assert Stale(p, ProjectedRoot(k), id);
    }
  }

  lemma CoherentChild(p: Pack, k: Kind, key: (Table, int))
    requires Coherent(p)
    ensures ChildPasses(p, k, key)
  {
    if IsChild(p, k, key) {
      assert k in {DriveRoot, ChargeRoot};
      assert Stale(p, ProjectedChild(k), key.1);
    }
  }

  lemma CoherentChange(p: Pack, key: (Table, int))
    requires Coherent(p) && key in p.roles && p.roles[key] == Changed
    ensures ChangedRowPasses(p, key)
  {
    if Projected(key.0).Some? {
      assert Stale(p, Projected(key.0).value, key.1);
    }
    if RootKind(key.0).Some? {
      assert MustBeListed(p, RootKind(key.0).value, key.1);
    }
  }

  lemma CoherentChangedChild(p: Pack, k: Kind, key: (Table, int))
    requires Coherent(p)
    ensures ChangedChildPasses(p, k, key)
  {
    if key in p.rows && key.0 == ChildTable(k) && IsChanged(p, key) && p.rows[key].owner.Some? {
      assert MustBeListed(p, k, p.rows[key].owner.value);
    }
  }

  lemma CoherentTombstone(p: Pack, key: (Table, int))
    requires Coherent(p) && key in p.tombstones
    ensures TombstonePasses(p, key)
  {
    if Projected(key.0).Some? {
      assert Gone(p, Projected(key.0).value, key.1);
    }
    if RootKind(key.0).Some? {
      assert Removed(p, RootKind(key.0).value, key.1);
    }
  }

  lemma CoherentIsVerified(r: Receipt, p: Pack)
    requires Coherent(p) && Counts(r, p)
    ensures VerifyPack(r, p)
  {
    assert |p.roles.Keys| == |p.roles| && |p.rows.Keys| == |p.rows|;
    forall key | key in p.roles && p.roles[key] == Changed ensures ChangedRowPasses(p, key) {
      CoherentChange(p, key);
    }
    forall key | key in p.tombstones ensures TombstonePasses(p, key) {
      CoherentTombstone(p, key);
    }
    forall key | key in p.roles
      ensures ChangedChildPasses(p, DriveRoot, key) && ChangedChildPasses(p, ChargeRoot, key)
    {
      CoherentChangedChild(p, DriveRoot, key);
      CoherentChangedChild(p, ChargeRoot, key);
    }
    forall key | key in p.roots ensures RootPasses(p, key.0, key.1, p.roots[key]) {
      CoherentRoot(p, key.0, key.1);
    }
    forall key | key in p.rows ensures ChildPasses(p, DriveRoot, key) && ChildPasses(p, ChargeRoot, key) {
      CoherentChild(p, DriveRoot, key);
      CoherentChild(p, ChargeRoot, key);
    }
    forall key | key in p.rows ensures SurvivorPasses(p, key) {
      assert ChildPasses(p, DriveRoot, key);
    }
  }

  /**
    * A pack is admitted exactly when it is coherent: its roles are its rows, its tombstoned roots are
    * the removed ones, every stale projected row is recomputed and every gone one deleted, and the
    * impacted roots agree with the rows.
    */
  lemma AdmitsExactlyCoherent(r: Receipt, p: Pack)
    ensures VerifyPack(r, p) <==> Coherent(p) && Counts(r, p)
  {
    if VerifyPack(r, p) {
      VerifiedIsCoherent(r, p);
    }
    if Coherent(p) && Counts(r, p) {
      CoherentIsVerified(r, p);
    }
  }

  // -------------------------------------------------------------------- live packs

  /** A live pack is bound to one head on both sides, has no tombstones and only closed roots. */
  predicate VerifyLivePack(sameHead: bool, r: Receipt, p: Pack) {
    && sameHead
    && VerifyPack(r, p)
    && p.tombstones == {}
    && (forall key <- p.roots :: p.roots[key].target == Closed)
  }

  /** A live pack is a coherent pack for one head that deletes nothing and lists only closed roots. */
  lemma LiveAdmitsExactly(sameHead: bool, r: Receipt, p: Pack)
    ensures VerifyLivePack(sameHead, r, p)
       <==> && sameHead && Coherent(p) && Counts(r, p)
            && (forall key :: key !in p.tombstones)
            && (forall k, id :: (k, id) in p.roots ==> p.roots[(k, id)].target == Closed)
  {
    AdmitsExactlyCoherent(r, p);
    if VerifyLivePack(sameHead, r, p) {
      forall k, id | (k, id) in p.roots ensures p.roots[(k, id)].target == Closed {
      }
    }
  }

  /** Every changed root of a live pack is stored and closed, and is recomputed and not deleted. */
  lemma LiveRootsAreClosed(sameHead: bool, r: Receipt, p: Pack, k: Kind, id: int)
    requires VerifyLivePack(sameHead, r, p)
    requires (k, id) in p.roots || ((RootTable(k), id) in p.roles && p.roles[(RootTable(k), id)] == Changed)
    ensures (RootTable(k), id) in p.rows && p.rows[(RootTable(k), id)].ended
    ensures Has(p, ProjectedRoot(k), id, Recompute)
  {
    if (RootTable(k), id) in p.roles && p.roles[(RootTable(k), id)] == Changed {
      assert ChangedRowPasses(p, (RootTable(k), id));
    }
    assert RootPasses(p, k, id, p.roots[(k, id)]);
  }

  /** A changed child of a live pack belongs to a root that is stored and closed, if it belongs to one. */
  lemma LiveChildrenHaveClosedRoots(sameHead: bool, r: Receipt, p: Pack, k: Kind, key: (Table, int))
    requires VerifyLivePack(sameHead, r, p)
    requires IsChanged(p, key) && key.0 == ChildTable(k) && key in p.rows && p.rows[key].owner.Some?
    ensures var root := (RootTable(k), p.rows[key].owner.value); root in p.rows && p.rows[root].ended
  {
    assert ChangedChildPasses(p, DriveRoot, key) && ChangedChildPasses(p, ChargeRoot, key);
    LiveRootsAreClosed(sameHead, r, p, k, p.rows[key].owner.value);
  }

  // --------------------------------------------------------- deletions in scope

  /** The projected rows that the scope deletes. */
  function Deletions(p: Pack): set<(Projection, int)> {
    set target | target in p.scope && p.scope[target] == Delete
  }

  /** The tombstones of projected tables, and the projected rows they make obsolete. */
  function ProjectedTombstones(p: Pack): set<(Table, int)> {
    set key | key in p.tombstones && Projected(key.0).Some?
  }

  function Target(key: (Table, int)): (Projection, int)
    requires Projected(key.0).Some?
  {
    (Projected(key.0).value, key.1)
  }

  function Targets(keys: set<(Table, int)>): set<(Projection, int)>
    requires forall key <- keys :: Projected(key.0).Some?
  {
    set key | key in keys :: Target(key)
  }

  /** No two tables have one projection. */
  lemma {:induction false} TargetsAreAsMany(keys: set<(Table, int)>)
    requires forall key <- keys :: Projected(key.0).Some?
    ensures |Targets(keys)| == |keys|
  {
    if keys != {} {
      var key :| key in keys;
      var rest := keys - {key};
      TargetsAreAsMany(rest);
      assert Target(key) !in Targets(rest);
      assert Targets(keys) == Targets(rest) + {Target(key)};
    }
  }

  lemma GoneAreTargets(p: Pack, projection: Projection, id: int)
    ensures Gone(p, projection, id) <==> (projection, id) in Targets(ProjectedTombstones(p))
  {
    if Gone(p, projection, id) {
      var key :| key in p.tombstones && key.1 == id && Projected(key.0) == Some(projection);
      assert key in ProjectedTombstones(p) && Target(key) == (projection, id);
    }
  }

  lemma SameSize<T>(a: set<T>, b: set<T>)
    requires a <= b
    ensures |a| == |b| <==> a == b
  {
    var more := b - a;
    assert b == a + more && |a + more| == |a| + |more|;
  }

  /**
    * Admission bounds the deletions in scope from below only. Every deletion comes from a tombstone
    * exactly when the scope has as many deletions as there are tombstones of projected tables.
    */
  lemma DeletionsAreTombstonesExactly(r: Receipt, p: Pack)
    requires VerifyPack(r, p)
    ensures (forall projection, id :: Has(p, projection, id, Delete) ==> Gone(p, projection, id))
       <==> |Deletions(p)| == |ProjectedTombstones(p)|
  {
    var gone := Targets(ProjectedTombstones(p));
    TargetsAreAsMany(ProjectedTombstones(p));
    forall target | target in gone ensures target in Deletions(p) {
      GoneAreTargets(p, target.0, target.1);
      GoneIsDeleted(r, p, target.0, target.1);
    }
    SameSize(gone, Deletions(p));
    if |Deletions(p)| == |gone| {
      forall projection, id | Has(p, projection, id, Delete) ensures Gone(p, projection, id) {
        GoneAreTargets(p, projection, id);
        assert (projection, id) in Deletions(p);
      }
    }
    if forall projection, id :: Has(p, projection, id, Delete) ==> Gone(p, projection, id) {
      forall target | target in Deletions(p) ensures target in gone {
        assert Has(p, target.0, target.1, Delete);
        GoneAreTargets(p, target.0, target.1);
      }
    }
  }

  /** A deletion without a tombstone is admitted: a changed car beside a car that was never there. */
  lemma DeletionsMayExceedTombstones()
    ensures exists r, p :: VerifyPack(r, p) && |p.rows| == 1 && Has(p, PCars, 5, Delete) && !Gone(p, PCars, 5)
  {
    var car := (Cars, 1);
    var p := Pack(map[car := Row(None, false)], map[car := Changed], {},
                  map[(PCars, 1) := Recompute, (PCars, 5) := Delete], map[]);
    assert VerifyPack(Receipt(1, 2, 0, true), p) && |p.rows| == 1;
    assert Has(p, PCars, 5, Delete) && !Gone(p, PCars, 5);
  }
}
