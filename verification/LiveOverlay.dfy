/**
  * The live-overlay protocol between a client and a Hub (protocol/conformance/hub_sync_15.py): a
  * client at a head applies live steps, is told that there is nothing new, or is sent to a newer head.
  * Digests, signatures, schema and size checks are parameters.
  */
module LiveOverlay {
  import opened Outcomes

  /** A signed snapshot. */
  datatype Head = Head(receiptId: string, manifestId: string, digest: string, sequence: int)

  datatype Source = Source(vehicle: string, binding: string)

  datatype Request = Request(source: Source, base: Head, live: int)

  /** A live receipt without its signature; `content` is all that names no position. */
  datatype Receipt = Receipt(vehicle: string, source: Source, base: Head, target: Head, fromLive: int, toLive: int,
                             live: int, commitment: string, chunkIndices: seq<int>, chunkBytes: seq<int>,
                             totalBytes: int, content: string)

  datatype NoOp = NoOp(vehicle: string, receiptId: string, digest: string, sequence: int, live: int)

  datatype Manifest = Manifest(vehicle: string, manifestId: string, receiptId: string, sequence: int, version: string,
                               chunkIndices: seq<int>, chunks: string)

  datatype Hint = Hint(vehicle: string, requested: Head, requestedLive: int, replacement: Head, version: string,
                       chunks: string, retry: Request)

  /** What is left to the libraries: schema, size and signature of each message, and SHA-256 of a manifest. */
  datatype Library = Library(request: Request -> bool, receipt: Receipt -> bool, noOp: NoOp -> bool, hint: Hint -> bool,
                             manifest: Manifest -> bool, sha256: Manifest -> string)

  predicate Contiguous(indices: seq<int>) {
    forall i :: 0 <= i < |indices| ==> indices[i] == i
  }

  function Sum(bytes: seq<int>): int {
    if bytes == [] then 0 else Sum(bytes[..|bytes| - 1]) + bytes[|bytes| - 1]
  }

  predicate VerifyManifest(lib: Library, m: Manifest, vehicle: string) {
    lib.manifest(m) && m.vehicle == vehicle && Contiguous(m.chunkIndices)
  }

  predicate VerifyLiveReceipt(lib: Library, q: Request, r: Receipt, vehicle: string, commitment: Option<string>) {
    && lib.request(q) && lib.receipt(r)
    && r.vehicle == vehicle && r.source.vehicle == vehicle
    && r.source == q.source
    && r.base == q.base
    && r.target == r.base
    && r.fromLive == q.live && r.toLive == r.fromLive + 1 && r.live == r.toLive
    && (commitment.Some? ==> r.commitment == commitment.value)
    && Contiguous(r.chunkIndices) && Sum(r.chunkBytes) == r.totalBytes
  }

  predicate VerifyNoOp(lib: Library, q: Request, n: NoOp, vehicle: string) {
    && lib.request(q) && lib.noOp(n)
    && n.vehicle == vehicle
    && n.receiptId == q.base.receiptId && n.digest == q.base.digest && n.sequence == q.base.sequence
    && n.live == q.live
  }

  predicate VerifyRebase(lib: Library, q: Request, h: Hint, vehicle: string, m: Manifest) {
    && lib.request(q) && lib.hint(h) && lib.request(h.retry)
    && h.vehicle == vehicle && h.retry.source == q.source
    && h.requested == q.base && h.requestedLive == q.live
    && h.replacement.receiptId != h.requested.receiptId && h.replacement.sequence > h.requested.sequence
    && h.retry == q.(base := h.replacement, live := 0)
    && lib.sha256(m) == h.replacement.digest
    && VerifyManifest(lib, m, vehicle)
    && m.manifestId == h.replacement.manifestId && m.receiptId == h.replacement.receiptId
    && m.sequence == h.replacement.sequence && m.version == h.version && m.chunks == h.chunks
  }

  /** The identity of a live step: the exact head and the position it advances from. */
  function StepKey(r: Receipt): (string, string, int) {
    (r.base.receiptId, r.base.digest, r.fromLive)
  }

  /** A live step is signed for one changed set only. */
  predicate StepUnique(a: Receipt, b: Receipt) {
    StepKey(a) == StepKey(b) ==> a == b
  }

  // ------------------------------------------------------------------ client runs

  /** A client: the head it holds and the receipts of the live steps applied to it, in order. */
  datatype Client = Client(source: Source, head: Head, live: int, applied: seq<Receipt>, commitment: Option<string>)

  datatype Step = Live(receipt: Receipt) | Nothing(noOp: NoOp) | Rebase(hint: Hint, manifest: Manifest)

  function RequestOf(c: Client): Request {
    Request(c.source, c.head, c.live)
  }

  predicate Verified(lib: Library, c: Client, s: Step) {
    match s
    case Live(r) => VerifyLiveReceipt(lib, RequestOf(c), r, c.source.vehicle, c.commitment)
    case Nothing(n) => VerifyNoOp(lib, RequestOf(c), n, c.source.vehicle)
    case Rebase(h, m) => VerifyRebase(lib, RequestOf(c), h, c.source.vehicle, m)
  }

  /** The client after a verified step. */
  function Next(c: Client, s: Step): Client {
    match s
    case Live(r) => c.(head := r.target, live := r.live, applied := c.applied + [r])
    case Nothing(_) => c
    case Rebase(h, _) => Client(h.retry.source, h.retry.base, h.retry.live, [], None)
  }

  /** A run of steps, each verified where it is taken; None if one is not. */
  function Run(lib: Library, c: Client, steps: seq<Step>): Option<Client> {
    if steps == [] then Some(c)
    else
      var before :- Run(lib, c, steps[..|steps| - 1]);
      if Verified(lib, before, steps[|steps| - 1]) then Some(Next(before, steps[|steps| - 1])) else None
  }

  // --------------------------------------------------- what a client is told

  /** The live receipt for the next step of a client, but for its commitment, chunks and content. */
  function ReceiptFor(c: Client, r: Receipt): Receipt {
    Receipt(c.source.vehicle, c.source, c.head, c.head, c.live, c.live + 1, c.live + 1, r.commitment, r.chunkIndices,
            r.chunkBytes, Sum(r.chunkBytes), r.content)
  }

  /** The answer that there is nothing new at the head and live position of a client. */
  function NoOpFor(c: Client): NoOp {
    NoOp(c.source.vehicle, c.head.receiptId, c.head.digest, c.head.sequence, c.live)
  }

  /** The hint that sends a client from its head and live position to another head, to ask there from the start. */
  function HintFor(c: Client, h: Hint): Hint {
    Hint(c.source.vehicle, c.head, c.live, h.replacement, h.version, h.chunks, Request(c.source, h.replacement, 0))
  }

  /** A head is backed by a signed manifest of its digest, ids and sequence for a vehicle. */
  predicate Backs(lib: Library, m: Manifest, head: Head, vehicle: string) {
    && lib.manifest(m) && lib.sha256(m) == head.digest
    && m.vehicle == vehicle && m.manifestId == head.manifestId && m.receiptId == head.receiptId
    && m.sequence == head.sequence && forall i :: 0 <= i < |m.chunkIndices| ==> m.chunkIndices[i] == i
  }

  predicate Newer(g: Head, h: Head) {
    g.receiptId != h.receiptId && h.sequence < g.sequence
  }

  /** A step is verified exactly when it is addressed to the client where it is, and backed. */
  lemma VerifiedExactly(lib: Library, c: Client, s: Step)
    ensures Verified(lib, c, s)
       <==> && lib.request(RequestOf(c))
            && match s
               case Live(r) =>
                 && lib.receipt(r) && r == ReceiptFor(c, r)
                 && (forall i :: 0 <= i < |r.chunkIndices| ==> r.chunkIndices[i] == i)
                 && (c.commitment.Some? ==> c.commitment == Some(r.commitment))
               case Nothing(n) => lib.noOp(n) && n == NoOpFor(c)
               case Rebase(h, m) =>
                 && lib.hint(h) && h == HintFor(c, h) && lib.request(h.retry)
                 && Newer(h.replacement, c.head)
                 && Backs(lib, m, h.replacement, c.source.vehicle) && m.version == h.version && m.chunks == h.chunks
  {
  }

  // ---------------------------------------------------------------------- positions

  /** Positions in order: an older head, or the same sequence and fewer live steps. */
  predicate Below(a: Client, b: Client) {
    a.head.sequence < b.head.sequence || (a.head.sequence == b.head.sequence && a.live < b.live)
  }

  predicate SamePosition(a: Client, b: Client) {
    a.head.sequence == b.head.sequence && a.live == b.live
  }

  /** Positions are totally ordered. */
  lemma PositionsAreOrdered(a: Client, b: Client, c: Client)
    ensures !Below(a, a) && (Below(a, b) && Below(b, c) ==> Below(a, c))
    ensures Below(a, b) || Below(b, a) || SamePosition(a, b)
    ensures Below(a, b) ==> !Below(b, a) && !SamePosition(a, b)
    ensures SamePosition(a, b) ==> a.head.sequence == b.head.sequence && a.live == b.live
  {
  }

  /** A no-op keeps the client; every other step moves it strictly forward. */
  lemma StepAdvances(lib: Library, c: Client, s: Step)
    requires Verified(lib, c, s)
    ensures if s.Nothing? then Next(c, s) == c else Below(c, Next(c, s))
    ensures Next(c, s).source == c.source
    ensures s.Rebase? ==> c.head.sequence < Next(c, s).head.sequence && RequestOf(Next(c, s)) == s.hint.retry
  {
  }

  lemma {:induction false} RunSplits(lib: Library, c: Client, a: seq<Step>, b: seq<Step>)
    ensures Run(lib, c, a + b) == match Run(lib, c, a)
                                  case None => None
                                  case Some(d) => Run(lib, d, b)
    decreases |b|
  {
    if b == [] {
      assert a + b == a;
    } else {
      RunSplits(lib, c, a, b[..|b| - 1]);
      assert (a + b)[..|a + b| - 1] == a + b[..|b| - 1];
    }
  }

  predicate OnlyNoOps(steps: seq<Step>) {
    forall i :: 0 <= i < |steps| ==> steps[i].Nothing?
  }

  /** A run of no-ops keeps the client; every other run moves its position forward. */
  lemma {:induction false} RunAdvances(lib: Library, c: Client, steps: seq<Step>)
    requires Run(lib, c, steps).Some?
    ensures var d := Run(lib, c, steps).value;
            && (if OnlyNoOps(steps) then d == c else Below(c, d))
            && d.source == c.source
  {
    if steps != [] {
      var init, last := steps[..|steps| - 1], steps[|steps| - 1];
      RunAdvances(lib, c, init);
      StepAdvances(lib, Run(lib, c, init).value, last);
      assert OnlyNoOps(steps) <==> OnlyNoOps(init) && last.Nothing?;
    }
  }

  /** Between any two moments of a run the position has not gone back. */
  lemma PositionsNeverDecrease(lib: Library, c: Client, steps: seq<Step>, i: nat, j: nat)
    requires i <= j <= |steps| && Run(lib, c, steps[..j]).Some?
    ensures Run(lib, c, steps[..i]).Some?
    ensures var a, b := Run(lib, c, steps[..i]).value, Run(lib, c, steps[..j]).value;
            if OnlyNoOps(steps[i..j]) then a == b else Below(a, b)
  {
    assert steps[..j] == steps[..i] + steps[i..j];
    RunSplits(lib, c, steps[..i], steps[i..j]);
    RunAdvances(lib, Run(lib, c, steps[..i]).value, steps[i..j]);
  }

  // ---------------------------------------------------- what the steps of a run say

  predicate Rebases(steps: seq<Step>) {
    exists i :: 0 <= i < |steps| && steps[i].Rebase?
  }

  /** The head that the last rebase names, or the head at the start. */
  function LastHead(start: Head, steps: seq<Step>): Head {
    if steps == [] then start
    else
      var last := steps[|steps| - 1];
      if last.Rebase? then last.hint.replacement else LastHead(start, steps[..|steps| - 1])
  }

  /** The receipts of the live steps after the last rebase. */
  function LastReceipts(steps: seq<Step>): seq<Receipt> {
    if steps == [] then []
    else
      match steps[|steps| - 1]
      case Live(r) => LastReceipts(steps[..|steps| - 1]) + [r]
      case Nothing(_) => LastReceipts(steps[..|steps| - 1])
      case Rebase(_, _) => []
  }

  function CountRebases(steps: seq<Step>): nat {
    if steps == [] then 0
    else CountRebases(steps[..|steps| - 1]) + if steps[|steps| - 1].Rebase? then 1 else 0
  }

  /** The live position from which the receipts after the last rebase count. */
  function LiveBase(start: Client, steps: seq<Step>): int {
    if Rebases(steps) then 0 else start.live
  }

  lemma RebasesSnoc(steps: seq<Step>, s: Step)
    ensures Rebases(steps + [s]) <==> Rebases(steps) || s.Rebase?
  {
    var all := steps + [s];
    if Rebases(steps) {
      var i :| 0 <= i < |steps| && steps[i].Rebase?;
      assert all[i].Rebase?;
    }
    if s.Rebase? {
      assert all[|steps|].Rebase?;
    }
  }

  /** A receipt stands at its place in the receipts of a head. */
  predicate InPlace(r: Receipt, head: Head, fromLive: int) {
    r.base == head && r.fromLive == fromLive
  }

  ghost predicate AllInPlace(receipts: seq<Receipt>, head: Head, base: int) {
    forall i :: 0 <= i < |receipts| ==> InPlace(receipts[i], head, base + i)
  }

  /** A client is where the steps of a run from a start lead. */
  ghost predicate IsWhere(start: Client, steps: seq<Step>, c: Client) {
    var receipts := LastReceipts(steps);
    && c.head == LastHead(start.head, steps)
    && c.live == LiveBase(start, steps) + |receipts|
    && c.applied == (if Rebases(steps) then [] else start.applied) + receipts
    && AllInPlace(receipts, c.head, LiveBase(start, steps))
    && c.head.sequence >= start.head.sequence + CountRebases(steps)
    && (Rebases(steps) <==> CountRebases(steps) > 0)
    && (!Rebases(steps) ==> c.head == start.head)
  }

  lemma StepsSnoc(start: Head, steps: seq<Step>, s: Step)
    ensures LastHead(start, steps + [s]) == if s.Rebase? then s.hint.replacement else LastHead(start, steps)
    ensures LastReceipts(steps + [s]) == match s
                                         case Live(r) => LastReceipts(steps) + [r]
                                         case Nothing(_) => LastReceipts(steps)
                                         case Rebase(_, _) => []
    ensures CountRebases(steps + [s]) == CountRebases(steps) + if s.Rebase? then 1 else 0
  {
    assert (steps + [s])[..|steps|] == steps;
  }

  lemma StepLeads(lib: Library, start: Client, steps: seq<Step>, c: Client, s: Step)
    requires IsWhere(start, steps, c) && Verified(lib, c, s)
    ensures IsWhere(start, steps + [s], Next(c, s))
  {
    StepsSnoc(start.head, steps, s);
    RebasesSnoc(steps, s);
    VerifiedExactly(lib, c, s);
  }

  /**
    * Where a run ends is what its steps say: at the head of its last rebase, with the receipts of the
    * live steps since then, each at its place. Every rebase raises the sequence, so no head that was
    * left is held again.
    */
  lemma {:induction false} RunEndsWhereStepsSay(lib: Library, start: Client, steps: seq<Step>)
    requires Run(lib, start, steps).Some?
    ensures IsWhere(start, steps, Run(lib, start, steps).value)
  {
    if steps != [] {
      var init, last := steps[..|steps| - 1], steps[|steps| - 1];
      assert steps == init + [last];
      RunEndsWhereStepsSay(lib, start, init);
      StepLeads(lib, start, init, Run(lib, start, init).value, last);
    }
  }

  /** A rebase among the steps names the head, with a manifest that backs it for the vehicle. */
  ghost predicate IsBacked(lib: Library, steps: seq<Step>, head: Head, vehicle: string) {
    exists s <- steps :: s.Rebase? && s.hint.replacement == head && Backs(lib, s.manifest, head, vehicle)
  }

  /** Every head that a client holds after a rebase is backed by a manifest among the steps. */
  lemma {:induction false} HeadIsBacked(lib: Library, start: Client, steps: seq<Step>)
    requires Run(lib, start, steps).Some?
    ensures var c := Run(lib, start, steps).value;
            && c.source == start.source
            && if Rebases(steps) then IsBacked(lib, steps, c.head, start.source.vehicle) else c.head == start.head
  {
    if steps != [] {
      var init, last := steps[..|steps| - 1], steps[|steps| - 1];
      assert steps == init + [last];
      HeadIsBacked(lib, start, init);
      RebasesSnoc(init, last);
      var before := Run(lib, start, init).value;
      VerifiedExactly(lib, before, last);
      if last.Rebase? {
        assert last in steps;
      } else if Rebases(init) {
        var s :| s in init && s.Rebase? && s.hint.replacement == before.head
              && Backs(lib, s.manifest, before.head, start.source.vehicle);
        assert s in steps;
      }
    }
  }

  /** Every step of a run was addressed to the client as it was at that moment, for its source and vehicle. */
  lemma StepsAreAddressed(lib: Library, start: Client, steps: seq<Step>, i: nat)
    requires i < |steps| && Run(lib, start, steps).Some?
    ensures Run(lib, start, steps[..i]).Some? && Run(lib, start, steps[..i]).value.source == start.source
    ensures var c := Run(lib, start, steps[..i]).value;
            match steps[i]
            case Live(r) =>
              && r.source == start.source && r.vehicle == start.source.vehicle
              && r.base == c.head == r.target && r.fromLive == c.live && r.live == c.live + 1
            case Nothing(n) => n == NoOpFor(c)
            case Rebase(h, _) => h.requested == c.head && h.requestedLive == c.live && h.vehicle == start.source.vehicle
  {
    assert steps == steps[..i] + steps[i..];
    RunSplits(lib, start, steps[..i], steps[i..]);
    var c := Run(lib, start, steps[..i]).value;
    assert steps[i..] == [steps[i]] + steps[i + 1..];
    RunSplits(lib, c, [steps[i]], steps[i + 1..]);
    assert [steps[i]][..0] == [];
    assert Run(lib, c, []) == Some(c);
    RunAdvances(lib, start, steps[..i]);
    VerifiedExactly(lib, c, steps[i]);
  }

  // ---------------------------------------------------------------------- agreement

  /** The receipts of the live steps of a run. */
  predicate Took(steps: seq<Step>, r: Receipt) {
    Live(r) in steps
  }

  lemma {:induction false} LastReceiptsWereTaken(steps: seq<Step>, i: nat)
    requires i < |LastReceipts(steps)|
    ensures Took(steps, LastReceipts(steps)[i])
  {
    var init, last := steps[..|steps| - 1], steps[|steps| - 1];
    assert steps == init + [last];
    if i < |LastReceipts(init)| {
      LastReceiptsWereTaken(init, i);
    }
  }

  /** Every live step that a client applies to a head whose commitment it holds carries that commitment. */
  lemma {:induction false} CommitmentIsKept(lib: Library, start: Client, steps: seq<Step>)
    requires start.commitment.Some? && Run(lib, start, steps).Some? && !Rebases(steps)
    ensures Run(lib, start, steps).value.commitment == start.commitment
    ensures forall r <- LastReceipts(steps) :: r.commitment == start.commitment.value
  {
    if steps != [] {
      var init, last := steps[..|steps| - 1], steps[|steps| - 1];
      assert steps == init + [last];
      RebasesSnoc(init, last);
      CommitmentIsKept(lib, start, init);
    }
  }

  /** The receipts of both runs are pairwise step-unique. */
  ghost predicate PairwiseUnique(a: seq<Step>, b: seq<Step>) {
    forall r, s :: Took(a, r) && Took(b, s) ==> StepUnique(r, s)
  }

  lemma ReceiptsAgree(a: seq<Step>, b: seq<Step>, head: Head, base: int)
    requires PairwiseUnique(a, b) && |LastReceipts(a)| == |LastReceipts(b)|
    requires AllInPlace(LastReceipts(a), head, base) && AllInPlace(LastReceipts(b), head, base)
    ensures LastReceipts(a) == LastReceipts(b)
  {
    var p, q := LastReceipts(a), LastReceipts(b);
    forall i | 0 <= i < |p| ensures p[i] == q[i] {
      LastReceiptsWereTaken(a, i);
      LastReceiptsWereTaken(b, i);
      assert InPlace(p[i], head, base + i) && InPlace(q[i], head, base + i);
      assert StepUnique(p[i], q[i]);
    }
  }

  lemma ReceiptsDiffer(p: seq<Receipt>, q: seq<Receipt>, g: Head, h: Head)
    requires AllInPlace(p, g, 0) && AllInPlace(q, h, 0) && g != h && |p| > 0
    ensures p != q
  {
    assert InPlace(p[0], g, 0);
    if |q| > 0 {
      assert InPlace(q[0], h, 0);
    }
  }

  /**
    * Two clients from one head and live position, whose sequence and live position agree again, have
    * applied the same receipts since their last rebases exactly when these name the same head, or the
    * live position is zero.
    */
  lemma SamePositionSameContent(lib: Library, x: Client, y: Client, a: seq<Step>, b: seq<Step>)
    requires x.head == y.head && x.live == y.live && PairwiseUnique(a, b)
    requires Run(lib, x, a).Some? && Run(lib, y, b).Some?
    ensures var c, d := Run(lib, x, a).value, Run(lib, y, b).value;
            SamePosition(c, d) ==>
              && (LastReceipts(a) == LastReceipts(b)
                  <==> LastHead(x.head, a) == LastHead(y.head, b) || c.live == 0)
              && (LastHead(x.head, a) == LastHead(y.head, b) && x.applied == y.applied ==> c.applied == d.applied)
  {
    var c, d := Run(lib, x, a).value, Run(lib, y, b).value;
    RunEndsWhereStepsSay(lib, x, a);
    RunEndsWhereStepsSay(lib, y, b);
    if SamePosition(c, d) {
      if c.head == d.head {
        ReceiptsAgree(a, b, c.head, LiveBase(x, a));
      } else if LastReceipts(a) != [] {
        ReceiptsDiffer(LastReceipts(a), LastReceipts(b), c.head, d.head);
      }
    }
  }

  /** No two rebases of the two runs name different heads of one sequence. */
  ghost predicate OneHeadPerSequence(a: seq<Step>, b: seq<Step>) {
    forall s <- a, t <- b :: s.Rebase? && t.Rebase? ==> SameHead(s.hint.replacement, t.hint.replacement)
  }

  predicate SameHead(g: Head, h: Head) {
    g.sequence == h.sequence ==> g == h
  }

  lemma {:induction false} LastHeadIsNamed(start: Head, steps: seq<Step>)
    requires Rebases(steps)
    ensures exists s <- steps :: s.Rebase? && s.hint.replacement == LastHead(start, steps)
  {
    var init, last := steps[..|steps| - 1], steps[|steps| - 1];
    assert steps == init + [last];
    RebasesSnoc(init, last);
    if last.Rebase? {
      assert last in steps;
    } else {
      LastHeadIsNamed(start, init);
      var s :| s in init && s.Rebase? && s.hint.replacement == LastHead(start, init);
      assert s in steps;
    }
  }

  /** When a sequence has one head, equal positions mean equal heads and equal receipts. */
  lemma PositionNamesContent(lib: Library, x: Client, y: Client, a: seq<Step>, b: seq<Step>)
    requires x.head == y.head && x.live == y.live && PairwiseUnique(a, b) && OneHeadPerSequence(a, b)
    requires Run(lib, x, a).Some? && Run(lib, y, b).Some?
    ensures var c, d := Run(lib, x, a).value, Run(lib, y, b).value;
            SamePosition(c, d) ==>
              && c.head == d.head && LastReceipts(a) == LastReceipts(b)
              && (x.applied == y.applied ==> c.applied == d.applied)
  {
    var c, d := Run(lib, x, a).value, Run(lib, y, b).value;
    RunEndsWhereStepsSay(lib, x, a);
    RunEndsWhereStepsSay(lib, y, b);
    SamePositionSameContent(lib, x, y, a, b);
    if SamePosition(c, d) && Rebases(a) {
      LastHeadIsNamed(x.head, a);
      LastHeadIsNamed(y.head, b);
      var s :| s in a && s.Rebase? && s.hint.replacement == c.head;
      var t :| t in b && t.Rebase? && t.hint.replacement == d.head;
      assert SameHead(s.hint.replacement, t.hint.replacement);
    }
  }

  // ------------------------------------------------- positions without heads

  const TRUSTING := Library(_ => true, _ => true, _ => true, _ => true, _ => true, (m: Manifest) => m.manifestId)

  function SentTo(c: Client, head: Head): Step {
    Rebase(Hint(c.source.vehicle, c.head, c.live, head, "", "", Request(c.source, head, 0)),
           Manifest(c.source.vehicle, head.manifestId, head.receiptId, head.sequence, "", [], ""))
  }

  function FirstStep(c: Client, head: Head): Receipt {
    Receipt(c.source.vehicle, c.source, head, head, 0, 1, 1, "", [], [], 0, head.digest)
  }

  /** A client is sent to a newer head and applies one live step there. */
  lemma SentToRuns(c: Client, head: Head) returns (steps: seq<Step>)
    requires c.head.receiptId != head.receiptId && c.head.sequence < head.sequence && head.digest == head.manifestId
    ensures Run(TRUSTING, c, steps) == Some(Client(c.source, head, 1, [FirstStep(c, head)], None))
    ensures forall r :: Took(steps, r) ==> r == FirstStep(c, head)
    ensures LastHead(c.head, steps) == head && LastReceipts(steps) == [FirstStep(c, head)]
  {
    var rebase, live := SentTo(c, head), Live(FirstStep(c, head));
    var one := [rebase];
    steps := one + [live];
    assert one[..0] == [] && steps[..1] == one;
    assert Verified(TRUSTING, c, rebase);
    var moved := Client(c.source, head, 0, [], None);
    assert Run(TRUSTING, c, one) == Some(moved);
    assert Verified(TRUSTING, moved, live);
    assert moved.applied + [live.receipt] == [live.receipt];
    RunSplits(TRUSTING, c, one, [live]);
    assert [live][..0] == [];
  }

  /** Two runs from one client end at one position with different heads and different receipts. */
  ghost predicate Diverge(lib: Library, start: Client, a: seq<Step>, b: seq<Step>) {
    && PairwiseUnique(a, b) && Run(lib, start, a).Some? && Run(lib, start, b).Some?
    && SamePosition(Run(lib, start, a).value, Run(lib, start, b).value)
    && Run(lib, start, a).value.head != Run(lib, start, b).value.head
    && Run(lib, start, a).value.applied != Run(lib, start, b).value.applied
  }

  /** The sequence and live position alone do not name the head: a Hub may send clients to different ones. */
  lemma HeadsMayDiffer()
    ensures exists lib, start, a, b :: Diverge(lib, start, a, b)
  {
    var start := Client(Source("v", ""), Head("0", "0", "0", 0), 0, [], None);
    var g, h := Head("1", "1", "1", 1), Head("2", "2", "2", 1);
    var a := SentToRuns(start, g);
    var b := SentToRuns(start, h);
    assert FirstStep(start, g).base.receiptId != FirstStep(start, h).base.receiptId;
    assert Diverge(TRUSTING, start, a, b);
  }
}
