/** The first hundred bytes of a SQLite image (protocol/conformance/hub_sync.py). */
module DatabaseHeader {
  import opened Bytes
  import opened BigEndian
  import SqlitePage

  const SIZE := 100

  /** "SQLite format 3" and a zero byte. */
  const MAGIC: ByteString := [83, 81, 76, 105, 116, 101, 32, 102, 111, 114, 109, 97, 116, 32, 51, 0]

  /** File format versions, reserved space and payload fractions. */
  const FORMAT: ByteString := [1, 1, 0, 64, 32, 32]

  /** The numbers that a profile fixes. */
  datatype Contract = Contract(changeCounter: nat, userVersion: nat, applicationId: nat, writerVersions: set<nat>)
  {
    predicate Sound() {
      && changeCounter < Pow256(4) && userVersion < Pow256(4) && applicationId < Pow256(4)
      && forall w <- writerVersions :: w < Pow256(4)
    }
  }

  // -------------------------------------------------- the header part by part

  /** Name of the format, page size, format versions and change counter. */
  function Front(contract: Contract): ByteString {
    Ascii("SQLite format 3") + [0]
    + (PutBig(4096, 2) + ([1, 1, 0, 64, 32, 32] + PutBig(contract.changeCounter, 4)))
  }

  /** Page count, an empty freelist, schema cookie and format, and two fields that are not used. */
  function Counts(pages: nat): ByteString {
    PutBig(pages, 4) + (Zeros(8) + (PutBig(4, 4) + (PutBig(4, 4) + Zeros(8))))
  }

  /** Text encoding, versions and application. */
  function Versions(contract: Contract): ByteString {
    PutBig(1, 4) + (PutBig(contract.userVersion, 4) + (Zeros(4) + PutBig(contract.applicationId, 4)))
  }

  /** Reserved space, the change counter again and the version of the writer. */
  function Tail(contract: Contract, writer: nat): ByteString {
    Zeros(20) + (PutBig(contract.changeCounter, 4) + PutBig(writer, 4))
  }

  /** A header as it is written. */
  function DatabaseHeaderOf(pages: nat, contract: Contract, writer: nat): ByteString {
    Front(contract) + (Counts(pages) + (Versions(contract) + Tail(contract, writer)))
  }

  predicate FrontPasses(raw: ByteString, contract: Contract)
    requires |raw| >= SIZE
  {
    raw[..16] == MAGIC && Big(raw[16..18]) == SqlitePage.PAGE && raw[18..24] == FORMAT
  }

  predicate CountsPass(raw: ByteString, pages: nat)
    requires |raw| >= SIZE
  {
    && Big(raw[28..32]) == pages && raw[32..40] == Zeros(8)
    && Big(raw[40..44]) == 4 && Big(raw[44..48]) == 4 && raw[48..56] == Zeros(8)
  }

  predicate VersionsPass(raw: ByteString, contract: Contract)
    requires |raw| >= SIZE
  {
    && Big(raw[56..60]) == 1 && Big(raw[60..64]) == contract.userVersion
    && raw[64..68] == Zeros(4) && Big(raw[68..72]) == contract.applicationId
  }

  predicate TailPasses(raw: ByteString, contract: Contract)
    requires |raw| >= SIZE
  {
    && Big(raw[24..28]) == contract.changeCounter && raw[72..92] == Zeros(20) && raw[24..28] == raw[92..96]
    && Big(raw[96..100]) in contract.writerVersions
  }

  /** The tests of the header, in order. */
  predicate Passes(raw: ByteString, pages: nat, contract: Contract)
    requires |raw| >= SIZE
  {
    && FrontPasses(raw, contract) && CountsPass(raw, pages)
    && VersionsPass(raw, contract) && TailPasses(raw, contract)
  }

  // --------------------------------------------------- what is read was written

  /** A stretch is two parts exactly when each is in its place. */
  lemma Cut(raw: ByteString, a: nat, b: nat, c: nat, first: ByteString, rest: ByteString)
    requires a + |first| == b && b + |rest| == c <= |raw|
    ensures raw[a..c] == first + rest <==> raw[a..b] == first && raw[b..c] == rest
  {
    assert raw[a..c] == raw[a..b] + raw[b..c];
    assert (first + rest)[..b - a] == first && (first + rest)[b - a..] == rest;
    assert raw[a..c][..b - a] == raw[a..b] && raw[a..c][b - a..] == raw[b..c];
  }

  lemma NumberIs(bytes: ByteString, n: nat, v: nat)
    requires |bytes| == n && v < Pow256(n)
    ensures Big(bytes) == v <==> bytes == PutBig(v, n)
    ensures |PutBig(v, n)| == n
  {
    BigReadsAll(bytes);
    PutBigIsExact(v, n);
  }

  lemma FrontIs(raw: ByteString, contract: Contract)
    requires |raw| >= SIZE && contract.Sound()
    ensures |Front(contract)| == 28
    ensures raw[..28] == Front(contract) <==> FrontPasses(raw, contract) && Big(raw[24..28]) == contract.changeCounter
  {
    NumberIs(raw[16..18], 2, SqlitePage.PAGE);
    NumberIs(raw[24..28], 4, contract.changeCounter);
    var size, counter := PutBig(SqlitePage.PAGE, 2), PutBig(contract.changeCounter, 4);
    Cut(raw, 18, 24, 28, FORMAT, counter);
    Cut(raw, 16, 18, 28, size, FORMAT + counter);
    Cut(raw, 0, 16, 28, MAGIC, size + (FORMAT + counter));
    assert Ascii("SQLite format 3") + [0] == MAGIC;
  }

  lemma CountsAre(raw: ByteString, pages: nat)
    requires |raw| >= SIZE && pages < Pow256(4)
    ensures |Counts(pages)| == 28 && (raw[28..56] == Counts(pages) <==> CountsPass(raw, pages))
  {
    NumberIs(raw[28..32], 4, pages);
    NumberIs(raw[40..44], 4, 4);
    NumberIs(raw[44..48], 4, 4);
    var count, four := PutBig(pages, 4), PutBig(4, 4);
    Cut(raw, 44, 48, 56, four, Zeros(8));
    Cut(raw, 40, 44, 56, four, four + Zeros(8));
    Cut(raw, 32, 40, 56, Zeros(8), four + (four + Zeros(8)));
    Cut(raw, 28, 32, 56, count, Zeros(8) + (four + (four + Zeros(8))));
  }

  lemma VersionsAre(raw: ByteString, contract: Contract)
    requires |raw| >= SIZE && contract.Sound()
    ensures |Versions(contract)| == 16 && (raw[56..72] == Versions(contract) <==> VersionsPass(raw, contract))
  {
    NumberIs(raw[56..60], 4, 1);
    NumberIs(raw[60..64], 4, contract.userVersion);
    NumberIs(raw[68..72], 4, contract.applicationId);
    var user, application := PutBig(contract.userVersion, 4), PutBig(contract.applicationId, 4);
    Cut(raw, 64, 68, 72, Zeros(4), application);
    Cut(raw, 60, 64, 72, user, Zeros(4) + application);
    Cut(raw, 56, 60, 72, PutBig(1, 4), user + (Zeros(4) + application));
  }

  lemma TailIs(raw: ByteString, contract: Contract, writer: nat)
    requires |raw| >= SIZE && contract.Sound() && writer in contract.writerVersions
    ensures |Tail(contract, writer)| == 28
    ensures raw[72..100] == Tail(contract, writer)
       <==> raw[72..92] == Zeros(20) && Big(raw[92..96]) == contract.changeCounter && Big(raw[96..100]) == writer
  {
    NumberIs(raw[92..96], 4, contract.changeCounter);
    NumberIs(raw[96..100], 4, writer);
    var counter, version := PutBig(contract.changeCounter, 4), PutBig(writer, 4);
    Cut(raw, 92, 96, 100, counter, version);
    Cut(raw, 72, 92, 100, Zeros(20), counter + version);
  }

  lemma CounterTwice(raw: ByteString, contract: Contract)
    requires |raw| >= SIZE && contract.Sound() && Big(raw[24..28]) == contract.changeCounter
    ensures Big(raw[92..96]) == contract.changeCounter <==> raw[24..28] == raw[92..96]
  {
    NumberIs(raw[24..28], 4, contract.changeCounter);
    NumberIs(raw[92..96], 4, contract.changeCounter);
  }

  lemma WrittenExactly(raw: ByteString, pages: nat, contract: Contract, writer: nat)
    requires |raw| >= SIZE && contract.Sound() && pages < Pow256(4) && writer in contract.writerVersions
    ensures raw[..SIZE] == DatabaseHeaderOf(pages, contract, writer)
       <==> Passes(raw, pages, contract) && Big(raw[96..100]) == writer
  {
    FrontIs(raw, contract);
    CountsAre(raw, pages);
    VersionsAre(raw, contract);
    TailIs(raw, contract, writer);
    Cut(raw, 56, 72, 100, Versions(contract), Tail(contract, writer));
    Cut(raw, 28, 56, 100, Counts(pages), Versions(contract) + Tail(contract, writer));
    Cut(raw, 0, 28, 100, Front(contract), Counts(pages) + (Versions(contract) + Tail(contract, writer)));
    if Big(raw[24..28]) == contract.changeCounter {
      CounterTwice(raw, contract);
    }
  }

  /**
    * The header passes exactly when its hundred bytes are those that a supported writer writes for
    * this number of pages: nothing in it is free but the version of the writer.
    */
  lemma PassesExactly(raw: ByteString, pages: nat, contract: Contract)
    requires |raw| >= SIZE && contract.Sound() && pages < Pow256(4)
    ensures Passes(raw, pages, contract)
       <==> exists writer ::
              writer in contract.writerVersions && raw[..SIZE] == DatabaseHeaderOf(pages, contract, writer)
  {
    forall writer | writer in contract.writerVersions
      ensures raw[..SIZE] == DatabaseHeaderOf(pages, contract, writer)
         <==> Passes(raw, pages, contract) && Big(raw[96..100]) == writer
    {
      WrittenExactly(raw, pages, contract, writer);
    }
  }
}
