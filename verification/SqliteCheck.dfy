/**
  * The check of a SQLite image (protocol/conformance/hub_sync.py): size, database header, the walk
  * over all pages, and the rows on them against the rows that the SQLite library returns.
  */
module SqliteCheck {
  import opened Outcomes
  import opened Bytes
  import opened Record
  import opened DatabaseHeader
  import opened SqlitePage
  import opened PageForest
  import opened WalkState
  import opened SqliteWalk
  import opened SqliteWalker
  import SqliteImage

  // ---------------------------------------------------------------------- rows

  /** The rows that the library returns. Values are compared by keys: equal keys are equal values. */
  datatype Logical<K(==)> = Logical(schema: multiset<(int, seq<K>)>, rows: map<string, multiset<seq<K>>>)

  function Keys<K>(values: seq<Value>, key: Value -> K): seq<K> {
    seq(|values|, (i: nat) requires i < |values| => key(values[i]))
  }

  /** The rows of the schema table, with their row numbers. */
  function SchemaKeys<K(==)>(rows: seq<Row>, key: Value -> K): multiset<(int, seq<K>)> {
    if rows == [] then multiset{}
    else
      var last := rows[|rows| - 1];
      SchemaKeys(rows[..|rows| - 1], key)
      + if last.table.SchemaTable? then multiset{(last.rowid, Keys(last.values, key))} else multiset{}
  }

  /** The rows of a table. */
  function TableKeys<K(==)>(rows: seq<Row>, name: string, key: Value -> K): multiset<seq<K>> {
    if rows == [] then multiset{}
    else
      var last := rows[|rows| - 1];
      TableKeys(rows[..|rows| - 1], name, key)
      + if last.table.RowTable? && last.table.name == name then multiset{Keys(last.values, key)} else multiset{}
  }

  predicate IsSchemaRow<K(==)>(r: Row, key: Value -> K, rowid: int, k: seq<K>) {
    r.table.SchemaTable? && r.rowid == rowid && Keys(r.values, key) == k
  }

  predicate IsTableRow<K(==)>(r: Row, name: string, key: Value -> K, k: seq<K>) {
    r.table.RowTable? && r.table.name == name && Keys(r.values, key) == k
  }

  function Count(hit: Row -> bool, rows: seq<Row>): nat {
    |set i | 0 <= i < |rows| && hit(rows[i])|
  }

  lemma CountSnoc(hit: Row -> bool, rows: seq<Row>, r: Row)
    ensures Count(hit, rows + [r]) == Count(hit, rows) + if hit(r) then 1 else 0
  {
    var all := rows + [r];
    var before := set i | 0 <= i < |rows| && hit(rows[i]);
    assert all[|rows|] == r && forall i :: 0 <= i < |rows| ==> all[i] == rows[i];
    assert (set i | 0 <= i < |all| && hit(all[i])) == before + if hit(r) then {|rows|} else {};
  }

  /** Rows are counted once each. */
  lemma {:induction false} RowsAreCounted<K>(rows: seq<Row>, key: Value -> K, rowid: int, name: string, k: seq<K>)
    ensures SchemaKeys(rows, key)[(rowid, k)] == Count(r => IsSchemaRow(r, key, rowid, k), rows)
    ensures TableKeys(rows, name, key)[k] == Count(r => IsTableRow(r, name, key, k), rows)
  {
    if rows != [] {
      var init, last := rows[..|rows| - 1], rows[|rows| - 1];
      assert rows == init + [last];
      RowsAreCounted(init, key, rowid, name, k);
      CountSnoc(r => IsSchemaRow(r, key, rowid, k), init, last);
      CountSnoc(r => IsTableRow(r, name, key, k), init, last);
    }
  }

  predicate SameRows<K(==)>(rows: seq<Row>, logical: Logical<K>, key: Value -> K) {
    && SchemaKeys(rows, key) == logical.schema
    && forall name <- logical.rows :: TableKeys(rows, name, key) == logical.rows[name]
  }

  // ----------------------------------------------------------------- the check

  predicate SizePasses(raw: ByteString) {
    1 <= PageCount(raw) <= MAX_PAGES && |raw| == PageCount(raw) * PAGE
  }

  ghost predicate Accepted<K>(raw: ByteString, contract: Contract, tables: seq<Root>, logical: Logical<K>,
                              key: Value -> K)
  {
    && SizePasses(raw) && Passes(raw, PageCount(raw), contract)
    && ImageWalk(raw, tables).Some? && SameRows(ImageWalk(raw, tables).value.rows, logical, key)
  }

  /** Whether the bytes of an image are canonical. */
  method CheckImage<K(==)>(raw: ByteString, contract: Contract, tables: seq<Root>, logical: Logical<K>,
                           key: Value -> K)
    returns (ok: bool)
    ensures ok <==> Accepted(raw, contract, tables, logical, key)
  {
    if !SizePasses(raw) || !Passes(raw, PageCount(raw), contract) {
      return false;
    }
    var walker := new Walker(raw);
    ok := walker.Run(RootEntries(tables), Finder(raw));
    return ok && SameRows(walker.rows, logical, key);
  }

  lemma SizeExactly(raw: ByteString)
    ensures SizePasses(raw) <==> |raw| % 4096 == 0 && 4096 <= |raw| <= 16384 * 4096
  {
  }

  /**
    * An image is accepted exactly when it begins with the header of a supported writer, its pages are
    * a forest from the root pages, and the rows on them are the rows that the library returns.
    */
  lemma AcceptsExactly<K>(raw: ByteString, contract: Contract, tables: seq<Root>, logical: Logical<K>, key: Value -> K)
    requires contract.Sound()
    ensures Accepted(raw, contract, tables, logical, key)
       <==> && |raw| % 4096 == 0 && 4096 <= |raw| <= 16384 * 4096
            && (exists writer :: writer in contract.writerVersions
                              && raw[..SIZE] == DatabaseHeaderOf(PageCount(raw), contract, writer))
            && HasForest(Finder(raw), PageCount(raw), RootEntries(tables))
            && (ImageWalk(raw, tables).Some? ==> SameRows(ImageWalk(raw, tables).value.rows, logical, key))
  {
    SqliteImage.AcceptsExactlyForests(raw, tables);
    SizeExactly(raw);
    if SizePasses(raw) {
      PassesExactly(raw, PageCount(raw), contract);
    }
  }

  // ------------------------------------------------------------- no hidden rows

  /** What a cell leads to has rows of its table only. */
  lemma CellKeepsTable(raw: ByteString, page: Page, kind: nat, table: Table, cell: Cell)
    requires FoundInCell(raw, page, kind, table, cell).Some?
    ensures forall r <- FoundInCell(raw, page, kind, table, cell).value.rows :: r.table == table
  {
    var chain := ChainOf(raw, cell.overflowPage, cell.spill).value;
    RowsAre(kind, table, cell.rowid, page[cell.body..cell.body + cell.local] + chain.data);
  }

  lemma {:induction false} CellsKeepTable(raw: ByteString, page: Page, kind: nat, table: Table,
                                          lead: Cell -> Option<Found>, cells: seq<Cell>)
    requires IsLeader(lead, raw, page, kind, table) && FoundOf(lead, cells).Some?
    ensures forall r <- FoundOf(lead, cells).value.rows :: r.table == table
  {
    if cells != [] {
      var last := cells[|cells| - 1];
      CellsKeepTable(raw, page, kind, table, lead, cells[..|cells| - 1]);
      assert lead(last) == FoundInCell(raw, page, kind, table, last);
      CellKeepsTable(raw, page, kind, table, last);
    }
  }

  lemma FinderKeepsTable(raw: ByteString)
    ensures RowsKeepTable(Finder(raw))
  {
    forall e, r | Finder(raw)(e).Some? && r in Finder(raw)(e).value.rows ensures r.table == e.table {
      var leadsTo := PageFound(raw, e);
      var header, frees, cells, found := SqliteImage.LayoutOf(raw, e);
      var page := PageAt(raw, e.page);
      CellsKeepTable(raw, page, header.kind, e.table, Leader(raw, page, header.kind, e.table), cells);
      assert r in found.rows;
    }
  }

  lemma {:induction false} RootTables(tables: seq<Root>, i: nat)
    requires i < |RootEntries(tables)| && RootEntries(tables)[i].table.RowTable?
    ensures exists t <- tables :: t.name == RootEntries(tables)[i].table.name
  {
    if tables != [] {
      var init, last := tables[..|tables| - 1], tables[|tables| - 1];
      if i == 0 {
        assert last in tables;
      } else {
        RootTables(init, i - 1);
        var t :| t in init && t.name == RootEntries(init)[i - 1].table.name;
        assert t in tables;
      }
    }
  }

  /** A row is listed under its table. */
  predicate Listed<K(==)>(r: Row, logical: Logical<K>, key: Value -> K) {
    match r.table
    case SchemaTable => (r.rowid as int, Keys(r.values, key)) in logical.schema
    case RowTable(name, _) => name in logical.rows && Keys(r.values, key) in logical.rows[name]
  }

  lemma {:induction false} RowHasKeys<K>(rows: seq<Row>, key: Value -> K, r: Row)
    requires r in rows
    ensures r.table.SchemaTable? ==> (r.rowid as int, Keys(r.values, key)) in SchemaKeys(rows, key)
    ensures r.table.RowTable? ==> Keys(r.values, key) in TableKeys(rows, r.table.name, key)
  {
    if r != rows[|rows| - 1] {
      RowHasKeys(rows[..|rows| - 1], key, r);
    }
  }

  /** No row is hidden: every row on a page of an accepted image is one that the library returns. */
  lemma NoHiddenRows<K>(raw: ByteString, contract: Contract, tables: seq<Root>, logical: Logical<K>, key: Value -> K,
                        r: Row)
    requires Accepted(raw, contract, tables, logical, key) && r in ImageWalk(raw, tables).value.rows
    requires forall t <- tables :: t.name in logical.rows
    ensures Listed(r, logical, key)
  {
    FinderKeepsTable(raw);
    var i := SeenRowsHaveTables(Finder(raw), PageCount(raw), {}, RootEntries(tables), r);
    if r.table.RowTable? {
      RootTables(tables, i);
    }
    RowHasKeys(ImageWalk(raw, tables).value.rows, key, r);
  }
}
