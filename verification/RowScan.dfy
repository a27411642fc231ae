/** Rows out of a table, by its primary key or by an index: from the pages of its trees, through the codecs
    (scan in engine/src/engine/store.cpp). */
module RowScan {
  import opened PageFormat
  import opened Disk
  import opened KeyOrder
  import opened KeyCodec
  import opened RowCodec
  import opened MapTree
  import opened Store
  import opened Scan

  /** The tree has the rows, encoded, by primary key. */
  ghost predicate Stores(m: map<Key, Bytes>, rows: map<Key, Row>) {
    m.Keys == rows.Keys && forall k :: k in rows ==>
        StorableRow(rows[k]) && |rows[k]| < 65536 && m[k] == EncodeRow(rows[k])
  }

  /** The key columns of a scan: those of an index and then the primary key, or the primary key alone. */
  function ScanColumns(t: TableDef, index: Option<nat>): seq<nat>
    requires index.Some? ==> index.value < |t.indexes|
  {
    if index.Some? then KeyColumns(t, index.value) else t.primaryKey
  }

  function ScanKey(t: TableDef, index: Option<nat>, row: Row): Key
    requires index.Some? ==> index.value < |t.indexes|
  {
    if index.Some? then IndexKey(t, index.value, row) else PkKey(t, row)
  }

  ghost function ScanKeys(d: Table, index: Option<nat>): set<Key>
    requires index.Some? ==> index.value < |d.entries|
  {
    if index.Some? then d.entries[index.value] else d.rows.Keys
  }

  /** The row is in the table. */
  ghost predicate IsRow(t: TableDef, d: Table, row: Row) { PkKey(t, row) in d.rows && d.rows[PkKey(t, row)] == row }

  lemma ScanKeyIs(t: TableDef, index: Option<nat>, row: Row)
    requires index.Some? ==> index.value < |t.indexes|
    ensures ScanKey(t, index, row) == EncodeKey(Project(row, ScanColumns(t, index)))
  {
    if index.Some? { IndexKeyIs(t, index.value, row); }
  }

  /** The keys of a scan are those of the rows, one each. */
  lemma KeyOfRow(t: TableDef, d: Table, index: Option<nat>, row: Row)
    requires TableOk(t, d) && (index.Some? ==> index.value < |t.indexes|) && IsRow(t, d, row)
    ensures ScanKey(t, index, row) in ScanKeys(d, index)
    ensures RowMatches(Project(row, ScanColumns(t, index)), TypesOf(t, ScanColumns(t, index)))
  {
    hide PkKey, IndexKey, Project, TypesOf, EncodeKey;
    assert ValidRow(t, d.rows[PkKey(t, row)]);
    if index.Some? {
      assert IndexOk(t, d, index.value) && IsEntry(t, d.rows, index.value, IndexKey(t, index.value, row));
    }
    ProjectMatches(t, row, ScanColumns(t, index));
  }

  lemma RowOfKey(t: TableDef, d: Table, index: Option<nat>, key: Key) returns (row: Row)
    requires TableOk(t, d) && (index.Some? ==> index.value < |t.indexes|) && key in ScanKeys(d, index)
    ensures IsRow(t, d, row) && ScanKey(t, index, row) == key
    ensures index.Some? ==> DecodeKey(key, TypesOf(t, t.indexes[index.value].columns))
                            == Some((Project(row, t.indexes[index.value].columns), PkKey(t, row)))
  {
    hide Project, TypesOf, EncodeKey, DecodeKey;
    if index.Some? {
      var i := index.value;
      assert IndexOk(t, d, i) && IsEntry(t, d.rows, i, key);
      var k :| k in d.rows && key == IndexKey(t, i, d.rows[k]);
      row := d.rows[k];
      assert ValidRow(t, row) && PkKey(t, row) == k;
      ProjectMatches(t, row, t.indexes[i].columns);
      DecodesKey(Project(row, t.indexes[i].columns), TypesOf(t, t.indexes[i].columns), PkKey(t, row));
    } else {
      row := d.rows[key];
      assert PkKey(t, row) == key;
    }
  }

  /** One key of a scan leads to its row: the primary key is what follows the index columns. */
  method Fetch(pk: BTree, t: TableDef, index: Option<nat>, key: Key, ghost d: Table) returns (row: Row)
    requires TableOk(t, d) && (index.Some? ==> index.value < |t.indexes|) && key in ScanKeys(d, index)
    requires pk.Valid() && Stores(pk.t.Map(), d.rows)
    ensures IsRow(t, d, row) && ScanKey(t, index, row) == key
  {
    hide Project, TypesOf, EncodeKey, DecodeKey, PkKey, IndexKey, BTree.Valid, EncodeRow, DecodeRow, StorableRow;
    hide IndexOk, UniqueOk, RowsOk;
    ghost var found := RowOfKey(t, d, index, key);
    var at := key;
    if index.Some? {
      var values, pos := ReadKey(key, 0, TypesOf(t, t.indexes[index.value].columns));
      assert key[0..] == key;
      at := key[pos..];
    }
    var s, stored := pk.Get(at);
    RowBack(found);
    var decoded := DecodeRow(stored.value);
    row := decoded.value;
  }

  /** Within the bounds, by the columns of the scan. */
  ghost predicate RowWithin(t: TableDef, index: Option<nat>, row: Row, lower: Option<Bound>, upper: Option<Bound>) {
    && (index.Some? ==> index.value < |t.indexes|)
    && var types, values := TypesOf(t, ScanColumns(t, index)), Project(row, ScanColumns(t, index));
       && (lower.Some? ==> FitsBound(lower.value, types)) && (upper.Some? ==> FitsBound(upper.value, types))
       && RowMatches(values, types) && AboveRow(values, lower, types) && BelowRow(values, upper, types)
  }

  ghost predicate InScanOrder(t: TableDef, index: Option<nat>, rows: seq<Row>, reverse: bool)
    requires index.Some? ==> index.value < |t.indexes|
  {
    forall i, j :: 0 <= i < j < |rows| ==>
      if reverse then Pos(ScanKey(t, index, rows[i])) > Pos(ScanKey(t, index, rows[j]))
      else Pos(ScanKey(t, index, rows[i])) < Pos(ScanKey(t, index, rows[j]))
  }

  /** scan: from the trees of a table, exactly its rows within the bounds, each once, in the order of the scan's
      columns or in reverse. */
  method ScanRows(pk: BTree, entries: BTree, t: TableDef, index: Option<nat>, lower: Option<Bound>,
                  upper: Option<Bound>, reverse: bool, ghost d: Table)
    returns (s: Status, rows: seq<Row>)
    requires TableOk(t, d) && (index.Some? ==> index.value < |t.indexes|)
    requires pk.Valid() && entries.Valid() && Stores(pk.t.Map(), d.rows) && entries.t.Map().Keys == ScanKeys(d, index)
    ensures s == Ok <==> (lower.Some? ==> FitsBound(lower.value, TypesOf(t, ScanColumns(t, index))))
                         && (upper.Some? ==> FitsBound(upper.value, TypesOf(t, ScanColumns(t, index))))
    ensures s == Ok ==> InScanOrder(t, index, rows, reverse)
    ensures s == Ok ==> forall row :: row in rows <==> IsRow(t, d, row) && RowWithin(t, index, row, lower, upper)
  {
    hide Project, TypesOf, EncodeKey, PkKey, IndexKey, BTree.Valid, TableOk, AboveRow, BelowRow, Pos, FitsBound, Stores;
    var ks;
    rows := [];
    s, ks := ScanRaw(entries, TypesOf(t, ScanColumns(t, index)), lower, upper, reverse);
    if s != Ok { return; }
    var n := 0;
    while n < |ks|
      invariant n == |rows| <= |ks|
      invariant forall i :: 0 <= i < n ==> IsRow(t, d, rows[i]) && ScanKey(t, index, rows[i]) == ks[i]
    {
      var row := Fetch(pk, t, index, ks[n], d);
      rows := rows + [row];
      n := n + 1;
    }
    forall row ensures row in rows <==> IsRow(t, d, row) && RowWithin(t, index, row, lower, upper) {
      ScanKeyIs(t, index, row);
      if IsRow(t, d, row) {
        KeyOfRow(t, d, index, row);
        if ScanKey(t, index, row) in ks {
          var i :| 0 <= i < |ks| && ks[i] == ScanKey(t, index, row);
          SameKeySameRow(t, d, index, row, rows[i]);
        }
      }
    }
  }

  lemma SameKeySameRow(t: TableDef, d: Table, index: Option<nat>, a: Row, b: Row)
    requires TableOk(t, d) && (index.Some? ==> index.value < |t.indexes|) && IsRow(t, d, a) && IsRow(t, d, b)
    requires ScanKey(t, index, a) == ScanKey(t, index, b)
    ensures a == b
  {
    hide PkKey, IndexKey, Project;
    assert ValidRow(t, d.rows[PkKey(t, a)]) && ValidRow(t, d.rows[PkKey(t, b)]);
    if index.Some? { IndexKeyTellsRows(t, index.value, a, b); }
  }
}
