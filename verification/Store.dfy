/** Rows, secondary indexes and foreign keys (Writer in engine/src/engine/store.cpp).

    A table is the contents of its trees: rows by primary key, and for every index the set of its keys. Columns are
    named by their position. */
module Store {
  import opened PageFormat
  import opened KeyOrder
  import opened KeyCodec

  datatype IndexDef = IndexDef(columns: seq<nat>, unique: bool)

  datatype ForeignKey = ForeignKey(columns: seq<nat>, refTable: string, refColumns: seq<nat>)

  datatype TableDef = TableDef(
    types: seq<ColumnType>, nullable: seq<bool>, primaryKey: seq<nat>, indexes: seq<IndexDef>,
      foreignKeys: seq<ForeignKey>)

  type Catalog = map<string, TableDef>

  datatype Outcome = Done | BadArgument | Constraint | NotFound

  datatype Table = Table(rows: map<Key, Row>, entries: seq<set<Key>>)

  type Tables = map<string, Table>

  // ----- rows and keys

  function Project(row: Row, columns: seq<nat>): (r: Row)
    ensures |r| == |columns|
    ensures forall i :: 0 <= i < |columns| && columns[i] < |row| ==> r[i] == row[columns[i]]
  {
    if columns == [] then [] else
    var last := columns[|columns| - 1];
    Project(row, columns[..|columns| - 1]) + [if last < |row| then row[last] else Null]
  }

  function TypesOf(t: TableDef, columns: seq<nat>): (r: seq<ColumnType>)
    ensures |r| == |columns|
    ensures forall i :: 0 <= i < |columns| && columns[i] < |t.types| ==> r[i] == t.types[columns[i]]
  {
    if columns == [] then [] else
    var last := columns[|columns| - 1];
    TypesOf(t, columns[..|columns| - 1]) + [if last < |t.types| then t.types[last] else Integer]
  }

  predicate AnyNull(r: Row) { exists i :: 0 <= i < |r| && r[i].Null? }

  predicate ColumnsOk(t: TableDef, columns: seq<nat>) { forall i :: 0 <= i < |columns| ==> columns[i] < |t.types| }

  /** validate_row: types, and no null where it is not allowed. */
  predicate ValidRow(t: TableDef, row: Row) {
    && RowMatches(row, t.types)
    && forall i :: 0 <= i < |row| && i < |t.nullable| && !t.nullable[i] ==> !row[i].Null?
  }

  function PkKey(t: TableDef, row: Row): Key { EncodeKey(Project(row, t.primaryKey)) }

  function IndexKey(t: TableDef, i: nat, row: Row): Key
    requires i < |t.indexes|
  {
    EncodeKey(Project(row, t.indexes[i].columns)) + PkKey(t, row)
  }

  lemma ProjectMatches(t: TableDef, row: Row, columns: seq<nat>)
    requires RowMatches(row, t.types) && ColumnsOk(t, columns)
    ensures RowMatches(Project(row, columns), TypesOf(t, columns))
  {
    hide Project, TypesOf;
    forall i | 0 <= i < |columns| ensures Project(row, columns)[i].Matches(TypesOf(t, columns)[i]) {
      assert columns[i] < |t.types|;
    }
  }

  lemma {:induction false} ProjectConcat(row: Row, a: seq<nat>, b: seq<nat>)
    ensures Project(row, a + b) == Project(row, a) + Project(row, b)
    decreases |b|
  {
    if b == [] {
      assert a + b == a && Project(row, a) + [] == Project(row, a);
    } else {
      assert (a + b)[..|a + b| - 1] == a + b[..|b| - 1];
      ProjectConcat(row, a, b[..|b| - 1]);
    }
  }

  /** Rows of the same columns with the same key are the same. */
  lemma EncodeInjective(a: Row, b: Row, types: seq<ColumnType>)
    requires RowMatches(a, types) && RowMatches(b, types) && EncodeKey(a) == EncodeKey(b)
    ensures a == b
  {
    DecodesKey(a, types, []);
    DecodesKey(b, types, []);
    assert EncodeKey(a) + [] == EncodeKey(b) + [];
  }

  function KeyColumns(t: TableDef, i: nat): seq<nat> requires i < |t.indexes| { t.indexes[i].columns + t.primaryKey }

  lemma IndexKeyIs(t: TableDef, i: nat, row: Row)
    requires i < |t.indexes|
    ensures IndexKey(t, i, row) == EncodeKey(Project(row, KeyColumns(t, i)))
  {
    ProjectConcat(row, t.indexes[i].columns, t.primaryKey);
    EncodeConcat(Project(row, t.indexes[i].columns), Project(row, t.primaryKey));
  }

  /** A table's definition is well formed. */
  predicate WellFormed(t: TableDef) {
    && |t.nullable| == |t.types| && ColumnsOk(t, t.primaryKey)
    && (forall i :: 0 <= i < |t.indexes| ==> ColumnsOk(t, t.indexes[i].columns))
  }

  /** Entries of an index tell their rows apart. */
  lemma IndexKeyTellsRows(t: TableDef, i: nat, a: Row, b: Row)
    requires WellFormed(t) && i < |t.indexes| && RowMatches(a, t.types) && RowMatches(b, t.types)
    requires IndexKey(t, i, a) == IndexKey(t, i, b)
    ensures PkKey(t, a) == PkKey(t, b) && Project(a, t.indexes[i].columns) == Project(b, t.indexes[i].columns)
  {
    hide Project, EncodeKey;
    var columns, n := KeyColumns(t, i), |t.indexes[i].columns|;
    IndexKeyIs(t, i, a);
    IndexKeyIs(t, i, b);
    ProjectMatches(t, a, columns);
    ProjectMatches(t, b, columns);
    EncodeInjective(Project(a, columns), Project(b, columns), TypesOf(t, columns));
    ProjectConcat(a, t.indexes[i].columns, t.primaryKey);
    ProjectConcat(b, t.indexes[i].columns, t.primaryKey);
    assert Project(a, columns)[..n] == Project(a, t.indexes[i].columns)
      && Project(b, columns)[..n] == Project(b, t.indexes[i].columns);
    assert Project(a, columns)[n..] == Project(a, t.primaryKey) && Project(b, columns)[n..] == Project(b, t.primaryKey);
  }

  // ----- what a table's trees hold

  ghost predicate RowsOk(t: TableDef, rows: map<Key, Row>) {
    forall k :: k in rows ==> ValidRow(t, rows[k]) && PkKey(t, rows[k]) == k
  }

  ghost predicate IsEntry(t: TableDef, rows: map<Key, Row>, i: nat, key: Key)
    requires i < |t.indexes|
  {
    exists k :: k in rows && key == IndexKey(t, i, rows[k])
  }

  /** An index has the entry of every row, and nothing else. */
  ghost predicate IndexOk(t: TableDef, d: Table, i: nat)
    requires i < |t.indexes| && i < |d.entries|
  {
    forall key :: key in d.entries[i] <==> IsEntry(t, d.rows, i, key)
  }

  /** Rows with the same values in a unique index have a null among them. */
  ghost predicate UniqueOk(t: TableDef, rows: map<Key, Row>, i: nat)
    requires i < |t.indexes|
  {
    t.indexes[i].unique ==> forall j, k :: j in rows && k in rows && j != k ==>
      Project(rows[j], t.indexes[i].columns) != Project(rows[k], t.indexes[i].columns)
        || AnyNull(Project(rows[j], t.indexes[i].columns))
  }

  ghost predicate TableOk(t: TableDef, d: Table) {
    && WellFormed(t) && |d.entries| == |t.indexes| && RowsOk(t, d.rows)
    && forall i :: 0 <= i < |t.indexes| ==> IndexOk(t, d, i) && UniqueOk(t, d.rows, i)
  }

  ghost predicate HasValues(rows: map<Key, Row>, columns: seq<nat>, values: Row) {
    exists k :: k in rows && Project(rows[k], columns) == values
  }

  /** prefix_exists. */
  predicate PrefixExists(keys: set<Key>, values: Row) { exists k :: k in keys && EncodeKey(values) <= k }

  /** A prefix lookup in an index finds the rows whose leading index columns have the values. */
  lemma IndexLookup(t: TableDef, d: Table, i: nat, columns: seq<nat>, values: Row)
    requires TableOk(t, d) && i < |t.indexes| && columns <= t.indexes[i].columns
    requires RowMatches(values, TypesOf(t, columns))
    ensures PrefixExists(d.entries[i], values) <==> HasValues(d.rows, columns, values)
  {
    hide Project, EncodeKey;
    assert IndexOk(t, d, i);
    forall k | k in d.rows
      ensures EncodeKey(values) <= IndexKey(t, i, d.rows[k]) <==> Project(d.rows[k], columns) == values
    {
      IndexKeyIs(t, i, d.rows[k]);
      LeadingLookup(t, d.rows[k], KeyColumns(t, i), columns, values);
    }
    if PrefixExists(d.entries[i], values) {
      var key :| key in d.entries[i] && EncodeKey(values) <= key;
      assert IsEntry(t, d.rows, i, key);
      var k :| k in d.rows && key == IndexKey(t, i, d.rows[k]);
    }
    if HasValues(d.rows, columns, values) {
      var k :| k in d.rows && Project(d.rows[k], columns) == values;
      assert IsEntry(t, d.rows, i, IndexKey(t, i, d.rows[k]));
    }
  }

  /** So does one in the primary tree. */
  lemma PrimaryLookup(t: TableDef, d: Table, columns: seq<nat>, values: Row)
    requires TableOk(t, d) && columns <= t.primaryKey && RowMatches(values, TypesOf(t, columns))
    ensures PrefixExists(d.rows.Keys, values) <==> HasValues(d.rows, columns, values)
  {
    hide Project, EncodeKey;
    forall k | k in d.rows ensures EncodeKey(values) <= k <==> Project(d.rows[k], columns) == values {
      LeadingLookup(t, d.rows[k], t.primaryKey, columns, values);
    }
  }

  lemma LeadingLookup(t: TableDef, row: Row, all: seq<nat>, columns: seq<nat>, values: Row)
    requires RowMatches(row, t.types) && ColumnsOk(t, all) && columns <= all && RowMatches(values, TypesOf(t, columns))
    ensures EncodeKey(values) <= EncodeKey(Project(row, all)) <==> Project(row, columns) == values
  {
    hide Project, EncodeKey, TypesOf;
    var n, types := |columns|, TypesOf(t, all);
    ProjectMatches(t, row, all);
    assert all == columns + all[n..];
    ProjectConcat(row, columns, all[n..]);
    assert types[..n] == TypesOf(t, columns) && types[..|types|] == types;
    PrefixIff(values, Project(row, all), types);
    assert Project(row, all)[..n] == Project(row, columns);
  }

  // ----- rows in and out of one table

  function WithEntry(t: TableDef, entries: seq<set<Key>>, row: Row, n: nat): (r: seq<set<Key>>)
    requires n <= |entries| == |t.indexes|
    ensures |r| == |entries|
    ensures forall i :: 0 <= i < |entries| ==> r[i] == if i < n then entries[i] + {IndexKey(t, i, row)} else entries[i]
  {
    seq(|entries|, i requires 0 <= i < |entries| => if i < n then entries[i] + {IndexKey(t, i, row)} else entries[i])
  }

  function WithoutEntry(t: TableDef, entries: seq<set<Key>>, row: Row, n: nat): (r: seq<set<Key>>)
    requires n <= |entries| == |t.indexes|
    ensures |r| == |entries|
    ensures forall i :: 0 <= i < |entries| ==> r[i] == if i < n then entries[i] - {IndexKey(t, i, row)} else entries[i]
  {
    seq(|entries|, i requires 0 <= i < |entries| => if i < n then entries[i] - {IndexKey(t, i, row)} else entries[i])
  }

  function Inserted(t: TableDef, d: Table, row: Row): Table
    requires |d.entries| == |t.indexes|
  {
    Table(d.rows[PkKey(t, row) := row], WithEntry(t, d.entries, row, |t.indexes|))
  }

  function Removed(t: TableDef, d: Table, k: Key): Table
    requires |d.entries| == |t.indexes| && k in d.rows
  {
    Table(d.rows - {k}, WithoutEntry(t, d.entries, d.rows[k], |t.indexes|))
  }

  /** No row has the values of `row` in a unique index. */
  ghost predicate Unclaimed(t: TableDef, rows: map<Key, Row>, row: Row, i: nat)
    requires i < |t.indexes|
  {
    var v := Project(row, t.indexes[i].columns);
    t.indexes[i].unique && !AnyNull(v) ==> !HasValues(rows, t.indexes[i].columns, v)
  }

  /** The key of a row's entry is short enough, and its values free. */
  ghost predicate Welcome(t: TableDef, rows: map<Key, Row>, row: Row, i: nat, maxKey: nat)
    requires i < |t.indexes|
  {
    |IndexKey(t, i, row)| <= maxKey && Unclaimed(t, rows, row, i)
  }

  /** What insert asks of a row, apart from foreign keys. */
  ghost predicate Insertable(t: TableDef, rows: map<Key, Row>, row: Row, maxKey: nat) {
    && ValidRow(t, row) && |PkKey(t, row)| <= maxKey && PkKey(t, row) !in rows
    && forall i :: 0 <= i < |t.indexes| ==> Welcome(t, rows, row, i, maxKey)
  }

  /** The keys of a row are short enough for the trees. */
  ghost predicate RowFits(t: TableDef, row: Row, maxKey: nat) {
    |PkKey(t, row)| <= maxKey && forall i :: 0 <= i < |t.indexes| ==> |IndexKey(t, i, row)| <= maxKey
  }

  ghost predicate AllRowsFit(t: TableDef, rows: map<Key, Row>, maxKey: nat) {
    forall k :: k in rows ==> RowFits(t, rows[k], maxKey)
  }

  lemma InsertableFits(t: TableDef, rows: map<Key, Row>, row: Row, maxKey: nat)
    requires Insertable(t, rows, row, maxKey) && AllRowsFit(t, rows, maxKey)
    ensures AllRowsFit(t, rows[PkKey(t, row) := row], maxKey)
  {
    hide PkKey, IndexKey, Unclaimed;
    forall i | 0 <= i < |t.indexes| ensures |IndexKey(t, i, row)| <= maxKey { assert Welcome(t, rows, row, i, maxKey); }
  }

  /** A row whose new keys fit, beside those it keeps. */
  lemma UpdatedFits(t: TableDef, rows: map<Key, Row>, row: Row, maxKey: nat)
    requires AllRowsFit(t, rows, maxKey) && PkKey(t, row) in rows && PkKey(t, rows[PkKey(t, row)]) == PkKey(t, row)
    requires var was := rows[PkKey(t, row)];
             forall i :: 0 <= i < |t.indexes| ==>
               Project(row, t.indexes[i].columns) == Project(was, t.indexes[i].columns)
                 || Welcome(t, rows, row, i, maxKey)
    ensures AllRowsFit(t, rows[PkKey(t, row) := row], maxKey)
  {
    hide Project, Unclaimed, EncodeKey;
    var was := rows[PkKey(t, row)];
    assert RowFits(t, was, maxKey);
    forall i | 0 <= i < |t.indexes| ensures |IndexKey(t, i, row)| <= maxKey {
      assert Project(row, t.indexes[i].columns) == Project(was, t.indexes[i].columns) ==>
          IndexKey(t, i, row) == IndexKey(t, i, was);
    }
  }

  lemma InsertedOk(t: TableDef, d: Table, row: Row)
    requires TableOk(t, d) && ValidRow(t, row) && PkKey(t, row) !in d.rows
    requires forall i :: 0 <= i < |t.indexes| ==> Unclaimed(t, d.rows, row, i)
    ensures TableOk(t, Inserted(t, d, row))
  {
    hide Project, PkKey, IndexKey, ValidRow, WithEntry;
    var d' := Inserted(t, d, row);
    forall i | 0 <= i < |t.indexes| ensures IndexOk(t, d', i) && UniqueOk(t, d'.rows, i) {
      InsertedIndex(t, d, row, i);
      InsertedUnique(t, d.rows, row, i);
    }
  }

  lemma InsertedIndex(t: TableDef, d: Table, row: Row, i: nat)
    requires i < |t.indexes| == |d.entries| && IndexOk(t, d, i) && PkKey(t, row) !in d.rows
    ensures IndexOk(t, Inserted(t, d, row), i)
  {
    hide PkKey, IndexKey;
    var d' := Inserted(t, d, row);
    forall key ensures key in d'.entries[i] <==> IsEntry(t, d'.rows, i, key) {
      if IsEntry(t, d.rows, i, key) {
        var k :| k in d.rows && key == IndexKey(t, i, d.rows[k]);
        assert k in d'.rows && d'.rows[k] == d.rows[k];
      }
      if key == IndexKey(t, i, row) { assert d'.rows[PkKey(t, row)] == row; }
    }
  }

  lemma InsertedUnique(t: TableDef, rows: map<Key, Row>, row: Row, i: nat)
    requires i < |t.indexes| && UniqueOk(t, rows, i) && Unclaimed(t, rows, row, i)
    ensures UniqueOk(t, rows[PkKey(t, row) := row], i)
  {
    hide Project, PkKey;
  }

  lemma RemovedOk(t: TableDef, d: Table, k: Key)
    requires TableOk(t, d) && k in d.rows
    ensures TableOk(t, Removed(t, d, k))
  {
    hide Project, PkKey, IndexKey, ValidRow, WithoutEntry;
    var d' := Removed(t, d, k);
    forall i | 0 <= i < |t.indexes| ensures IndexOk(t, d', i) && UniqueOk(t, d'.rows, i) {
      assert IndexOk(t, d, i) && UniqueOk(t, d.rows, i);
      RemovedIndex(t, d, k, i);
    }
  }

  lemma RemovedIndex(t: TableDef, d: Table, k: Key, i: nat)
    requires TableOk(t, d) && k in d.rows && i < |t.indexes|
    ensures IndexOk(t, Removed(t, d, k), i)
  {
    hide Project, PkKey, IndexKey;
    var d' := Removed(t, d, k);
    assert IndexOk(t, d, i);
    forall key ensures key in d'.entries[i] <==> IsEntry(t, d'.rows, i, key) {
      if IsEntry(t, d.rows, i, key) {
        var j :| j in d.rows && key == IndexKey(t, i, d.rows[j]);
        if j != k {
          if key == IndexKey(t, i, d.rows[k]) { IndexKeyTellsRows(t, i, d.rows[j], d.rows[k]); }
          assert d'.rows[j] == d.rows[j];
        }
      }
      if IsEntry(t, d'.rows, i, key) {
        var j :| j in d'.rows && key == IndexKey(t, i, d'.rows[j]);
        assert IsEntry(t, d.rows, i, key);
        if key == IndexKey(t, i, d.rows[k]) { IndexKeyTellsRows(t, i, d.rows[j], d.rows[k]); }
      }
    }
  }

  // ----- foreign keys

  predicate ForeignKeyOk(catalog: Catalog, t: TableDef, fk: ForeignKey) {
    && ColumnsOk(t, fk.columns) && fk.refTable in catalog
    && var parent := catalog[fk.refTable];
       && ColumnsOk(parent, fk.refColumns) && TypesOf(t, fk.columns) == TypesOf(parent, fk.refColumns)
       && (fk.refColumns == parent.primaryKey || exists j :: 0 <= j < |parent.indexes| && IsTarget(parent, fk, j))
       && (fk.columns <= t.primaryKey || exists j :: 0 <= j < |t.indexes| && IsSupport(t, fk, j))
  }

  predicate IsTarget(parent: TableDef, fk: ForeignKey, j: int) {
    0 <= j < |parent.indexes| && parent.indexes[j].unique && parent.indexes[j].columns == fk.refColumns
  }

  predicate IsSupport(t: TableDef, fk: ForeignKey, j: int) {
    0 <= j < |t.indexes| && fk.columns <= t.indexes[j].columns
  }

  predicate CatalogOk(catalog: Catalog) {
    forall name :: name in catalog ==>
      WellFormed(catalog[name]) && forall f :: 0 <= f < |catalog[name].foreignKeys| ==>
          ForeignKeyOk(catalog, catalog[name], catalog[name].foreignKeys[f])
  }

  ghost predicate StoreOk(catalog: Catalog, tables: Tables) {
    CatalogOk(catalog) && tables.Keys == catalog.Keys && forall name :: name in catalog ==>
        TableOk(catalog[name], tables[name])
  }

  /** A foreign key without nulls has its parent. */
  ghost predicate HasParent(tables: Tables, fk: ForeignKey, row: Row) {
    var v := Project(row, fk.columns);
    AnyNull(v) || (fk.refTable in tables && HasValues(tables[fk.refTable].rows, fk.refColumns, v))
  }

  ghost predicate ParentsHold(catalog: Catalog, tables: Tables) {
    forall name, f, k ::
        name in catalog && name in tables && 0 <= f < |catalog[name].foreignKeys| && k in tables[name].rows ==>
      HasParent(tables, catalog[name].foreignKeys[f], tables[name].rows[k])
  }

  /** The lookup in check_parents: by primary key, or in a unique index. */
  predicate ParentFound(catalog: Catalog, tables: Tables, fk: ForeignKey, v: Row)
    requires fk.refTable in catalog && fk.refTable in tables
    requires |tables[fk.refTable].entries| == |catalog[fk.refTable].indexes|
  {
    var parent, d := catalog[fk.refTable], tables[fk.refTable];
    if fk.refColumns == parent.primaryKey then EncodeKey(v) in d.rows
    else exists j :: 0 <= j < |parent.indexes| && IsTarget(parent, fk, j) && PrefixExists(d.entries[j], v)
  }

  /** The lookup in check_no_children: by a prefix of the child's primary key, or in a supporting index. */
  predicate ChildFound(child: TableDef, d: Table, fk: ForeignKey, v: Row)
    requires |d.entries| == |child.indexes|
  {
    if fk.columns <= child.primaryKey then PrefixExists(d.rows.Keys, v)
    else exists j :: 0 <= j < |child.indexes| && IsSupport(child, fk, j) && PrefixExists(d.entries[j], v)
  }

  lemma ParentFoundIs(catalog: Catalog, tables: Tables, name: string, f: nat, row: Row)
    requires StoreOk(catalog, tables) && name in catalog && f < |catalog[name].foreignKeys|
    requires ValidRow(catalog[name], row)
    ensures var fk := catalog[name].foreignKeys[f];
            && fk.refTable in catalog
            && (ParentFound(catalog, tables, fk, Project(row, fk.columns))
                <==> HasValues(tables[fk.refTable].rows, fk.refColumns, Project(row, fk.columns)))
  {
    hide Project, EncodeKey, ValidRow, TypesOf;
    var t := catalog[name];
    var fk := t.foreignKeys[f];
    assert ForeignKeyOk(catalog, t, fk);
    var parent, d, v := catalog[fk.refTable], tables[fk.refTable], Project(row, fk.columns);
    assert TableOk(parent, d);
    assert RowMatches(v, TypesOf(parent, fk.refColumns)) by { RowIsTyped(t, row); ProjectMatches(t, row, fk.columns); }
    if fk.refColumns == parent.primaryKey {
      PrimaryGet(parent, d, v);
    } else {
      forall j | IsTarget(parent, fk, j)
        ensures PrefixExists(d.entries[j], v) <==> HasValues(d.rows, fk.refColumns, v)
      {
        IndexLookup(parent, d, j, fk.refColumns, v);
      }
    }
  }

  lemma RowIsTyped(t: TableDef, row: Row)
    requires ValidRow(t, row)
    ensures RowMatches(row, t.types)
  {
  }

  lemma PrimaryGet(t: TableDef, d: Table, v: Row)
    requires TableOk(t, d) && RowMatches(v, TypesOf(t, t.primaryKey))
    ensures EncodeKey(v) in d.rows <==> HasValues(d.rows, t.primaryKey, v)
  {
    hide Project, EncodeKey, TypesOf;
    if EncodeKey(v) in d.rows {
      var row := d.rows[EncodeKey(v)];
      ProjectMatches(t, row, t.primaryKey);
      EncodeInjective(Project(row, t.primaryKey), v, TypesOf(t, t.primaryKey));
    }
  }

  lemma ChildFoundIs(catalog: Catalog, tables: Tables, child: string, f: nat, row: Row)
    requires StoreOk(catalog, tables) && child in catalog && f < |catalog[child].foreignKeys|
    requires catalog[child].foreignKeys[f].refTable in catalog
    requires ValidRow(catalog[catalog[child].foreignKeys[f].refTable], row)
    ensures var fk := catalog[child].foreignKeys[f];
            ChildFound(catalog[child], tables[child], fk, Project(row, fk.refColumns))
            <==> HasValues(tables[child].rows, fk.columns, Project(row, fk.refColumns))
  {
    hide Project, EncodeKey, ValidRow, TypesOf;
    var t := catalog[child];
    var fk := t.foreignKeys[f];
    assert ForeignKeyOk(catalog, t, fk);
    var d, v := tables[child], Project(row, fk.refColumns);
    assert TableOk(t, d);
    assert RowMatches(v, TypesOf(t, fk.columns)) by {
      RowIsTyped(catalog[fk.refTable], row);
      ProjectMatches(catalog[fk.refTable], row, fk.refColumns);
    }
    if fk.columns <= t.primaryKey {
      PrimaryLookup(t, d, fk.columns, v);
    } else {
      forall j | IsSupport(t, fk, j) ensures PrefixExists(d.entries[j], v) <==> HasValues(d.rows, fk.columns, v) {
        IndexLookup(t, d, j, fk.columns, v);
      }
    }
  }

  // ----- what row operations do to foreign keys

  /** check_parents: foreign keys that change must find their parent. */
  predicate ParentsFound(catalog: Catalog, tables: Tables, name: string, row: Row, was: Option<Row>)
    requires name in catalog && CatalogOk(catalog) && tables.Keys == catalog.Keys
    requires forall n :: n in catalog ==> |tables[n].entries| == |catalog[n].indexes|
  {
    forall f :: 0 <= f < |catalog[name].foreignKeys| ==>
      var fk := catalog[name].foreignKeys[f];
      var v := Project(row, fk.columns);
      || AnyNull(v) || (was.Some? && v == Project(was.value, fk.columns))
      || (assert ForeignKeyOk(catalog, catalog[name], fk); ParentFound(catalog, tables, fk, v))
  }

  /** check_no_children: no foreign key names values that the row is losing. */
  predicate NoChildren(catalog: Catalog, tables: Tables, name: string, row: Row, after: Option<Row>)
    requires tables.Keys == catalog.Keys && forall n :: n in catalog ==> |tables[n].entries| == |catalog[n].indexes|
  {
    forall child :: child in catalog ==> forall f :: 0 <= f < |catalog[child].foreignKeys| ==>
      !Orphans(catalog, tables, name, row, after, child, f)
  }

  predicate Orphans(catalog: Catalog, tables: Tables, name: string, row: Row, after: Option<Row>, child: string, f: nat)
    requires child in catalog && child in tables && f < |catalog[child].foreignKeys|
    requires |tables[child].entries| == |catalog[child].indexes|
  {
    var fk := catalog[child].foreignKeys[f];
    var v := Project(row, fk.refColumns);
    && fk.refTable == name && !AnyNull(v) && (after.Some? ==> v != Project(after.value, fk.refColumns))
    && ChildFound(catalog[child], tables[child], fk, v)
  }

  /** Rows are only added: every parent is still there. */
  lemma ParentsSurvive(tables: Tables, name: string, d: Table, fk: ForeignKey, row: Row)
    requires name in tables && HasParent(tables, fk, row)
    requires forall k :: k in tables[name].rows ==> k in d.rows && d.rows[k] == tables[name].rows[k]
    ensures HasParent(tables[name := d], fk, row)
  {
    hide Project;
    if !AnyNull(Project(row, fk.columns)) && fk.refTable == name {
      var k :| k in tables[name].rows && Project(tables[name].rows[k], fk.refColumns) == Project(row, fk.columns);
      assert d.rows[k] == tables[name].rows[k];
    }
  }

  lemma InsertKeepsParents(catalog: Catalog, tables: Tables, name: string, row: Row)
    requires StoreOk(catalog, tables) && ParentsHold(catalog, tables) && name in catalog && ValidRow(catalog[name], row)
    requires PkKey(catalog[name], row) !in tables[name].rows && ParentsFound(catalog, tables, name, row, None)
    ensures ParentsHold(catalog, tables[name := Inserted(catalog[name], tables[name], row)])
  {
    hide Project, PkKey, ValidRow, CatalogOk, ParentFound, WithEntry;
    assert TableOk(catalog[name], tables[name]);
    var d := Inserted(catalog[name], tables[name], row);
    var tables' := tables[name := d];
    forall n, f, k | n in catalog && n in tables' && 0 <= f < |catalog[n].foreignKeys| && k in tables'[n].rows
      ensures HasParent(tables', catalog[n].foreignKeys[f], tables'[n].rows[k])
    {
      var fk := catalog[n].foreignKeys[f];
      if n == name && k == PkKey(catalog[name], row) {
        ParentFoundIs(catalog, tables, name, f, row);
        assert HasParent(tables, fk, row);
      }
      ParentsSurvive(tables, name, d, fk, tables'[n].rows[k]);
    }
  }

  lemma RemoveKeepsParents(catalog: Catalog, tables: Tables, name: string, key: Key)
    requires StoreOk(catalog, tables) && ParentsHold(catalog, tables) && name in catalog && key in tables[name].rows
    requires NoChildren(catalog, tables, name, tables[name].rows[key], None)
    ensures ParentsHold(catalog, tables[name := Removed(catalog[name], tables[name], key)])
  {
    hide Project, PkKey, ValidRow, CatalogOk, ChildFound, WithoutEntry, ParentFound;
    var gone := tables[name].rows[key];
    var tables' := tables[name := Removed(catalog[name], tables[name], key)];
    forall n, f, k | n in catalog && n in tables' && 0 <= f < |catalog[n].foreignKeys| && k in tables'[n].rows
      ensures HasParent(tables', catalog[n].foreignKeys[f], tables'[n].rows[k])
    {
      var fk, row := catalog[n].foreignKeys[f], tables[n].rows[k];
      var v := Project(row, fk.columns);
      assert HasParent(tables, fk, row);
      if !AnyNull(v) && fk.refTable == name {
        var p :| p in tables[name].rows && Project(tables[name].rows[p], fk.refColumns) == v;
        if p == key {
          assert RowsOk(catalog[name], tables[name].rows) && HasValues(tables[n].rows, fk.columns, v);
          assert !Orphans(catalog, tables, name, gone, None, n, f);
          ChildFoundIs(catalog, tables, n, f, gone);
        } else {
          assert tables'[name].rows[p] == tables[name].rows[p];
        }
      }
    }
  }

  /** The new row names, by a foreign key to its own table, values of the old row that it gives up. */
  predicate MovesAway(t: TableDef, name: string, was: Row, row: Row) {
    exists f :: 0 <= f < |t.foreignKeys| && MovesAwayBy(t.foreignKeys[f], name, was, row)
  }

  predicate MovesAwayBy(fk: ForeignKey, name: string, was: Row, row: Row) {
    var v := Project(row, fk.columns);
    && fk.refTable == name && !AnyNull(v) && v != Project(was, fk.columns)
    && v == Project(was, fk.refColumns) && v != Project(row, fk.refColumns)
  }

  function Updated(t: TableDef, d: Table, row: Row): Table
    requires |d.entries| == |t.indexes| && PkKey(t, row) in d.rows
  {
    Inserted(t, Removed(t, d, PkKey(t, row)), row)
  }

  lemma UpdatedRows(t: TableDef, d: Table, row: Row)
    requires |d.entries| == |t.indexes| && PkKey(t, row) in d.rows
    ensures Updated(t, d, row).rows == d.rows[PkKey(t, row) := row]
  {
  }

  /** An accepted update of a row: what is needed of every other row's parents, and of its own. */
  ghost predicate Accepted(catalog: Catalog, tables: Tables, name: string, row: Row) {
    && StoreOk(catalog, tables) && ParentsHold(catalog, tables) && name in catalog && ValidRow(catalog[name], row)
    && PkKey(catalog[name], row) in tables[name].rows
    && var was := tables[name].rows[PkKey(catalog[name], row)];
       ParentsFound(catalog, tables, name, row, Some(was)) && NoChildren(catalog, tables, name, was, Some(row))
  }

  /** Rows that are not updated keep their parents. */
  lemma OthersKeepParents(catalog: Catalog, tables: Tables, name: string, row: Row, n: string, f: nat, k: Key)
    requires Accepted(catalog, tables, name, row) && n in catalog && f < |catalog[n].foreignKeys| && k in tables[n].rows
    requires n != name || k != PkKey(catalog[name], row)
    ensures HasParent(tables[name := Updated(catalog[name], tables[name], row)], catalog[n].foreignKeys[f],
                      tables[n].rows[k])
  {
    hide Project, PkKey, ValidRow, CatalogOk, ChildFound, ParentFound, Inserted, Removed, ParentsFound;
    var key := PkKey(catalog[name], row);
    var was, fk := tables[name].rows[key], catalog[n].foreignKeys[f];
    var v := Project(tables[n].rows[k], fk.columns);
    var tables' := tables[name := Updated(catalog[name], tables[name], row)];
    assert TableOk(catalog[name], tables[name]);
    UpdatedRows(catalog[name], tables[name], row);
    assert HasParent(tables, fk, tables[n].rows[k]);
    if !AnyNull(v) && fk.refTable == name {
      var p :| p in tables[name].rows && Project(tables[name].rows[p], fk.refColumns) == v;
      if p == key {
        assert !Orphans(catalog, tables, name, was, Some(row), n, f);
        ChildFoundIs(catalog, tables, n, f, was);
        assert HasValues(tables[n].rows, fk.columns, v);
      }
      assert Project(tables'[name].rows[p], fk.refColumns) == v;
    }
  }

  /** The updated row keeps a parent exactly when it does not move away from itself. */
  lemma OwnParent(catalog: Catalog, tables: Tables, name: string, row: Row, f: nat)
    requires Accepted(catalog, tables, name, row) && f < |catalog[name].foreignKeys|
    ensures var t, was := catalog[name], tables[name].rows[PkKey(catalog[name], row)];
            HasParent(tables[name := Updated(t, tables[name], row)], t.foreignKeys[f], row) <==>
                !MovesAwayBy(t.foreignKeys[f], name, was, row)
  {
    hide Project, PkKey, ValidRow, CatalogOk, ChildFound, ParentFound, Inserted, Removed;
    var t, key := catalog[name], PkKey(catalog[name], row);
    var was, fk, v := tables[name].rows[key], t.foreignKeys[f], Project(row, t.foreignKeys[f].columns);
    var tables' := tables[name := Updated(t, tables[name], row)];
    assert TableOk(t, tables[name]);
    UpdatedRows(t, tables[name], row);
    ParentFoundIs(catalog, tables, name, f, row);
    assert HasParent(tables, fk, was);
    if !AnyNull(v) && fk.refTable == name {
      assert HasValues(tables[name].rows, fk.refColumns, v);
      var p :| p in tables[name].rows && Project(tables[name].rows[p], fk.refColumns) == v;
      if p != key {
        assert tables'[name].rows[p] == tables[name].rows[p];
        if MovesAwayBy(fk, name, was, row) { OneHolder(catalog, tables, name, row, f, p); }
      } else {
        OwnValues(catalog, tables, name, row, f);
      }
    }
  }

  /** The target of a foreign key has its values once. */
  lemma OneHolder(catalog: Catalog, tables: Tables, name: string, row: Row, f: nat, p: Key)
    requires Accepted(catalog, tables, name, row) && f < |catalog[name].foreignKeys|
    requires catalog[name].foreignKeys[f].refTable == name
    requires p in tables[name].rows && p != PkKey(catalog[name], row)
    ensures var fk, was := catalog[name].foreignKeys[f], tables[name].rows[PkKey(catalog[name], row)];
            Project(tables[name].rows[p], fk.refColumns) != Project(was, fk.refColumns)
              || AnyNull(Project(was, fk.refColumns))
  {
    hide Project, ValidRow, ChildFound, ParentFound, NoChildren, ParentsFound, EncodeKey;
    var t, d, key := catalog[name], tables[name], PkKey(catalog[name], row);
    var fk, was := t.foreignKeys[f], d.rows[key];
    assert TableOk(t, d) && ForeignKeyOk(catalog, t, fk);
    if fk.refColumns != t.primaryKey {
      var j :| 0 <= j < |t.indexes| && IsTarget(t, fk, j);
      assert UniqueOk(t, d.rows, j);
    }
  }

  /** When the only parent is the row itself. */
  lemma OwnValues(catalog: Catalog, tables: Tables, name: string, row: Row, f: nat)
    requires Accepted(catalog, tables, name, row) && f < |catalog[name].foreignKeys|
    requires catalog[name].foreignKeys[f].refTable == name
    requires var fk, was := catalog[name].foreignKeys[f], tables[name].rows[PkKey(catalog[name], row)];
             !AnyNull(Project(row, fk.columns)) && Project(was, fk.refColumns) == Project(row, fk.columns)
    ensures var t, was := catalog[name], tables[name].rows[PkKey(catalog[name], row)];
            HasParent(tables[name := Updated(t, tables[name], row)], t.foreignKeys[f], row) <==>
                !MovesAwayBy(t.foreignKeys[f], name, was, row)
  {
    hide Project, PkKey, ValidRow, CatalogOk, ChildFound, ParentFound, Inserted, Removed, ParentsFound;
    var t, d, key := catalog[name], tables[name], PkKey(catalog[name], row);
    var fk, was, v := t.foreignKeys[f], d.rows[key], Project(row, t.foreignKeys[f].columns);
    var rows' := d.rows[key := row];
    assert TableOk(t, d);
    UpdatedRows(t, d, row);
    if Project(row, fk.refColumns) == v {
      assert rows'[key] == row;
    } else if v == Project(was, fk.columns) {
      assert !Orphans(catalog, tables, name, was, Some(row), name, f) && HasValues(d.rows, fk.columns, v);
      ChildFoundIs(catalog, tables, name, f, was);
    } else {
      forall p | p in rows' ensures Project(rows'[p], fk.refColumns) != v {
        if p != key { OneHolder(catalog, tables, name, row, f, p); }
      }
    }
  }

  /** After an accepted update every foreign key has its parent, unless the row moved away from itself. */
  lemma UpdateKeepsParents(catalog: Catalog, tables: Tables, name: string, row: Row)
    requires Accepted(catalog, tables, name, row)
    ensures var t, was := catalog[name], tables[name].rows[PkKey(catalog[name], row)];
            ParentsHold(catalog, tables[name := Updated(t, tables[name], row)]) <==> !MovesAway(t, name, was, row)
  {
    hide Project, PkKey, ValidRow, CatalogOk, ChildFound, ParentFound, Inserted, Removed, ParentsFound, NoChildren;
    hide MovesAwayBy, HasParent;
    var t, d, key := catalog[name], tables[name], PkKey(catalog[name], row);
    var was := d.rows[key];
    var tables' := tables[name := Updated(t, d, row)];
    assert TableOk(t, d);
    UpdatedRows(t, d, row);
    forall n, f, k | n in catalog && n in tables' && 0 <= f < |catalog[n].foreignKeys| && k in tables'[n].rows
      ensures n != name || k != key ==> HasParent(tables', catalog[n].foreignKeys[f], tables'[n].rows[k])
    {
      if n != name || k != key { OthersKeepParents(catalog, tables, name, row, n, f, k); }
    }
    forall f | 0 <= f < |t.foreignKeys|
      ensures HasParent(tables', t.foreignKeys[f], row) <==> !MovesAwayBy(t.foreignKeys[f], name, was, row)
    {
      OwnParent(catalog, tables, name, row, f);
    }
    if MovesAway(t, name, was, row) {
      var f :| 0 <= f < |t.foreignKeys| && MovesAwayBy(t.foreignKeys[f], name, was, row);
      assert tables'[name].rows[key] == row
        && !HasParent(tables', catalog[name].foreignKeys[f], tables'[name].rows[key]);
    }
  }

  lemma UpdatedOk(t: TableDef, d: Table, row: Row)
    requires TableOk(t, d) && ValidRow(t, row) && PkKey(t, row) in d.rows
    requires var was := d.rows[PkKey(t, row)];
             forall i :: 0 <= i < |t.indexes| ==>
               Project(row, t.indexes[i].columns) == Project(was, t.indexes[i].columns) || Unclaimed(t, d.rows, row, i)
    ensures TableOk(t, Updated(t, d, row))
  {
    hide Project, PkKey, ValidRow, IndexKey;
    var key := PkKey(t, row);
    var was, d' := d.rows[key], Removed(t, d, key);
    RemovedOk(t, d, key);
    forall i | 0 <= i < |t.indexes| ensures Unclaimed(t, d'.rows, row, i) {
      assert UniqueOk(t, d.rows, i);
    }
    InsertedOk(t, d', row);
  }

  /** Erasing and putting only what changes leaves each index as erasing and putting all would. */
  lemma UpdatedEntries(t: TableDef, d: Table, row: Row, entries: seq<set<Key>>)
    requires TableOk(t, d) && ValidRow(t, row) && PkKey(t, row) in d.rows && |entries| == |t.indexes|
    requires var was := d.rows[PkKey(t, row)];
             forall i :: 0 <= i < |entries| ==>
               entries[i] == if Project(row, t.indexes[i].columns) == Project(was, t.indexes[i].columns)
                 then d.entries[i]
                             else d.entries[i] - {IndexKey(t, i, was)} + {IndexKey(t, i, row)}
    ensures Table(d.rows[PkKey(t, row) := row], entries) == Updated(t, d, row)
  {
    hide Project, PkKey, ValidRow;
    var key := PkKey(t, row);
    var was := d.rows[key];
    UpdatedRows(t, d, row);
    forall i | 0 <= i < |entries| ensures entries[i] == Updated(t, d, row).entries[i] {
      assert IndexOk(t, d, i) && IsEntry(t, d.rows, i, IndexKey(t, i, was));
    }
  }

  /** Updating a row with itself changes nothing, and moves nothing away. */
  lemma SameRow(catalog: Catalog, tables: Tables, name: string, row: Row)
    requires StoreOk(catalog, tables) && name in catalog && ValidRow(catalog[name], row)
    requires PkKey(catalog[name], row) in tables[name].rows && tables[name].rows[PkKey(catalog[name], row)] == row
    ensures tables == tables[name := Updated(catalog[name], tables[name], row)]
    ensures !MovesAway(catalog[name], name, row, row)
  {
    hide Project, PkKey, ValidRow, CatalogOk;
    var t, d := catalog[name], tables[name];
    assert TableOk(t, d);
    UpdatedEntries(t, d, row, d.entries);
    assert d.rows[PkKey(t, row) := row] == d.rows;
  }

  /** An index has one entry for every row. */
  lemma {:induction false} OneEntryPerRow(t: TableDef, d: Table, i: nat)
    requires TableOk(t, d) && i < |t.indexes|
    ensures |d.entries[i]| == |d.rows|
    decreases |d.rows|
  {
    hide IndexOk, UniqueOk, RowsOk, WellFormed, Removed;
    if d.rows == map[] {
      NoRowsNoEntries(t, d, i);
    } else {
      var k :| k in d.rows;
      RemovedOk(t, d, k);
      RemovedSizes(t, d, k, i);
      OneEntryPerRow(t, Removed(t, d, k), i);
    }
  }

  lemma NoRowsNoEntries(t: TableDef, d: Table, i: nat)
    requires TableOk(t, d) && i < |t.indexes| && d.rows == map[]
    ensures d.entries[i] == {}
  {
    assert IndexOk(t, d, i);
  }

  lemma RemovedSizes(t: TableDef, d: Table, k: Key, i: nat)
    requires TableOk(t, d) && k in d.rows && i < |t.indexes|
    ensures var d' := Removed(t, d, k);
            i < |d'.entries| && |d'.rows| == |d.rows| - 1 && |d'.entries[i]| == |d.entries[i]| - 1
  {
    hide IndexKey, UniqueOk, RowsOk, WellFormed;
    assert IndexOk(t, d, i);
    var key := IndexKey(t, i, d.rows[k]);
    assert IsEntry(t, d.rows, i, key);
    assert d.rows.Keys == (d.rows - {k}).Keys + {k};
    assert d.entries[i] == (d.entries[i] - {key}) + {key};
  }

  // ----- what every row satisfies

  ghost predicate InRow(a: Row, columns: seq<nat>) { forall i :: 0 <= i < |columns| ==> columns[i] < |a| }

  lemma ValidNotNull(t: TableDef, d: Table, row: Row)
    requires TableOk(t, d) && ValidRow(t, row)
    ensures |row| == |t.nullable| && forall i :: 0 <= i < |row| && row[i].Null? ==> t.nullable[i]
  {
    hide Project, EncodeKey, IndexKey;
  }

  /** Values have the types of their columns, and none is null where none may be. */
  lemma RowIs(t: TableDef, d: Table, k: Key)
    requires TableOk(t, d) && k in d.rows
    ensures |d.rows[k]| == |t.types| == |t.nullable| && PkKey(t, d.rows[k]) == k && RowMatches(d.rows[k], t.types)
    ensures forall i :: 0 <= i < |t.types| ==> d.rows[k][i].Matches(t.types[i])
    ensures forall i :: 0 <= i < |t.types| && !t.nullable[i] ==> !d.rows[k][i].Null?
    ensures InRow(d.rows[k], t.primaryKey)
    ensures forall u :: 0 <= u < |t.indexes| ==> InRow(d.rows[k], t.indexes[u].columns)
  {
    hide Project, EncodeKey, IndexKey;
    assert ValidRow(t, d.rows[k]);
  }

  /** The same in every table of a store. */
  lemma NotNull(catalog: Catalog, tables: Tables)
    requires StoreOk(catalog, tables)
    ensures forall name, k :: name in catalog && k in tables[name].rows ==>
              |tables[name].rows[k]| == |catalog[name].types| == |catalog[name].nullable|
    ensures forall name, k, i :: name in catalog && k in tables[name].rows && 0 <= i < |tables[name].rows[k]| ==>
              && tables[name].rows[k][i].Matches(catalog[name].types[i])
              && (tables[name].rows[k][i].Null? ==> catalog[name].nullable[i])
  {
    hide TableOk, CatalogOk;
    forall name, k | name in catalog && k in tables[name].rows
      ensures |tables[name].rows[k]| == |catalog[name].types| == |catalog[name].nullable|
      ensures forall i :: 0 <= i < |tables[name].rows[k]| ==>
                && tables[name].rows[k][i].Matches(catalog[name].types[i])
                && (tables[name].rows[k][i].Null? ==> catalog[name].nullable[i])
    {
      RowIs(catalog[name], tables[name], k);
    }
  }
}
