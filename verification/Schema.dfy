/** Creating and dropping tables and indexes (Writer in engine/src/engine/store.cpp). */
module Schema {
  import opened KeyOrder
  import opened KeyCodec
  import opened Store

  // ----- definitions

  predicate Once(columns: seq<nat>) {
    columns != [] && forall i, j :: 0 <= i < j < |columns| ==> columns[i] != columns[j]
  }

  /** What validate_table_def asks of a definition by itself. */
  predicate Plain(t: TableDef) {
    && 0 < |t.types| <= 4096 && Once(t.primaryKey)
    && (forall i :: 0 <= i < |t.indexes| ==> Once(t.indexes[i].columns))
    && (forall f :: 0 <= f < |t.foreignKeys| ==> t.foreignKeys[f].columns != [])
  }

  /** Columns of the primary key take no null. */
  function KeyNotNull(t: TableDef): TableDef {
    t.(nullable := seq(|t.nullable|, i requires 0 <= i < |t.nullable| => t.nullable[i] && i !in t.primaryKey))
  }

  lemma KeyNotNullTwice(t: TableDef)
    ensures KeyNotNull(KeyNotNull(t)) == KeyNotNull(t)
  {
    assert KeyNotNull(KeyNotNull(t)).nullable == KeyNotNull(t).nullable;
  }

  /** validate_table_def; a table may refer to itself. */
  predicate ValidDef(catalog: Catalog, name: string, t: TableDef) {
    && WellFormed(t) && Plain(t)
    && forall f :: 0 <= f < |t.foreignKeys| ==> ForeignKeyOk(catalog[name := t], t, t.foreignKeys[f])
  }

  ghost predicate DefsOk(catalog: Catalog) {
    CatalogOk(catalog) && forall name :: name in catalog ==>
        Plain(catalog[name]) && KeyNotNull(catalog[name]) == catalog[name]
  }

  /** No primary key column takes a null. */
  lemma KeysNotNull(catalog: Catalog)
    requires DefsOk(catalog)
    ensures forall name, i :: name in catalog && i in catalog[name].primaryKey ==>
              i < |catalog[name].nullable| && !catalog[name].nullable[i]
  {
    forall name, i | name in catalog && i in catalog[name].primaryKey
      ensures i < |catalog[name].nullable| && !catalog[name].nullable[i]
    {
      var t := catalog[name];
      assert KeyNotNull(t) == t && WellFormed(t);
    }
  }

  // ----- foreign keys between tables form no cycle

  /** `parent` is another table that a foreign key of `name` refers to. */
  predicate RefersTo(t: TableDef, name: string, parent: string) {
    parent != name && exists f :: 0 <= f < |t.foreignKeys| && t.foreignKeys[f].refTable == parent
  }

  /** Ranks fall along every reference to another table. */
  ghost predicate Ranked(catalog: Catalog, rank: map<string, nat>) {
    forall name, parent :: name in catalog && RefersTo(catalog[name], name, parent) ==>
        Falls(catalog, rank, name, parent)
  }

  ghost predicate Falls(catalog: Catalog, rank: map<string, nat>, name: string, parent: string) {
    parent in catalog && parent in rank && name in rank && rank[parent] < rank[name]
  }

  ghost function Above(rank: map<string, nat>): (n: nat)
    ensures forall name :: name in rank ==> rank[name] < n
    decreases |rank|
  {
    if rank == map[] then 0 else
    var name :| name in rank;
    var n := Above(rank - {name});
    assert forall other :: other in rank && other != name ==> other in rank - {name};
    if n <= rank[name] then rank[name] + 1 else n
  }

  /** A foreign key is as good in a catalog that agrees about the table it refers to. */
  lemma SameTarget(catalog: Catalog, catalog': Catalog, t: TableDef, fk: ForeignKey)
    requires ForeignKeyOk(catalog, t, fk) && fk.refTable in catalog' && catalog'[fk.refTable] == catalog[fk.refTable]
    ensures ForeignKeyOk(catalog', t, fk)
  {
  }

  lemma CreateKeepsDefs(catalog: Catalog, name: string, t: TableDef)
    requires DefsOk(catalog) && name !in catalog && ValidDef(catalog, name, t) && KeyNotNull(t) == t
    ensures DefsOk(catalog[name := t])
  {
    hide WellFormed, ForeignKeyOk, Plain, KeyNotNull;
    var catalog' := catalog[name := t];
    forall n | n in catalog
      ensures forall f :: 0 <= f < |catalog[n].foreignKeys| ==>
                ForeignKeyOk(catalog', catalog[n], catalog[n].foreignKeys[f])
    {
      forall f | 0 <= f < |catalog[n].foreignKeys|
        ensures ForeignKeyOk(catalog', catalog[n], catalog[n].foreignKeys[f])
      {
        TargetThere(catalog, catalog[n], catalog[n].foreignKeys[f]);
        SameTarget(catalog, catalog', catalog[n], catalog[n].foreignKeys[f]);
      }
    }
  }

  lemma TargetThere(catalog: Catalog, t: TableDef, fk: ForeignKey)
    requires ForeignKeyOk(catalog, t, fk)
    ensures fk.refTable in catalog
  {
  }

  /** A new table may only refer to tables that are there: it ranks above them all. */
  lemma CreateKeepsRank(catalog: Catalog, rank: map<string, nat>, name: string, t: TableDef)
    requires Ranked(catalog, rank) && name !in catalog && ValidDef(catalog, name, t)
    ensures Ranked(catalog[name := t], RankedAbove(catalog, rank, name))
  {
    hide WellFormed, ForeignKeyOk, Plain;
    var catalog', rank' := catalog[name := t], RankedAbove(catalog, rank, name);
    forall n, parent | n in catalog' && RefersTo(catalog'[n], n, parent)
      ensures Falls(catalog', rank', n, parent)
    {
      if n == name {
        var f :| 0 <= f < |t.foreignKeys| && t.foreignKeys[f].refTable == parent;
        TargetThere(catalog', t, t.foreignKeys[f]);
      }
    }
  }

  /** Ranks for a catalog with one more table. */
  ghost function RankedAbove(catalog: Catalog, rank: map<string, nat>, name: string): map<string, nat> {
    map n | n in catalog.Keys + {name} :: if n == name then Above(rank) + 1 else if n in rank then rank[n] else 0
  }

  lemma DropKeeps(catalog: Catalog, rank: map<string, nat>, name: string)
    requires DefsOk(catalog) && Ranked(catalog, rank)
    requires forall other :: other in catalog ==> !RefersTo(catalog[other], other, name)
    ensures DefsOk(catalog - {name}) && Ranked(catalog - {name}, rank)
  {
    hide WellFormed, ForeignKeyOk, Plain, KeyNotNull;
    var catalog' := catalog - {name};
    forall n | n in catalog'
      ensures forall f :: 0 <= f < |catalog[n].foreignKeys| ==>
                ForeignKeyOk(catalog', catalog[n], catalog[n].foreignKeys[f])
    {
      forall f | 0 <= f < |catalog[n].foreignKeys|
        ensures ForeignKeyOk(catalog', catalog[n], catalog[n].foreignKeys[f])
      {
        assert !RefersTo(catalog[n], n, name);
        TargetThere(catalog, catalog[n], catalog[n].foreignKeys[f]);
        SameTarget(catalog, catalog', catalog[n], catalog[n].foreignKeys[f]);
      }
    }
  }

  // ----- one index more, or fewer

  function WithoutIndex(t: TableDef, i: nat): TableDef
    requires i < |t.indexes|
  {
    t.(indexes := t.indexes[..i] + t.indexes[i + 1..])
  }

  function WithIndex(t: TableDef, index: IndexDef): TableDef { t.(indexes := t.indexes + [index]) }

  predicate Supported(t: TableDef, fk: ForeignKey) {
    fk.columns <= t.primaryKey || exists j :: 0 <= j < |t.indexes| && IsSupport(t, fk, j)
  }

  predicate Target(t: TableDef, fk: ForeignKey) {
    fk.refColumns == t.primaryKey || exists j :: 0 <= j < |t.indexes| && IsTarget(t, fk, j)
  }

  /** Nothing but indexes changes, every foreign key of the table is supported, and every foreign key keeps its
      target. */
  predicate Reindexed(catalog: Catalog, name: string, t: TableDef) {
    && name in catalog && t == catalog[name].(indexes := t.indexes) && WellFormed(t) && Plain(t)
    && (forall f :: 0 <= f < |t.foreignKeys| ==> Supported(t, t.foreignKeys[f]))
    && forall n :: n in catalog ==> forall f :: 0 <= f < |catalog[n].foreignKeys| ==>
         catalog[n].foreignKeys[f].refTable == name ==> Target(t, catalog[n].foreignKeys[f])
  }

  lemma {:induction false} SameTypes(t: TableDef, t': TableDef, columns: seq<nat>)
    requires t.types == t'.types
    ensures TypesOf(t, columns) == TypesOf(t', columns)
    decreases |columns|
  {
    if columns != [] { SameTypes(t, t', columns[..|columns| - 1]); }
  }

  lemma ReindexedKey(catalog: Catalog, name: string, t: TableDef, n: string, f: nat)
    requires CatalogOk(catalog) && Reindexed(catalog, name, t) && n in catalog && f < |catalog[n].foreignKeys|
    ensures ForeignKeyOk(catalog[name := t], catalog[name := t][n], catalog[n].foreignKeys[f])
  {
    hide TypesOf, WellFormed, Plain;
    var fk := catalog[n].foreignKeys[f];
    assert ForeignKeyOk(catalog, catalog[n], fk);
    SameTypes(t, catalog[name], fk.columns);
    SameTypes(t, catalog[name], fk.refColumns);
    assert n == name ==> Supported(t, fk);
    assert fk.refTable == name ==> Target(t, fk);
  }

  lemma ReindexedKeeps(catalog: Catalog, rank: map<string, nat>, name: string, t: TableDef)
    requires DefsOk(catalog) && Ranked(catalog, rank) && Reindexed(catalog, name, t)
    ensures DefsOk(catalog[name := t]) && Ranked(catalog[name := t], rank)
  {
    hide WellFormed, ForeignKeyOk, Plain, Supported, Target;
    var catalog' := catalog[name := t];
    ReindexedRank(catalog, rank, name, t);
    forall n | n in catalog'
      ensures forall f :: 0 <= f < |catalog'[n].foreignKeys| ==>
                ForeignKeyOk(catalog', catalog'[n], catalog'[n].foreignKeys[f])
    {
      forall f | 0 <= f < |catalog'[n].foreignKeys|
        ensures ForeignKeyOk(catalog', catalog'[n], catalog'[n].foreignKeys[f])
      {
        ReindexedKey(catalog, name, t, n, f);
      }
    }
  }

  lemma ReindexedRank(catalog: Catalog, rank: map<string, nat>, name: string, t: TableDef)
    requires Ranked(catalog, rank) && name in catalog && t.foreignKeys == catalog[name].foreignKeys
    ensures Ranked(catalog[name := t], rank)
  {
    hide RefersTo;
    var catalog' := catalog[name := t];
    forall n, parent | n in catalog' && RefersTo(catalog'[n], n, parent)
      ensures Falls(catalog', rank, n, parent)
    {
      SameReferences(catalog[n], catalog'[n], n, parent);
      assert Falls(catalog, rank, n, parent);
    }
  }

  lemma SameReferences(t: TableDef, t': TableDef, name: string, parent: string)
    requires t.foreignKeys == t'.foreignKeys
    ensures RefersTo(t, name, parent) == RefersTo(t', name, parent)
  {
  }

  /** The rows are the same: so is every parent. */
  lemma SameRowsSameParents(catalog: Catalog, tables: Tables, name: string, t: TableDef, d: Table)
    requires ParentsHold(catalog, tables) && name in catalog && name in tables && d.rows == tables[name].rows
    requires t.foreignKeys == catalog[name].foreignKeys
    ensures ParentsHold(catalog[name := t], tables[name := d])
  {
    hide Project;
    var catalog', tables' := catalog[name := t], tables[name := d];
    forall n, f, k | n in catalog' && n in tables' && 0 <= f < |catalog'[n].foreignKeys| && k in tables'[n].rows
      ensures HasParent(tables', catalog'[n].foreignKeys[f], tables'[n].rows[k])
    {
      assert HasParent(tables, catalog[n].foreignKeys[f], tables[n].rows[k]);
      ParentsSurvive(tables, name, d, catalog[n].foreignKeys[f], tables[n].rows[k]);
    }
  }

  /** The index at `i` of one definition is the index at `j` of another with the same columns. */
  lemma SameIndex(t: TableDef, d: Table, i: nat, t': TableDef, d': Table, j: nat)
    requires i < |t.indexes| == |d.entries| && j < |t'.indexes| == |d'.entries| && t'.primaryKey == t.primaryKey
    requires t'.indexes[j] == t.indexes[i] && d'.rows == d.rows && d'.entries[j] == d.entries[i]
    requires IndexOk(t, d, i) && UniqueOk(t, d.rows, i)
    ensures IndexOk(t', d', j) && UniqueOk(t', d'.rows, j)
  {
    hide Project, EncodeKey;
    forall row ensures IndexKey(t', j, row) == IndexKey(t, i, row) {}
    forall key ensures key in d'.entries[j] <==> IsEntry(t', d'.rows, j, key) {
      assert IsEntry(t, d.rows, i, key) <==> IsEntry(t', d'.rows, j, key);
    }
  }

  lemma WithoutIndexOk(t: TableDef, d: Table, i: nat)
    requires TableOk(t, d) && i < |t.indexes|
    ensures TableOk(WithoutIndex(t, i), Table(d.rows, d.entries[..i] + d.entries[i + 1..]))
  {
    hide Project, EncodeKey, IndexOk, UniqueOk;
    var t', d' := WithoutIndex(t, i), Table(d.rows, d.entries[..i] + d.entries[i + 1..]);
    forall j | 0 <= j < |t'.indexes|
      ensures IndexOk(t', d', j) && UniqueOk(t', d'.rows, j) && ColumnsOk(t', t'.indexes[j].columns)
    {
      var was := if j < i then j else j + 1;
      assert t'.indexes[j] == t.indexes[was];
      SameIndex(t, d, was, t', d', j);
    }
    forall k | k in d.rows ensures ValidRow(t', d.rows[k]) && PkKey(t', d.rows[k]) == k {
      assert ValidRow(t, d.rows[k]);
    }
  }

  lemma WithIndexOk(t: TableDef, d: Table, index: IndexDef, entries: set<Key>)
    requires TableOk(t, d) && ColumnsOk(t, index.columns)
    requires var t', d' := WithIndex(t, index), Table(d.rows, d.entries + [entries]);
             IndexOk(t', d', |t.indexes|) && UniqueOk(t', d.rows, |t.indexes|)
    ensures TableOk(WithIndex(t, index), Table(d.rows, d.entries + [entries]))
  {
    hide Project, EncodeKey, IndexOk, UniqueOk;
    var t', d' := WithIndex(t, index), Table(d.rows, d.entries + [entries]);
    forall j | 0 <= j < |t'.indexes|
      ensures IndexOk(t', d', j) && UniqueOk(t', d'.rows, j) && ColumnsOk(t', t'.indexes[j].columns)
    {
      if j < |t.indexes| { SameIndex(t, d, j, t', d', j); }
    }
    forall k | k in d.rows ensures ValidRow(t', d.rows[k]) && PkKey(t', d.rows[k]) == k {
      assert ValidRow(t, d.rows[k]);
    }
  }

  lemma EmptyTableOk(t: TableDef)
    requires WellFormed(t)
    ensures TableOk(t, EmptyTable(t))
  {
  }

  function EmptyTable(t: TableDef): Table { Table(map[], seq(|t.indexes|, _ => {})) }

  // ----- building an index over the rows of a table

  ghost predicate AllFit(t: TableDef, rows: map<Key, Row>, i: nat, maxKey: nat)
    requires i < |t.indexes|
  {
    forall k :: k in rows ==> |IndexKey(t, i, rows[k])| <= maxKey
  }

  /** The entries of the rows put so far, and no other, are there. */
  ghost predicate Built(t: TableDef, rows: map<Key, Row>, i: nat, done: set<Key>, entries: set<Key>)
    requires i < |t.indexes| && done <= rows.Keys
  {
    forall key :: key in entries <==> exists k :: k in done && key == IndexKey(t, i, rows[k])
  }

  lemma Taken(t: TableDef, rows: map<Key, Row>, i: nat, done: set<Key>, entries: set<Key>, row: Row)
    requires WellFormed(t) && RowsOk(t, rows) && i < |t.indexes| && done <= rows.Keys
    requires Built(t, rows, i, done, entries) && ValidRow(t, row)
    ensures var v := Project(row, t.indexes[i].columns);
            PrefixExists(entries, v) <==> exists k :: k in done && Project(rows[k], t.indexes[i].columns) == v
  {
    hide Project, EncodeKey;
    var columns := t.indexes[i].columns;
    var v := Project(row, columns);
    assert RowMatches(v, TypesOf(t, columns)) by { ProjectMatches(t, row, columns); }
    forall k | k in done ensures EncodeKey(v) <= IndexKey(t, i, rows[k]) <==> Project(rows[k], columns) == v {
      IndexKeyIs(t, i, rows[k]);
      assert ValidRow(t, rows[k]);
      LeadingLookup(t, rows[k], KeyColumns(t, i), columns, v);
    }
    if PrefixExists(entries, v) {
      var key :| key in entries && EncodeKey(v) <= key;
      var k :| k in done && key == IndexKey(t, i, rows[k]);
    }
    if k :| k in done && Project(rows[k], columns) == v {
      assert IndexKey(t, i, rows[k]) in entries;
    }
  }

  /** The rows are walked, in any order, and each is compared with the entries already put. */
  method BuildIndex(t: TableDef, rows: map<Key, Row>, i: nat, maxKey: nat) returns (o: Outcome, entries: set<Key>)
    requires WellFormed(t) && RowsOk(t, rows) && i < |t.indexes|
    ensures o == Done || o == BadArgument || o == Constraint
    ensures o == Done <==> AllFit(t, rows, i, maxKey) && UniqueOk(t, rows, i)
    ensures o == Done ==> forall key :: key in entries <==> IsEntry(t, rows, i, key)
  {
    hide Project, EncodeKey, ValidRow, RowsOk, IndexKey;
    var rest, columns := rows.Keys, t.indexes[i].columns;
    entries := {};
    while rest != {}
      invariant rest <= rows.Keys && Built(t, rows, i, rows.Keys - rest, entries)
      invariant forall k :: k in rows.Keys - rest ==> |IndexKey(t, i, rows[k])| <= maxKey
      invariant t.indexes[i].unique ==> forall j, k :: j in rows.Keys - rest && k in rows.Keys - rest && j != k ==>
        Project(rows[j], columns) != Project(rows[k], columns) || AnyNull(Project(rows[j], columns))
      decreases |rest|
    {
      var k :| k in rest;
      var v := Project(rows[k], columns);
      RowIsValid(t, rows, k);
      if |EncodeKey(v)| + |PkKey(t, rows[k])| > maxKey {
        EntrySize(t, i, rows[k]);
        return BadArgument, {};
      }
      if t.indexes[i].unique && !AnyNull(v) {
        Taken(t, rows, i, rows.Keys - rest, entries, rows[k]);
        if PrefixExists(entries, v) { return Constraint, {}; }
      }
      EntrySize(t, i, rows[k]);
      PutOne(t, rows, i, rows.Keys - rest, entries, k);
      assert rows.Keys - (rest - {k}) == rows.Keys - rest + {k};
      entries := entries + {IndexKey(t, i, rows[k])};
      rest := rest - {k};
    }
    assert rows.Keys - rest == rows.Keys;
    o := Done;
  }

  lemma RowIsValid(t: TableDef, rows: map<Key, Row>, k: Key)
    requires RowsOk(t, rows) && k in rows
    ensures ValidRow(t, rows[k])
  {
  }

  lemma EntrySize(t: TableDef, i: nat, row: Row)
    requires i < |t.indexes|
    ensures |IndexKey(t, i, row)| == |EncodeKey(Project(row, t.indexes[i].columns))| + |PkKey(t, row)|
  {
  }

  lemma PutOne(t: TableDef, rows: map<Key, Row>, i: nat, done: set<Key>, entries: set<Key>, k: Key)
    requires i < |t.indexes| && done <= rows.Keys && k in rows && Built(t, rows, i, done, entries)
    ensures Built(t, rows, i, done + {k}, entries + {IndexKey(t, i, rows[k])})
  {
    hide IndexKey;
  }

  // ----- what the operations need

  lemma CreateKeepsParents(catalog: Catalog, tables: Tables, name: string, t: TableDef)
    requires StoreOk(catalog, tables) && ParentsHold(catalog, tables) && name !in catalog
    ensures ParentsHold(catalog[name := t], tables[name := EmptyTable(t)])
  {
    hide Project, CatalogOk, TableOk;
    var catalog', tables' := catalog[name := t], tables[name := EmptyTable(t)];
    forall n, f, k | n in catalog' && n in tables' && 0 <= f < |catalog'[n].foreignKeys| && k in tables'[n].rows
      ensures HasParent(tables', catalog'[n].foreignKeys[f], tables'[n].rows[k])
    {
      assert HasParent(tables, catalog[n].foreignKeys[f], tables[n].rows[k]);
    }
  }

  lemma DropKeepsParents(catalog: Catalog, tables: Tables, name: string)
    requires ParentsHold(catalog, tables) && forall other :: other in catalog ==> !RefersTo(catalog[other], other, name)
    ensures ParentsHold(catalog - {name}, tables - {name})
  {
    hide Project;
    var catalog', tables' := catalog - {name}, tables - {name};
    forall n, f, k | n in catalog' && n in tables' && 0 <= f < |catalog'[n].foreignKeys| && k in tables'[n].rows
      ensures HasParent(tables', catalog'[n].foreignKeys[f], tables'[n].rows[k])
    {
      assert !RefersTo(catalog[n], n, name);
      assert HasParent(tables, catalog[n].foreignKeys[f], tables[n].rows[k]);
    }
  }

  lemma IndexedRows(t: TableDef, rows: map<Key, Row>, index: IndexDef)
    requires WellFormed(t) && RowsOk(t, rows) && ColumnsOk(t, index.columns)
    ensures WellFormed(WithIndex(t, index)) && RowsOk(WithIndex(t, index), rows)
  {
    hide Project;
    var t' := WithIndex(t, index);
    forall k | k in rows ensures ValidRow(t', rows[k]) && PkKey(t', rows[k]) == k { assert ValidRow(t, rows[k]); }
    forall i | 0 <= i < |t'.indexes| ensures ColumnsOk(t', t'.indexes[i].columns) {}
  }

  /** One index more supports, and is a target for, whatever the others were. */
  lemma MoreIndexes(catalog: Catalog, name: string, index: IndexDef)
    requires DefsOk(catalog) && name in catalog && Once(index.columns) && ColumnsOk(catalog[name], index.columns)
    ensures Reindexed(catalog, name, WithIndex(catalog[name], index))
  {
    var t, t' := catalog[name], WithIndex(catalog[name], index);
    forall i | 0 <= i < |t'.indexes| ensures Once(t'.indexes[i].columns) && ColumnsOk(t', t'.indexes[i].columns) {}
    forall n, f | n in catalog && 0 <= f < |catalog[n].foreignKeys|
      ensures n == name ==> Supported(t', catalog[n].foreignKeys[f])
      ensures catalog[n].foreignKeys[f].refTable == name ==> Target(t', catalog[n].foreignKeys[f])
    {
      MoreIndexesFor(catalog, name, index, n, f);
    }
  }

  lemma MoreIndexesFor(catalog: Catalog, name: string, index: IndexDef, n: string, f: nat)
    requires CatalogOk(catalog) && name in catalog && n in catalog && f < |catalog[n].foreignKeys|
    ensures n == name ==> Supported(WithIndex(catalog[name], index), catalog[n].foreignKeys[f])
    ensures catalog[n].foreignKeys[f].refTable == name ==>
              Target(WithIndex(catalog[name], index), catalog[n].foreignKeys[f])
  {
    hide WellFormed, TypesOf;
    var t, t', fk := catalog[name], WithIndex(catalog[name], index), catalog[n].foreignKeys[f];
    assert ForeignKeyOk(catalog, catalog[n], fk);
    if n == name && !(fk.columns <= t.primaryKey) {
      var j :| 0 <= j < |t.indexes| && IsSupport(t, fk, j);
      assert IsSupport(t', fk, j);
    }
    if fk.refTable == name && fk.refColumns != t.primaryKey {
      var j :| 0 <= j < |t.indexes| && IsTarget(t, fk, j);
      assert IsTarget(t', fk, j);
    }
  }

  /** Another unique index, or the primary key, has the columns of the index at `i`. */
  predicate StillUnique(t: TableDef, i: nat)
    requires i < |t.indexes|
  {
    t.indexes[i].columns == t.primaryKey || exists j ::
        0 <= j < |t.indexes| && j != i && IsUniqueOn(t, j, t.indexes[i].columns)
  }

  predicate IsUniqueOn(t: TableDef, j: nat, columns: seq<nat>) {
    j < |t.indexes| && t.indexes[j].unique && t.indexes[j].columns == columns
  }

  predicate Names(child: TableDef, name: string, columns: seq<nat>) {
    exists f :: 0 <= f < |child.foreignKeys| && child.foreignKeys[f].refTable == name
      && child.foreignKeys[f].refColumns == columns
  }

  /** The two tests of drop_index say exactly that every foreign key keeps its support and its target. */
  lemma FewerIndexes(catalog: Catalog, name: string, i: nat)
    requires DefsOk(catalog) && name in catalog && i < |catalog[name].indexes|
    ensures var t, without := catalog[name], WithoutIndex(catalog[name], i);
            Reindexed(catalog, name, without) <==>
              && (forall f :: 0 <= f < |t.foreignKeys| ==> Supported(without, t.foreignKeys[f]))
              && (t.indexes[i].unique && !StillUnique(t, i) ==> forall child :: child in catalog ==>
                    !Names(catalog[child], name, t.indexes[i].columns))
  {
    hide ForeignKeyOk, Supported, Target, StillUnique;
    var t, without := catalog[name], WithoutIndex(catalog[name], i);
    assert forall j :: 0 <= j < |without.indexes| ==> without.indexes[j] == t.indexes[if j < i then j else j + 1];
    forall n, f | n in catalog && 0 <= f < |catalog[n].foreignKeys| && catalog[n].foreignKeys[f].refTable == name
      ensures Target(without, catalog[n].foreignKeys[f])
              <==> !(t.indexes[i].unique && !StillUnique(t, i)
                     && catalog[n].foreignKeys[f].refColumns == t.indexes[i].columns)
    {
      assert ForeignKeyOk(catalog, catalog[n], catalog[n].foreignKeys[f]);
      FewerIndexesFor(catalog, name, i, n, f);
    }
  }

  lemma FewerIndexesFor(catalog: Catalog, name: string, i: nat, n: string, f: nat)
    requires n in catalog && f < |catalog[n].foreignKeys|
    requires ForeignKeyOk(catalog, catalog[n], catalog[n].foreignKeys[f])
    requires catalog[n].foreignKeys[f].refTable == name && i < |catalog[name].indexes|
    ensures var t := catalog[name];
            Target(WithoutIndex(t, i), catalog[n].foreignKeys[f])
            <==> !(t.indexes[i].unique && !StillUnique(t, i)
                   && catalog[n].foreignKeys[f].refColumns == t.indexes[i].columns)
  {
    hide TypesOf, ColumnsOk, Target;
    var t, fk := catalog[name], catalog[n].foreignKeys[f];
    TargetWithout(t, i, fk);
    if fk.refColumns != t.primaryKey {
      var j :| 0 <= j < |t.indexes| && IsTarget(t, fk, j);
      assert IsUniqueOn(t, j, fk.refColumns);
    }
  }

  lemma TargetWithout(t: TableDef, i: nat, fk: ForeignKey)
    requires i < |t.indexes|
    ensures Target(WithoutIndex(t, i), fk)
            <==> fk.refColumns == t.primaryKey || exists j ::
                0 <= j < |t.indexes| && j != i && IsUniqueOn(t, j, fk.refColumns)
  {
    var without := WithoutIndex(t, i);
    if j :| 0 <= j < |t.indexes| && j != i && IsUniqueOn(t, j, fk.refColumns) {
      var k := if j < i then j else j - 1;
      assert without.indexes[k] == t.indexes[j] && IsTarget(without, fk, k);
    }
    if k :| 0 <= k < |without.indexes| && IsTarget(without, fk, k) {
      var j := if k < i then k else k + 1;
      assert without.indexes[k] == t.indexes[j] && IsUniqueOn(t, j, fk.refColumns);
    }
  }
}
