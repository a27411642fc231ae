/** What the store promises, said of rows and columns alone: what every row of a store satisfies, and exactly which rows
    are taken, replaced and removed (Writer in engine/src/engine/store.cpp). */
module StoreClaims {
  import opened PageFormat
  import opened KeyOrder
  import opened KeyCodec
  import opened Store
  import opened Schema
  import opened StoreWriter

  /** Two rows have the same values, column by column. */
  ghost predicate Same(a: Row, ca: seq<nat>, b: Row, cb: seq<nat>) {
    |ca| == |cb| && forall i :: 0 <= i < |ca| ==> ca[i] < |a| && cb[i] < |b| && a[ca[i]] == b[cb[i]]
  }

  ghost predicate SomeNull(a: Row, columns: seq<nat>) {
    exists i :: 0 <= i < |columns| && columns[i] < |a| && a[columns[i]].Null?
  }

  lemma SameProject(a: Row, ca: seq<nat>, b: Row, cb: seq<nat>)
    requires InRow(a, ca) && InRow(b, cb)
    ensures Project(a, ca) == Project(b, cb) <==> Same(a, ca, b, cb)
  {
    hide Project;
    if Same(a, ca, b, cb) {
      assert forall i :: 0 <= i < |ca| ==> Project(a, ca)[i] == Project(b, cb)[i];
    } else if |ca| == |cb| {
      var i :| 0 <= i < |ca| && a[ca[i]] != b[cb[i]];
      assert Project(a, ca)[i] != Project(b, cb)[i];
    }
  }

  lemma NullProject(a: Row, columns: seq<nat>)
    requires InRow(a, columns)
    ensures AnyNull(Project(a, columns)) <==> SomeNull(a, columns)
  {
    hide Project;
    if i :| 0 <= i < |columns| && a[columns[i]].Null? {
      assert Project(a, columns)[i].Null?;
    }
  }

  // ----- what every row satisfies

  /** Different rows differ in the primary key, and in every unique index unless there is a null. */
  lemma Different(catalog: Catalog, tables: Tables, name: string, j: Key, k: Key)
    requires StoreOk(catalog, tables) && name in catalog
    requires j in tables[name].rows && k in tables[name].rows && j != k
    ensures var t, a, b := catalog[name], tables[name].rows[j], tables[name].rows[k];
            && !Same(a, t.primaryKey, b, t.primaryKey)
            && forall u :: 0 <= u < |t.indexes| && t.indexes[u].unique ==>
                 SomeNull(a, t.indexes[u].columns) || !Same(a, t.indexes[u].columns, b, t.indexes[u].columns)
  {
    hide Project, EncodeKey, ValidRow, Same, SomeNull;
    var t, d := catalog[name], tables[name];
    var a, b := d.rows[j], d.rows[k];
    assert TableOk(t, d);
    RowIs(t, d, j);
    RowIs(t, d, k);
    SameProject(a, t.primaryKey, b, t.primaryKey);
    forall u | 0 <= u < |t.indexes| && t.indexes[u].unique
      ensures SomeNull(a, t.indexes[u].columns) || !Same(a, t.indexes[u].columns, b, t.indexes[u].columns)
    {
      assert UniqueOk(t, d.rows, u);
      SameProject(a, t.indexes[u].columns, b, t.indexes[u].columns);
      NullProject(a, t.indexes[u].columns);
    }
  }

  /** For every foreign key a row has a null, or a row of the other table has the same values. */
  lemma HasItsParent(catalog: Catalog, tables: Tables, name: string, k: Key, f: nat)
    requires StoreOk(catalog, tables) && ParentsHold(catalog, tables)
    requires name in catalog && k in tables[name].rows && f < |catalog[name].foreignKeys|
    ensures var fk, row := catalog[name].foreignKeys[f], tables[name].rows[k];
            || SomeNull(row, fk.columns)
            || (fk.refTable in tables
                && exists p :: p in tables[fk.refTable].rows
                     && Same(tables[fk.refTable].rows[p], fk.refColumns, row, fk.columns))
  {
    hide Project, EncodeKey, Same, SomeNull, TableOk, ForeignKeyOk;
    var t, fk, row := catalog[name], catalog[name].foreignKeys[f], tables[name].rows[k];
    InTable(catalog, tables, name, f, k);
    NullProject(row, fk.columns);
    assert HasParent(tables, fk, row);
    if !AnyNull(Project(row, fk.columns)) {
      var rows := tables[fk.refTable].rows;
      var p :| p in rows && Project(rows[p], fk.refColumns) == Project(row, fk.columns);
      InParent(catalog, tables, name, f, p);
      SameProject(rows[p], fk.refColumns, row, fk.columns);
    }
  }

  lemma InTable(catalog: Catalog, tables: Tables, name: string, f: nat, k: Key)
    requires StoreOk(catalog, tables) && name in catalog && f < |catalog[name].foreignKeys| && k in tables[name].rows
    ensures InRow(tables[name].rows[k], catalog[name].foreignKeys[f].columns)
  {
    hide Project, EncodeKey;
    assert TableOk(catalog[name], tables[name]) && ForeignKeyOk(catalog, catalog[name], catalog[name].foreignKeys[f]);
    RowIs(catalog[name], tables[name], k);
  }

  lemma InParent(catalog: Catalog, tables: Tables, name: string, f: nat, p: Key)
    requires StoreOk(catalog, tables) && name in catalog && f < |catalog[name].foreignKeys|
    ensures var fk := catalog[name].foreignKeys[f];
            && fk.refTable in catalog && |fk.columns| == |fk.refColumns|
            && (p in tables[fk.refTable].rows ==> InRow(tables[fk.refTable].rows[p], fk.refColumns))
  {
    hide Project, EncodeKey;
    var fk := catalog[name].foreignKeys[f];
    assert ForeignKeyOk(catalog, catalog[name], fk);
    assert |TypesOf(catalog[name], fk.columns)| == |TypesOf(catalog[fk.refTable], fk.refColumns)|;
    if p in tables[fk.refTable].rows {
      assert TableOk(catalog[fk.refTable], tables[fk.refTable]);
      RowIs(catalog[fk.refTable], tables[fk.refTable], p);
    }
  }

  // ----- the tests of the writer

  lemma ValidExactly(t: TableDef, d: Table, row: Row)
    requires TableOk(t, d)
    ensures ValidRow(t, row) <==>
              && |row| == |t.types| == |t.nullable|
              && forall i :: 0 <= i < |row| ==> row[i].Matches(t.types[i]) && (row[i].Null? ==> t.nullable[i])
    ensures ValidRow(t, row) ==> RowMatches(row, t.types) && InRow(row, t.primaryKey)
    ensures ValidRow(t, row) ==> forall u :: 0 <= u < |t.indexes| ==> InRow(row, t.indexes[u].columns)
  {
    hide Project, EncodeKey, IndexKey;
  }

  /** Rows with the same primary key have the same key bytes, and no others. */
  lemma SameKey(t: TableDef, d: Table, row: Row, k: Key)
    requires TableOk(t, d) && RowMatches(row, t.types) && k in d.rows
    ensures k == PkKey(t, row) <==> Same(d.rows[k], t.primaryKey, row, t.primaryKey)
  {
    hide Project, EncodeKey, ValidRow, Same;
    RowIs(t, d, k);
    SameProject(d.rows[k], t.primaryKey, row, t.primaryKey);
    if k == PkKey(t, row) {
      ProjectMatches(t, row, t.primaryKey);
      ProjectMatches(t, d.rows[k], t.primaryKey);
      EncodeInjective(Project(row, t.primaryKey), Project(d.rows[k], t.primaryKey), TypesOf(t, t.primaryKey));
    }
  }

  lemma KeyFree(t: TableDef, d: Table, row: Row)
    requires TableOk(t, d) && RowMatches(row, t.types)
    ensures PkKey(t, row) !in d.rows <==> forall k :: k in d.rows ==> !Same(d.rows[k], t.primaryKey, row, t.primaryKey)
  {
    hide PkKey, TableOk, Same;
    forall k | k in d.rows ensures k == PkKey(t, row) <==> Same(d.rows[k], t.primaryKey, row, t.primaryKey) {
      SameKey(t, d, row, k);
    }
    if PkKey(t, row) in d.rows {
      assert Same(d.rows[PkKey(t, row)], t.primaryKey, row, t.primaryKey);
    }
  }

  lemma ValuesFree(t: TableDef, d: Table, row: Row, u: nat)
    requires TableOk(t, d) && RowMatches(row, t.types) && u < |t.indexes| && InRow(row, t.indexes[u].columns)
    ensures Unclaimed(t, d.rows, row, u) <==>
              || !t.indexes[u].unique || SomeNull(row, t.indexes[u].columns)
              || forall k :: k in d.rows ==> !Same(d.rows[k], t.indexes[u].columns, row, t.indexes[u].columns)
  {
    hide Project, ValidRow, Same, SomeNull;
    var columns := t.indexes[u].columns;
    NullProject(row, columns);
    forall k | k in d.rows
      ensures Project(d.rows[k], columns) == Project(row, columns) <==> Same(d.rows[k], columns, row, columns)
    {
      RowIs(t, d, k);
      SameProject(d.rows[k], columns, row, columns);
    }
  }

  lemma AllFree(t: TableDef, d: Table, row: Row, maxKey: nat)
    requires TableOk(t, d) && ValidRow(t, row)
    ensures (forall u :: 0 <= u < |t.indexes| ==> Welcome(t, d.rows, row, u, maxKey)) <==>
              && (forall u :: 0 <= u < |t.indexes| ==> |IndexKey(t, u, row)| <= maxKey)
              && forall u :: 0 <= u < |t.indexes| && t.indexes[u].unique ==>
                   || SomeNull(row, t.indexes[u].columns)
                   || forall k :: k in d.rows ==> !Same(d.rows[k], t.indexes[u].columns, row, t.indexes[u].columns)
  {
    hide IndexKey, Unclaimed, TableOk, Same, SomeNull, ValidRow;
    ValidExactly(t, d, row);
    forall u | 0 <= u < |t.indexes|
      ensures Welcome(t, d.rows, row, u, maxKey) <==>
                && |IndexKey(t, u, row)| <= maxKey
                && (|| !t.indexes[u].unique || SomeNull(row, t.indexes[u].columns)
                    || forall k :: k in d.rows ==>
                         !Same(d.rows[k], t.indexes[u].columns, row, t.indexes[u].columns))
    {
      ValuesFree(t, d, row, u);
    }
  }

  lemma ParentThere(catalog: Catalog, tables: Tables, name: string, f: nat, row: Row)
    requires StoreOk(catalog, tables) && name in catalog && f < |catalog[name].foreignKeys|
    requires ValidRow(catalog[name], row)
    ensures var fk := catalog[name].foreignKeys[f];
            && fk.refTable in catalog && InRow(row, fk.columns)
            && (ParentFound(catalog, tables, fk, Project(row, fk.columns)) <==>
                  exists p :: p in tables[fk.refTable].rows
                    && Same(tables[fk.refTable].rows[p], fk.refColumns, row, fk.columns))
  {
    hide Project, EncodeKey, ParentFound, Same;
    var fk := catalog[name].foreignKeys[f];
    assert ForeignKeyOk(catalog, catalog[name], fk);
    ParentFoundIs(catalog, tables, name, f, row);
    var rows := tables[fk.refTable].rows;
    forall p | p in rows
      ensures Project(rows[p], fk.refColumns) == Project(row, fk.columns)
              <==> Same(rows[p], fk.refColumns, row, fk.columns)
    {
      InParent(catalog, tables, name, f, p);
      SameProject(rows[p], fk.refColumns, row, fk.columns);
    }
  }

  lemma ParentsThere(catalog: Catalog, tables: Tables, name: string, row: Row, was: Option<Row>)
    requires StoreOk(catalog, tables) && name in catalog && ValidRow(catalog[name], row)
    requires Formed(Contents(catalog, tables)) && (was.Some? ==> ValidRow(catalog[name], was.value))
    ensures ParentsFound(catalog, tables, name, row, was) <==>
              forall f :: 0 <= f < |catalog[name].foreignKeys| ==>
                var fk := catalog[name].foreignKeys[f];
                || SomeNull(row, fk.columns) || (was.Some? && Same(row, fk.columns, was.value, fk.columns))
                || (fk.refTable in tables
                    && exists p :: p in tables[fk.refTable].rows
                         && Same(tables[fk.refTable].rows[p], fk.refColumns, row, fk.columns))
  {
    hide Project, ParentFound, AnyNull, TableOk, CatalogOk, ValidRow, Same, SomeNull;
    forall f | 0 <= f < |catalog[name].foreignKeys|
      ensures var fk := catalog[name].foreignKeys[f];
              && fk.refTable in tables
              && (AnyNull(Project(row, fk.columns)) <==> SomeNull(row, fk.columns))
              && (was.Some? ==> (Project(row, fk.columns) == Project(was.value, fk.columns)
                                 <==> Same(row, fk.columns, was.value, fk.columns)))
              && (ParentFound(catalog, tables, fk, Project(row, fk.columns)) <==>
                    exists p :: p in tables[fk.refTable].rows
                      && Same(tables[fk.refTable].rows[p], fk.refColumns, row, fk.columns))
    {
      ParentThere(catalog, tables, name, f, row);
      NullProject(row, catalog[name].foreignKeys[f].columns);
      if was.Some? {
        ParentThere(catalog, tables, name, f, was.value);
        SameProject(row, catalog[name].foreignKeys[f].columns, was.value, catalog[name].foreignKeys[f].columns);
      }
    }
  }

  lemma ChildThere(catalog: Catalog, tables: Tables, name: string, k: Key, after: Option<Row>, child: string, f: nat)
    requires StoreOk(catalog, tables) && name in catalog && k in tables[name].rows
    requires after.Some? ==> ValidRow(catalog[name], after.value)
    requires child in catalog && f < |catalog[child].foreignKeys| && catalog[child].foreignKeys[f].refTable == name
    requires |tables[child].entries| == |catalog[child].indexes|
    ensures var fk, row := catalog[child].foreignKeys[f], tables[name].rows[k];
            !Orphans(catalog, tables, name, row, after, child, f) <==>
              || SomeNull(row, fk.refColumns) || (after.Some? && Same(row, fk.refColumns, after.value, fk.refColumns))
              || forall x :: x in tables[child].rows ==> !Same(tables[child].rows[x], fk.columns, row, fk.refColumns)
  {
    hide Project, ChildFound, ValidRow, Same, SomeNull, TableOk, AnyNull;
    var fk, row := catalog[child].foreignKeys[f], tables[name].rows[k];
    InParent(catalog, tables, child, f, k);
    NullProject(row, fk.refColumns);
    if after.Some? {
      InAfter(catalog, tables, child, f, after.value);
      SameProject(row, fk.refColumns, after.value, fk.refColumns);
    }
    RowValid(catalog[name], tables[name], k);
    ChildFoundIs(catalog, tables, child, f, row);
    forall x | x in tables[child].rows
      ensures Project(tables[child].rows[x], fk.columns) == Project(row, fk.refColumns)
              <==> Same(tables[child].rows[x], fk.columns, row, fk.refColumns)
    {
      InTable(catalog, tables, child, f, x);
      SameProject(tables[child].rows[x], fk.columns, row, fk.refColumns);
    }
  }

  lemma RowValid(t: TableDef, d: Table, k: Key)
    requires TableOk(t, d) && k in d.rows
    ensures ValidRow(t, d.rows[k])
  {
  }

  lemma InAfter(catalog: Catalog, tables: Tables, name: string, f: nat, row: Row)
    requires StoreOk(catalog, tables) && name in catalog && f < |catalog[name].foreignKeys|
    requires catalog[name].foreignKeys[f].refTable in catalog
    requires ValidRow(catalog[catalog[name].foreignKeys[f].refTable], row)
    ensures InRow(row, catalog[name].foreignKeys[f].refColumns)
  {
    assert ForeignKeyOk(catalog, catalog[name], catalog[name].foreignKeys[f]);
  }

  lemma ChildrenThere(catalog: Catalog, tables: Tables, name: string, k: Key, after: Option<Row>)
    requires StoreOk(catalog, tables) && name in catalog && k in tables[name].rows
    requires Formed(Contents(catalog, tables)) && (after.Some? ==> ValidRow(catalog[name], after.value))
    ensures NoChildren(catalog, tables, name, tables[name].rows[k], after) <==>
              forall child, f :: child in catalog && 0 <= f < |catalog[child].foreignKeys| ==>
                var fk, row := catalog[child].foreignKeys[f], tables[name].rows[k];
                || fk.refTable != name || SomeNull(row, fk.refColumns)
                || (after.Some? && Same(row, fk.refColumns, after.value, fk.refColumns))
                || forall x :: x in tables[child].rows ==>
                     !Same(tables[child].rows[x], fk.columns, row, fk.refColumns)
  {
    hide Project, ChildFound, AnyNull, TableOk, CatalogOk, ValidRow, Same, SomeNull;
    forall child, f | child in catalog && 0 <= f < |catalog[child].foreignKeys|
      ensures var fk, row := catalog[child].foreignKeys[f], tables[name].rows[k];
              !Orphans(catalog, tables, name, row, after, child, f) <==>
                || fk.refTable != name || SomeNull(row, fk.refColumns)
                || (after.Some? && Same(row, fk.refColumns, after.value, fk.refColumns))
                || forall x :: x in tables[child].rows ==>
                     !Same(tables[child].rows[x], fk.columns, row, fk.refColumns)
    {
      if catalog[child].foreignKeys[f].refTable == name { ChildThere(catalog, tables, name, k, after, child, f); }
    }
  }

  lemma StoreIsFormed(c: Contents)
    requires StoreOk(c.catalog, c.tables)
    ensures Formed(c)
  {
    forall n | n in c.catalog ensures |c.tables[n].entries| == |c.catalog[n].indexes| {
      assert TableOk(c.catalog[n], c.tables[n]);
    }
  }

  // ----- exactly which rows are taken, removed and replaced

  /** A row is inserted exactly if its values have the types of the columns, null only where that is allowed, its keys
      are short enough, its primary key and its values in unique indexes are free, and its parents are there. */
  lemma InsertExactly(c: Contents, maxKey: nat, name: string, row: Row)
    requires StoreOk(c.catalog, c.tables) && name in c.catalog
    ensures var t, rows := c.catalog[name], c.tables[name].rows;
            MayInsert(c, maxKey, name, row) <==>
              && |row| == |t.types| == |t.nullable|
              && (forall i :: 0 <= i < |row| ==> row[i].Matches(t.types[i]) && (row[i].Null? ==> t.nullable[i]))
              && |PkKey(t, row)| <= maxKey && (forall u :: 0 <= u < |t.indexes| ==> |IndexKey(t, u, row)| <= maxKey)
              && (forall k :: k in rows ==> !Same(rows[k], t.primaryKey, row, t.primaryKey))
              && (forall u :: 0 <= u < |t.indexes| && t.indexes[u].unique ==>
                    || SomeNull(row, t.indexes[u].columns)
                    || forall k :: k in rows ==> !Same(rows[k], t.indexes[u].columns, row, t.indexes[u].columns))
              && forall f :: 0 <= f < |t.foreignKeys| ==>
                   var fk := t.foreignKeys[f];
                   || SomeNull(row, fk.columns)
                   || (fk.refTable in c.tables
                       && exists p :: p in c.tables[fk.refTable].rows
                            && Same(c.tables[fk.refTable].rows[p], fk.refColumns, row, fk.columns))
  {
    hide PkKey, IndexKey, Project, Welcome, ParentsFound, TableOk, CatalogOk, Same, SomeNull, ValidRow;
    var t, d := c.catalog[name], c.tables[name];
    assert TableOk(t, d);
    StoreIsFormed(c);
    ValidExactly(t, d, row);
    if ValidRow(t, row) {
      KeyFree(t, d, row);
      AllFree(t, d, row, maxKey);
      ParentsThere(c.catalog, c.tables, name, row, None);
    }
  }

  /** A row is removed exactly if there is one with the values in its primary key, none of them null, and no row that
      refers to it by values without a null. */
  lemma RemoveExactly(c: Contents, name: string, primaryKey: Row, columns: seq<nat>)
    requires StoreOk(c.catalog, c.tables) && name in c.catalog && |columns| == |primaryKey|
    requires forall i :: 0 <= i < |columns| ==> columns[i] == i
    ensures var t, rows := c.catalog[name], c.tables[name].rows;
            MayRemove(c, name, primaryKey) <==>
              && !SomeNull(primaryKey, columns)
              && exists k :: k in rows && Same(rows[k], t.primaryKey, primaryKey, columns)
                   && forall child, f :: child in c.catalog && 0 <= f < |c.catalog[child].foreignKeys| ==>
                        var fk := c.catalog[child].foreignKeys[f];
                        || fk.refTable != name || SomeNull(rows[k], fk.refColumns)
                        || forall x :: x in c.tables[child].rows ==>
                             !Same(c.tables[child].rows[x], fk.columns, rows[k], fk.refColumns)
  {
    hide PkKey, IndexKey, Project, NoChildren, TableOk, CatalogOk, Same, SomeNull, ValidRow, EncodeKey, TypesOf;
    var t, d := c.catalog[name], c.tables[name];
    assert TableOk(t, d);
    StoreIsFormed(c);
    ProjectAll(primaryKey, columns);
    NullProject(primaryKey, columns);
    forall k | k in d.rows
      ensures Same(d.rows[k], t.primaryKey, primaryKey, columns) <==>
                RowMatches(primaryKey, TypesOf(t, t.primaryKey)) && k == EncodeKey(primaryKey)
    {
      SameBytes(t, d, primaryKey, columns, k);
    }
    forall k | k in d.rows
      ensures NoChildren(c.catalog, c.tables, name, d.rows[k], None) <==>
                forall child, f :: child in c.catalog && 0 <= f < |c.catalog[child].foreignKeys| ==>
                  var fk := c.catalog[child].foreignKeys[f];
                  || fk.refTable != name || SomeNull(d.rows[k], fk.refColumns)
                  || forall x :: x in c.tables[child].rows ==>
                       !Same(c.tables[child].rows[x], fk.columns, d.rows[k], fk.refColumns)
    {
      ChildrenThere(c.catalog, c.tables, name, k, None);
    }
  }

  lemma {:induction false} ProjectAll(row: Row, columns: seq<nat>)
    requires |columns| == |row| && forall i :: 0 <= i < |columns| ==> columns[i] == i
    ensures Project(row, columns) == row && InRow(row, columns)
  {
    hide Project;
    assert forall i :: 0 <= i < |row| ==> Project(row, columns)[i] == row[i];
  }

  lemma SameBytes(t: TableDef, d: Table, primaryKey: Row, columns: seq<nat>, k: Key)
    requires TableOk(t, d) && k in d.rows && |columns| == |primaryKey|
    requires forall i :: 0 <= i < |columns| ==> columns[i] == i
    ensures Same(d.rows[k], t.primaryKey, primaryKey, columns) <==>
              RowMatches(primaryKey, TypesOf(t, t.primaryKey)) && k == EncodeKey(primaryKey)
  {
    hide Project, EncodeKey, ValidRow, Same, TypesOf;
    RowIs(t, d, k);
    ProjectAll(primaryKey, columns);
    SameProject(d.rows[k], t.primaryKey, primaryKey, columns);
    ProjectMatches(t, d.rows[k], t.primaryKey);
    if RowMatches(primaryKey, TypesOf(t, t.primaryKey)) && k == EncodeKey(primaryKey) {
      EncodeInjective(Project(d.rows[k], t.primaryKey), primaryKey, TypesOf(t, t.primaryKey));
    }
  }

  /** A row replaces the one with its primary key exactly if it is valid, and for every index, every foreign key and
      every foreign key to it, either the values stay or those it takes are short enough, free and there, and those it
      gives up are not referred to. */
  lemma UpdateExactly(c: Contents, maxKey: nat, name: string, row: Row)
    requires StoreOk(c.catalog, c.tables) && name in c.catalog
    ensures var t, rows := c.catalog[name], c.tables[name].rows;
            MayUpdate(c, maxKey, name, row) <==>
              && |row| == |t.types| == |t.nullable|
              && (forall i :: 0 <= i < |row| ==> row[i].Matches(t.types[i]) && (row[i].Null? ==> t.nullable[i]))
              && exists w :: w in rows && Same(rows[w], t.primaryKey, row, t.primaryKey)
                   && (forall u :: 0 <= u < |t.indexes| ==>
                         || Same(row, t.indexes[u].columns, rows[w], t.indexes[u].columns)
                         || (|IndexKey(t, u, row)| <= maxKey
                             && (|| !t.indexes[u].unique || SomeNull(row, t.indexes[u].columns)
                                 || forall k :: k in rows ==>
                                      !Same(rows[k], t.indexes[u].columns, row, t.indexes[u].columns))))
                   && (forall f :: 0 <= f < |t.foreignKeys| ==>
                         var fk := t.foreignKeys[f];
                         || SomeNull(row, fk.columns) || Same(row, fk.columns, rows[w], fk.columns)
                         || (fk.refTable in c.tables
                             && exists p :: p in c.tables[fk.refTable].rows
                                  && Same(c.tables[fk.refTable].rows[p], fk.refColumns, row, fk.columns)))
                   && forall child, f :: child in c.catalog && 0 <= f < |c.catalog[child].foreignKeys| ==>
                        var fk := c.catalog[child].foreignKeys[f];
                        || fk.refTable != name || SomeNull(rows[w], fk.refColumns)
                        || Same(rows[w], fk.refColumns, row, fk.refColumns)
                        || forall x :: x in c.tables[child].rows ==>
                             !Same(c.tables[child].rows[x], fk.columns, rows[w], fk.refColumns)
  {
    hide PkKey, IndexKey, Project, Unclaimed, ParentsFound, NoChildren, TableOk, CatalogOk, Same, SomeNull, ValidRow;
    var t, d := c.catalog[name], c.tables[name];
    assert TableOk(t, d);
    StoreIsFormed(c);
    ValidExactly(t, d, row);
    if ValidRow(t, row) {
      forall k | k in d.rows ensures k == PkKey(t, row) <==> Same(d.rows[k], t.primaryKey, row, t.primaryKey) {
        SameKey(t, d, row, k);
      }
      if PkKey(t, row) in d.rows {
        var w := PkKey(t, row);
        RowValid(t, d, w);
        IndexesExactly(t, d, row, w, maxKey);
        ParentsThere(c.catalog, c.tables, name, row, Some(d.rows[w]));
        ChildrenThere(c.catalog, c.tables, name, w, Some(row));
      }
    }
  }

  lemma IndexesExactly(t: TableDef, d: Table, row: Row, w: Key, maxKey: nat)
    requires TableOk(t, d) && ValidRow(t, row) && w in d.rows
    ensures IndexesTake(t, d.rows, row, Some(d.rows[w]), maxKey) <==>
              forall u :: 0 <= u < |t.indexes| ==>
                || Same(row, t.indexes[u].columns, d.rows[w], t.indexes[u].columns)
                || (|IndexKey(t, u, row)| <= maxKey
                    && (|| !t.indexes[u].unique || SomeNull(row, t.indexes[u].columns)
                        || forall k :: k in d.rows ==>
                             !Same(d.rows[k], t.indexes[u].columns, row, t.indexes[u].columns)))
  {
    hide PkKey, IndexKey, Project, Unclaimed, TableOk, Same, SomeNull, ValidRow;
    ValidExactly(t, d, row);
    RowIs(t, d, w);
    forall u | 0 <= u < |t.indexes|
      ensures Project(row, t.indexes[u].columns) == Project(d.rows[w], t.indexes[u].columns)
              <==> Same(row, t.indexes[u].columns, d.rows[w], t.indexes[u].columns)
      ensures Unclaimed(t, d.rows, row, u) <==>
                || !t.indexes[u].unique || SomeNull(row, t.indexes[u].columns)
                || forall k :: k in d.rows ==> !Same(d.rows[k], t.indexes[u].columns, row, t.indexes[u].columns)
    {
      ValuesFree(t, d, row, u);
      SameProject(row, t.indexes[u].columns, d.rows[w], t.indexes[u].columns);
    }
  }

  // ----- and what that does to the rows

  /** The row is there besides all the others; no other table changes, and no definition. */
  lemma InsertedRows(c: Contents, maxKey: nat, name: string, row: Row)
    requires StoreOk(c.catalog, c.tables) && MayInsert(c, maxKey, name, row)
    ensures var c' := Effect(c, maxKey, InsertRow(name, row));
            && c'.catalog == c.catalog && c'.tables.Keys == c.tables.Keys
            && (forall n :: n in c.tables && n != name ==> c'.tables[n] == c.tables[n])
            && row !in c.tables[name].rows.Values
            && c'.tables[name].rows.Values == c.tables[name].rows.Values + {row}
  {
    hide Insertable, ParentsFound, CatalogOk, PkKey;
    var t, rows := c.catalog[name], c.tables[name].rows;
    assert TableOk(t, c.tables[name]);
    IsNew(t, c.tables[name], row, maxKey);
    ValuesWith(rows, PkKey(t, row), row);
  }

  lemma IsNew(t: TableDef, d: Table, row: Row, maxKey: nat)
    requires TableOk(t, d) && Insertable(t, d.rows, row, maxKey)
    ensures PkKey(t, row) !in d.rows && row !in d.rows.Values
  {
    hide Project, EncodeKey, Welcome;
    forall k | k in d.rows ensures d.rows[k] != row { RowIs(t, d, k); }
  }

  lemma ValuesWith(rows: map<Key, Row>, k: Key, row: Row)
    requires k !in rows
    ensures rows[k := row].Values == rows.Values + {row}
  {
    var rows' := rows[k := row];
    assert rows'[k] == row;
    forall r | r in rows.Values ensures r in rows'.Values {
      var j :| j in rows && rows[j] == r;
      assert rows'[j] == r;
    }
  }

  /** Of the rows only the one with that primary key is gone. */
  lemma RemovedRows(c: Contents, maxKey: nat, name: string, primaryKey: Row, columns: seq<nat>)
    requires StoreOk(c.catalog, c.tables) && MayRemove(c, name, primaryKey) && |columns| == |primaryKey|
    requires forall i :: 0 <= i < |columns| ==> columns[i] == i
    ensures var c', t := Effect(c, maxKey, RemoveRow(name, primaryKey)), c.catalog[name];
            && c'.catalog == c.catalog && c'.tables.Keys == c.tables.Keys
            && (forall n :: n in c.tables && n != name ==> c'.tables[n] == c.tables[n])
            && forall r :: r in c'.tables[name].rows.Values <==>
                 r in c.tables[name].rows.Values && !Same(r, t.primaryKey, primaryKey, columns)
  {
    hide NoChildren, CatalogOk, EncodeKey, TypesOf, TableOk, Same;
    var t, d, key := c.catalog[name], c.tables[name], EncodeKey(primaryKey);
    assert TableOk(t, d);
    var rows' := Effect(c, maxKey, RemoveRow(name, primaryKey)).tables[name].rows;
    assert rows' == d.rows - {key};
    forall k | k in d.rows ensures Same(d.rows[k], t.primaryKey, primaryKey, columns) <==> k == key {
      SameBytes(t, d, primaryKey, columns, k);
    }
    forall r | r in d.rows.Values && !Same(r, t.primaryKey, primaryKey, columns) ensures r in rows'.Values {
      var k :| k in d.rows && d.rows[k] == r;
      assert rows'[k] == r;
    }
  }

  /** The row takes the place of the one with its primary key. */
  lemma ReplacedRows(c: Contents, maxKey: nat, name: string, row: Row)
    requires StoreOk(c.catalog, c.tables) && MayUpdate(c, maxKey, name, row)
    ensures var c', t := Effect(c, maxKey, UpdateRow(name, row)), c.catalog[name];
            && c'.catalog == c.catalog && c'.tables.Keys == c.tables.Keys
            && (forall n :: n in c.tables && n != name ==> c'.tables[n] == c.tables[n])
            && forall r :: r in c'.tables[name].rows.Values <==>
                 r == row || (r in c.tables[name].rows.Values && !Same(r, t.primaryKey, row, t.primaryKey))
  {
    hide NoChildren, ParentsFound, IndexesTake, CatalogOk, PkKey, TableOk, Same;
    var t, d, key := c.catalog[name], c.tables[name], PkKey(c.catalog[name], row);
    assert TableOk(t, d);
    ValidExactly(t, d, row);
    var rows' := Effect(c, maxKey, UpdateRow(name, row)).tables[name].rows;
    assert rows' == d.rows[key := row] && rows'[key] == row;
    forall k | k in d.rows ensures Same(d.rows[k], t.primaryKey, row, t.primaryKey) <==> k == key {
      SameKey(t, d, row, k);
    }
    forall r | r in d.rows.Values && !Same(r, t.primaryKey, row, t.primaryKey) ensures r in rows'.Values {
      var k :| k in d.rows && d.rows[k] == r;
      assert rows'[k] == r;
    }
  }

  // ----- tables and indexes

  /** Some columns of a table, each once. */
  ghost predicate SomeColumns(t: TableDef, columns: seq<nat>) {
    && columns != [] && (forall i :: 0 <= i < |columns| ==> columns[i] < |t.types|)
    && forall i, j :: 0 <= i < j < |columns| ==> columns[i] != columns[j]
  }

  /** Two lists of columns are equally long, and of the same types. */
  ghost predicate TypesMatch(a: TableDef, ca: seq<nat>, b: TableDef, cb: seq<nat>) {
    |ca| == |cb| && forall i :: 0 <= i < |ca| ==>
      ca[i] < |a.types| && cb[i] < |b.types| && a.types[ca[i]] == b.types[cb[i]]
  }

  /** The columns lead the primary key or an index, and the columns referred to, of the same types, are the primary key
      or a unique index of their table. */
  ghost predicate Refers(t: TableDef, parent: TableDef, fk: ForeignKey) {
    && TypesMatch(t, fk.columns, parent, fk.refColumns)
    && (|| fk.refColumns == parent.primaryKey
        || exists j :: 0 <= j < |parent.indexes| && parent.indexes[j].unique
             && parent.indexes[j].columns == fk.refColumns)
    && (fk.columns <= t.primaryKey || exists j :: 0 <= j < |t.indexes| && fk.columns <= t.indexes[j].columns)
  }

  lemma ForeignKeyExactly(catalog: Catalog, t: TableDef, fk: ForeignKey)
    requires fk.refTable in catalog
    ensures ForeignKeyOk(catalog, t, fk) <==> Refers(t, catalog[fk.refTable], fk)
  {
    var parent := catalog[fk.refTable];
    if ColumnsOk(t, fk.columns) && ColumnsOk(parent, fk.refColumns) {
      assert TypesOf(t, fk.columns) == TypesOf(parent, fk.refColumns) <==>
               TypesMatch(t, fk.columns, parent, fk.refColumns) by {
        hide TypesOf;
        var a, b := TypesOf(t, fk.columns), TypesOf(parent, fk.refColumns);
        if a == b {
          forall i | 0 <= i < |a| ensures t.types[fk.columns[i]] == parent.types[fk.refColumns[i]] {
            assert a[i] == b[i];
          }
        }
      }
    }
    if j :| 0 <= j < |parent.indexes| && parent.indexes[j].unique && parent.indexes[j].columns == fk.refColumns {
      assert IsTarget(parent, fk, j);
    }
    if j :| 0 <= j < |t.indexes| && fk.columns <= t.indexes[j].columns {
      assert IsSupport(t, fk, j);
    }
  }

  /** A table is created exactly if its name is free; it has between 1 and 4096 columns; its primary key and its indexes
      are columns of it, each once; and its foreign keys have columns, and refer to a table there is, or to itself.
      Columns of the primary key then take no null. */
  lemma CreateExactly(c: Contents, maxKey: nat, name: string, def: TableDef)
    ensures MayCreate(c, name, def) <==>
              && name !in c.catalog && 0 < |def.types| == |def.nullable| <= 4096 && SomeColumns(def, def.primaryKey)
              && (forall u :: 0 <= u < |def.indexes| ==> SomeColumns(def, def.indexes[u].columns))
              && forall f :: 0 <= f < |def.foreignKeys| ==>
                   var fk := def.foreignKeys[f];
                   && fk.columns != [] && (fk.refTable == name || fk.refTable in c.catalog)
                   && Refers(def, if fk.refTable == name then def else c.catalog[fk.refTable], fk)
    ensures MayCreate(c, name, def) ==>
              var c' := Effect(c, maxKey, CreateTable(name, def));
              && c'.catalog.Keys == c.catalog.Keys + {name} && c'.tables.Keys == c.tables.Keys + {name}
              && (forall n :: n in c.catalog ==> c'.catalog[n] == c.catalog[n])
              && (forall n :: n in c.tables && n != name ==> c'.tables[n] == c.tables[n])
              && c'.tables[name].rows == map[] && c'.catalog[name] == def.(nullable := c'.catalog[name].nullable)
              && |c'.catalog[name].nullable| == |def.nullable|
              && forall i :: 0 <= i < |def.nullable| ==>
                   (c'.catalog[name].nullable[i] <==> def.nullable[i] && i !in def.primaryKey)
  {
    hide ForeignKeyOk, Refers;
    var t := KeyNotNull(def);
    forall f | 0 <= f < |def.foreignKeys|
      ensures var fk := def.foreignKeys[f];
              ForeignKeyOk(c.catalog[name := t], t, fk) <==>
                && (fk.refTable == name || fk.refTable in c.catalog)
                && Refers(def, if fk.refTable == name then def else c.catalog[fk.refTable], fk)
    {
      var fk := def.foreignKeys[f];
      if fk.refTable == name || fk.refTable in c.catalog {
        ForeignKeyExactly(c.catalog[name := t], t, fk);
        if fk.refTable == name { RefersSame(t, t, def, def, fk); } else {
          RefersSame(t, c.catalog[fk.refTable], def, c.catalog[fk.refTable], fk);
        }
      } else {
        NoTable(c.catalog[name := t], t, fk);
      }
    }
  }

  lemma RefersSame(t: TableDef, parent: TableDef, t': TableDef, parent': TableDef, fk: ForeignKey)
    requires t == t'.(nullable := t.nullable) && parent == parent'.(nullable := parent.nullable)
    ensures Refers(t, parent, fk) <==> Refers(t', parent', fk)
  {
  }

  lemma NoTable(catalog: Catalog, t: TableDef, fk: ForeignKey)
    requires fk.refTable !in catalog
    ensures !ForeignKeyOk(catalog, t, fk)
  {
  }

  /** A table is dropped exactly if no other table refers to it. */
  lemma DropExactly(c: Contents, maxKey: nat, name: string)
    ensures MayDrop(c, name) <==>
              && name in c.catalog
              && forall n, f :: n in c.catalog && n != name && 0 <= f < |c.catalog[n].foreignKeys| ==>
                   c.catalog[n].foreignKeys[f].refTable != name
    ensures MayDrop(c, name) ==>
              var c' := Effect(c, maxKey, DropTable(name));
              && c'.catalog.Keys == c.catalog.Keys - {name} && c'.tables.Keys == c.tables.Keys - {name}
              && (forall n :: n in c'.catalog ==> c'.catalog[n] == c.catalog[n])
              && forall n :: n in c'.tables ==> c'.tables[n] == c.tables[n]
  {
    forall n | n in c.catalog
      ensures RefersTo(c.catalog[n], n, name) <==>
                && n != name
                && exists f :: 0 <= f < |c.catalog[n].foreignKeys| && c.catalog[n].foreignKeys[f].refTable == name
    {
    }
  }

  /** An index is created exactly if it is of columns of the table, each once, the keys of all rows are short enough
      and, if it is unique, no two rows have the same values in it without a null. */
  lemma IndexExactly(c: Contents, maxKey: nat, name: string, index: IndexDef)
    requires StoreOk(c.catalog, c.tables) && name in c.catalog
    ensures var t, rows := c.catalog[name].(indexes := c.catalog[name].indexes + [index]), c.tables[name].rows;
            MayIndex(c, maxKey, name, index) <==>
              && SomeColumns(t, index.columns)
              && (forall k :: k in rows ==> |IndexKey(t, |t.indexes| - 1, rows[k])| <= maxKey)
              && (index.unique ==> forall j, k :: j in rows && k in rows && j != k ==>
                    SomeNull(rows[j], index.columns) || !Same(rows[j], index.columns, rows[k], index.columns))
    ensures MayIndex(c, maxKey, name, index) ==>
              var c' := Effect(c, maxKey, CreateIndex(name, index));
              && c'.catalog == c.catalog[name := c.catalog[name].(indexes := c.catalog[name].indexes + [index])]
              && c'.tables.Keys == c.tables.Keys && c'.tables[name].rows == c.tables[name].rows
              && forall n :: n in c.tables && n != name ==> c'.tables[n] == c.tables[n]
  {
    hide IndexKey, Project, Same, SomeNull, TableOk, CatalogOk;
    var t, d := c.catalog[name], c.tables[name];
    assert TableOk(t, d);
    if SomeColumns(t, index.columns) {
      forall j, k | j in d.rows && k in d.rows
        ensures Project(d.rows[j], index.columns) == Project(d.rows[k], index.columns)
                <==> Same(d.rows[j], index.columns, d.rows[k], index.columns)
        ensures AnyNull(Project(d.rows[j], index.columns)) <==> SomeNull(d.rows[j], index.columns)
      {
        RowIs(t, d, j);
        RowIs(t, d, k);
        SameProject(d.rows[j], index.columns, d.rows[k], index.columns);
        NullProject(d.rows[j], index.columns);
      }
    }
  }

  /** An index is dropped exactly if without it the columns of every foreign key of the table still lead the primary key
      or an index, and every foreign key to the table still refers to the primary key or a unique index. */
  lemma UnindexExactly(c: Contents, maxKey: nat, name: string, i: nat)
    requires StoreOk(c.catalog, c.tables) && DefsOk(c.catalog) && name in c.catalog
    ensures var t := c.catalog[name];
            MayUnindex(c, name, i) <==>
              && i < |t.indexes|
              && (forall f :: 0 <= f < |t.foreignKeys| ==>
                    || t.foreignKeys[f].columns <= t.primaryKey
                    || exists j :: 0 <= j < |t.indexes| && j != i && t.foreignKeys[f].columns <= t.indexes[j].columns)
              && forall n, f :: n in c.catalog && 0 <= f < |c.catalog[n].foreignKeys| ==>
                   var fk := c.catalog[n].foreignKeys[f];
                   || fk.refTable != name || fk.refColumns == t.primaryKey
                   || exists j :: 0 <= j < |t.indexes| && j != i && t.indexes[j].unique
                        && t.indexes[j].columns == fk.refColumns
    ensures MayUnindex(c, name, i) ==>
              var c', t := Effect(c, maxKey, DropIndex(name, i)), c.catalog[name];
              && c'.catalog == c.catalog[name := t.(indexes := t.indexes[..i] + t.indexes[i + 1..])]
              && c'.tables.Keys == c.tables.Keys && c'.tables[name].rows == c.tables[name].rows
              && forall n :: n in c.tables && n != name ==> c'.tables[n] == c.tables[n]
  {
    hide Supported, Target, TableOk, ForeignKeyOk;
    var t := c.catalog[name];
    StoreIsFormed(c);
    if i < |t.indexes| {
      WithoutOk(c.catalog, name, i);
      forall f | 0 <= f < |t.foreignKeys|
        ensures Supported(WithoutIndex(t, i), t.foreignKeys[f]) <==>
                  || t.foreignKeys[f].columns <= t.primaryKey
                  || exists j :: 0 <= j < |t.indexes| && j != i && t.foreignKeys[f].columns <= t.indexes[j].columns
      {
        StillSupported(t, i, t.foreignKeys[f]);
      }
      forall n, f | n in c.catalog && 0 <= f < |c.catalog[n].foreignKeys|
        ensures Target(WithoutIndex(t, i), c.catalog[n].foreignKeys[f]) <==>
                  || c.catalog[n].foreignKeys[f].refColumns == t.primaryKey
                  || exists j :: 0 <= j < |t.indexes| && j != i && t.indexes[j].unique
                       && t.indexes[j].columns == c.catalog[n].foreignKeys[f].refColumns
      {
        StillTarget(t, i, c.catalog[n].foreignKeys[f]);
      }
    }
  }

  lemma WithoutOk(catalog: Catalog, name: string, i: nat)
    requires DefsOk(catalog) && name in catalog && i < |catalog[name].indexes|
    ensures WellFormed(WithoutIndex(catalog[name], i)) && Plain(WithoutIndex(catalog[name], i))
  {
    var t, without := catalog[name], WithoutIndex(catalog[name], i);
    assert forall j :: 0 <= j < |without.indexes| ==> without.indexes[j] == t.indexes[if j < i then j else j + 1];
  }

  lemma StillSupported(t: TableDef, i: nat, fk: ForeignKey)
    requires i < |t.indexes|
    ensures Supported(WithoutIndex(t, i), fk) <==>
              || fk.columns <= t.primaryKey
              || exists j :: 0 <= j < |t.indexes| && j != i && fk.columns <= t.indexes[j].columns
  {
    var without := WithoutIndex(t, i);
    if k :| 0 <= k < |without.indexes| && IsSupport(without, fk, k) {
      var j := if k < i then k else k + 1;
      assert without.indexes[k] == t.indexes[j];
    }
    if j :| 0 <= j < |t.indexes| && j != i && fk.columns <= t.indexes[j].columns {
      var k := if j < i then j else j - 1;
      assert without.indexes[k] == t.indexes[j] && IsSupport(without, fk, k);
    }
  }

  lemma StillTarget(t: TableDef, i: nat, fk: ForeignKey)
    requires i < |t.indexes|
    ensures Target(WithoutIndex(t, i), fk) <==>
              || fk.refColumns == t.primaryKey
              || exists j :: 0 <= j < |t.indexes| && j != i && t.indexes[j].unique
                   && t.indexes[j].columns == fk.refColumns
  {
    hide Target;
    TargetWithout(t, i, fk);
    if j :| 0 <= j < |t.indexes| && j != i && t.indexes[j].unique && t.indexes[j].columns == fk.refColumns {
      assert IsUniqueOn(t, j, fk.refColumns);
    }
  }
}
