/** The operations of a write transaction on the store: rows, tables and indexes (Writer in
    engine/src/engine/store.cpp). */
module StoreWriter {
  import opened PageFormat
  import opened KeyOrder
  import opened KeyCodec
  import opened Store
  import opened Schema

  // ----- what each operation does

  /** Definitions, and the contents of every table's trees. */
  datatype Contents = Contents(catalog: Catalog, tables: Tables)

  ghost predicate Formed(c: Contents) {
    && CatalogOk(c.catalog) && c.tables.Keys == c.catalog.Keys
    && forall n :: n in c.catalog ==> |c.tables[n].entries| == |c.catalog[n].indexes|
  }

  ghost predicate MayInsert(c: Contents, maxKey: nat, name: string, row: Row) {
    && Formed(c) && name in c.catalog
    && Insertable(c.catalog[name], c.tables[name].rows, row, maxKey)
    && ParentsFound(c.catalog, c.tables, name, row, None)
  }

  /** A row with this primary key is there; index keys that change are short and free; foreign keys that change
      find their parent; and no child names values that are given up. */
  ghost predicate MayUpdate(c: Contents, maxKey: nat, name: string, row: Row) {
    && Formed(c) && name in c.catalog && ValidRow(c.catalog[name], row)
    && PkKey(c.catalog[name], row) in c.tables[name].rows
    && var was := c.tables[name].rows[PkKey(c.catalog[name], row)];
       && IndexesTake(c.catalog[name], c.tables[name].rows, row, Some(was), maxKey)
       && ParentsFound(c.catalog, c.tables, name, row, Some(was))
       && NoChildren(c.catalog, c.tables, name, was, Some(row))
  }

  ghost predicate IndexesTake(t: TableDef, rows: map<Key, Row>, row: Row, was: Option<Row>, maxKey: nat) {
    forall i :: 0 <= i < |t.indexes| ==>
      (was.Some? && Project(row, t.indexes[i].columns) == Project(was.value, t.indexes[i].columns))
        || Welcome(t, rows, row, i, maxKey)
  }

  ghost predicate MayRemove(c: Contents, name: string, primaryKey: Row) {
    && Formed(c) && name in c.catalog
    && RowMatches(primaryKey, TypesOf(c.catalog[name], c.catalog[name].primaryKey)) && !AnyNull(primaryKey)
    && EncodeKey(primaryKey) in c.tables[name].rows
    && NoChildren(c.catalog, c.tables, name, c.tables[name].rows[EncodeKey(primaryKey)], None)
  }

  ghost predicate MayCreate(c: Contents, name: string, def: TableDef) {
    name !in c.catalog && ValidDef(c.catalog, name, KeyNotNull(def))
  }

  ghost predicate MayDrop(c: Contents, name: string) {
    name in c.catalog && forall other :: other in c.catalog ==> !RefersTo(c.catalog[other], other, name)
  }

  ghost predicate MayIndex(c: Contents, maxKey: nat, name: string, index: IndexDef) {
    && name in c.catalog && name in c.tables && Once(index.columns) && ColumnsOk(c.catalog[name], index.columns)
    && var t := WithIndex(c.catalog[name], index);
       AllFit(t, c.tables[name].rows, |t.indexes| - 1, maxKey) && UniqueOk(t, c.tables[name].rows, |t.indexes| - 1)
  }

  ghost predicate MayUnindex(c: Contents, name: string, i: nat) {
    && name in c.catalog && name in c.tables && i < |c.catalog[name].indexes| == |c.tables[name].entries|
    && Reindexed(c.catalog, name, WithoutIndex(c.catalog[name], i))
  }

  datatype Command =
    | InsertRow(name: string, row: Row)
    | UpdateRow(name: string, row: Row)
    | RemoveRow(name: string, primaryKey: Row)
    | CreateTable(name: string, def: TableDef)
    | DropTable(name: string)
    | CreateIndex(name: string, index: IndexDef)
    | DropIndex(name: string, i: nat)

  ghost predicate May(c: Contents, maxKey: nat, command: Command) {
    match command
    case InsertRow(name, row) => MayInsert(c, maxKey, name, row)
    case UpdateRow(name, row) => MayUpdate(c, maxKey, name, row)
    case RemoveRow(name, primaryKey) => MayRemove(c, name, primaryKey)
    case CreateTable(name, def) => MayCreate(c, name, def)
    case DropTable(name) => MayDrop(c, name)
    case CreateIndex(name, index) => MayIndex(c, maxKey, name, index)
    case DropIndex(name, i) => MayUnindex(c, name, i)
  }

  /** A command that may not be done changes nothing. */
  ghost function Effect(c: Contents, maxKey: nat, command: Command): Contents {
    if !May(c, maxKey, command) then c else
    match command
    case InsertRow(name, row) => c.(tables := c.tables[name := Inserted(c.catalog[name], c.tables[name], row)])
    case UpdateRow(name, row) => c.(tables := c.tables[name := Updated(c.catalog[name], c.tables[name], row)])
    case RemoveRow(name, primaryKey) =>
      c.(tables := c.tables[name := Removed(c.catalog[name], c.tables[name], EncodeKey(primaryKey))])
    case CreateTable(name, def) =>
      Contents(c.catalog[name := KeyNotNull(def)], c.tables[name := EmptyTable(KeyNotNull(def))])
    case DropTable(name) => Contents(c.catalog - {name}, c.tables - {name})
    case CreateIndex(name, index) =>
      var t, d := WithIndex(c.catalog[name], index), c.tables[name];
      Contents(c.catalog[name := t],
               c.tables[name := Table(d.rows, d.entries + [EntriesOf(t, d.rows, |t.indexes| - 1)])])
    case DropIndex(name, i) =>
      var d := c.tables[name];
      Contents(c.catalog[name := WithoutIndex(c.catalog[name], i)],
               c.tables[name := Table(d.rows, d.entries[..i] + d.entries[i + 1..])])
  }

  ghost function Effects(c: Contents, maxKey: nat, commands: seq<Command>): Contents
    decreases |commands|
  {
    if commands == [] then c
      else Effect(Effects(c, maxKey, commands[..|commands| - 1]), maxKey, commands[|commands| - 1])
  }

  ghost function EntriesOf(t: TableDef, rows: map<Key, Row>, i: nat): set<Key>
    requires i < |t.indexes|
  {
    set k | k in rows :: IndexKey(t, i, rows[k])
  }

  /** An update that is accepted, and makes its row move away from itself. */
  ghost predicate Strays(c: Contents, maxKey: nat, command: Command) {
    && command.UpdateRow? && MayUpdate(c, maxKey, command.name, command.row)
    && MovesAway(c.catalog[command.name], command.name,
                 c.tables[command.name].rows[PkKey(c.catalog[command.name], command.row)], command.row)
  }

  ghost predicate KeysFit(catalog: Catalog, tables: Tables, maxKey: nat) {
    forall name :: name in catalog && name in tables ==> AllRowsFit(catalog[name], tables[name].rows, maxKey)
  }

  /** Every index has as many entries as its table has rows. */
  ghost predicate OneEntryEach(catalog: Catalog, tables: Tables) {
    forall name, i :: name in catalog && 0 <= i < |catalog[name].indexes| ==>
      name in tables && i < |tables[name].entries| && |tables[name].entries[i]| == |tables[name].rows|
  }

  lemma FitsOne(catalog: Catalog, tables: Tables, name: string, t: TableDef, d: Table, maxKey: nat)
    requires KeysFit(catalog, tables, maxKey) && AllRowsFit(t, d.rows, maxKey)
    ensures KeysFit(catalog[name := t], tables[name := d], maxKey)
  {
    hide AllRowsFit;
  }

  // ----- the operations

  class Writer {
    const maxKey: nat
    var catalog: Catalog
    var tables: Tables
    ghost var rank: map<string, nat>

    ghost function State(): Contents
      reads this
    {
      Contents(catalog, tables)
    }

    /** Definitions are right, and references between tables form no cycle; every index has the entries of its
        table's rows and no other, unique values are unique, and every key is short enough. */
    ghost predicate Sound()
      reads this
    {
      DefsOk(catalog) && StoreOk(catalog, tables) && Ranked(catalog, rank) && KeysFit(catalog, tables, maxKey)
    }

    /** And every foreign key has its parent. */
    ghost predicate Valid()
      reads this
    {
      Sound() && ParentsHold(catalog, tables)
    }

    constructor (maxKey: nat)
      ensures Valid() && this.maxKey == maxKey && catalog == map[] && tables == map[]
    {
      this.maxKey, catalog, tables, rank := maxKey, map[], map[], map[];
    }

    lemma SoundIsFormed()
      requires Sound()
      ensures Formed(State()) && StoreOk(catalog, tables) && CatalogOk(catalog)
    {
      hide CatalogOk, DefsOk;
      forall n | n in catalog
        ensures |tables[n].entries| == |catalog[n].indexes|
      {
        assert TableOk(catalog[n], tables[n]);
      }
    }

    // ----- rows

    /** The tests of one row against the indexes: keys not too long, unique values not taken. With an old row, only
        indexes whose columns change are looked at. */
    method CheckIndexes(name: string, row: Row, was: Option<Row>) returns (o: Outcome)
      requires StoreOk(catalog, tables) && name in catalog && ValidRow(catalog[name], row)
      ensures o == Done || o == BadArgument || o == Constraint
      ensures o == Done <==> IndexesTake(catalog[name], tables[name].rows, row, was, maxKey)
      ensures o == Constraint ==>
                exists i :: 0 <= i < |catalog[name].indexes| && !Unclaimed(catalog[name], tables[name].rows, row, i)
    {
      hide Project, EncodeKey, ValidRow, CatalogOk;
      var t, d, i := catalog[name], tables[name], 0;
      assert TableOk(t, d);
      while i < |t.indexes|
        invariant i <= |t.indexes| == |d.entries|
        invariant forall j :: 0 <= j < i ==>
          (was.Some? && Project(row, t.indexes[j].columns) == Project(was.value, t.indexes[j].columns))
            || Welcome(t, d.rows, row, j, maxKey)
      {
        var columns := t.indexes[i].columns;
        var values := Project(row, columns);
        if !(was.Some? && values == Project(was.value, columns)) {
          if |EncodeKey(values)| + |PkKey(t, row)| > maxKey {
            assert !Welcome(catalog[name], tables[name].rows, row, i, maxKey);
            return BadArgument;
          }
          if t.indexes[i].unique && !AnyNull(values) {
            RowIsTyped(t, row);
            ProjectMatches(t, row, columns);
            IndexLookup(t, d, i, columns, values);
            if PrefixExists(d.entries[i], values) {
              assert !Unclaimed(catalog[name], tables[name].rows, row, i)
                && !Welcome(catalog[name], tables[name].rows, row, i, maxKey);
              return Constraint;
            }
          }
        }
        i := i + 1;
      }
      o := Done;
    }

    method PutIndexEntries(t: TableDef, entries: seq<set<Key>>, row: Row, was: Option<Row>) returns (r: seq<set<Key>>)
      requires |entries| == |t.indexes|
      ensures |r| == |entries| && forall i :: 0 <= i < |r| ==>
        r[i] == if was.Some? && Project(row, t.indexes[i].columns) == Project(was.value, t.indexes[i].columns)
          then entries[i]
                else entries[i] + {IndexKey(t, i, row)}
    {
      hide Project, IndexKey;
      r := entries;
      var i := 0;
      while i < |t.indexes|
        invariant i <= |t.indexes| == |r| && (forall j :: i <= j < |r| ==> r[j] == entries[j])
        invariant forall j :: 0 <= j < i ==>
          r[j] == if was.Some? && Project(row, t.indexes[j].columns) == Project(was.value, t.indexes[j].columns)
            then entries[j]
                  else entries[j] + {IndexKey(t, j, row)}
      {
        if !(was.Some? && Project(row, t.indexes[i].columns) == Project(was.value, t.indexes[i].columns)) {
          r := r[i := r[i] + {IndexKey(t, i, row)}];
        }
        i := i + 1;
      }
    }

    /** Takes the entries of a row out; with a new row, only of indexes whose columns change. */
    method EraseIndexEntries(t: TableDef, entries: seq<set<Key>>, row: Row, after: Option<Row>)
      returns (r: seq<set<Key>>)
      requires |entries| == |t.indexes|
      ensures |r| == |entries| && forall i :: 0 <= i < |r| ==>
        r[i] == if after.Some? && Project(after.value, t.indexes[i].columns) == Project(row, t.indexes[i].columns)
          then entries[i]
                else entries[i] - {IndexKey(t, i, row)}
    {
      hide Project, IndexKey;
      r := entries;
      var i := 0;
      while i < |t.indexes|
        invariant i <= |t.indexes| == |r| && (forall j :: i <= j < |r| ==> r[j] == entries[j])
        invariant forall j :: 0 <= j < i ==>
          r[j] == if after.Some? && Project(after.value, t.indexes[j].columns) == Project(row, t.indexes[j].columns)
            then entries[j]
                  else entries[j] - {IndexKey(t, j, row)}
      {
        if !(after.Some? && Project(after.value, t.indexes[i].columns) == Project(row, t.indexes[i].columns)) {
          r := r[i := r[i] - {IndexKey(t, i, row)}];
        }
        i := i + 1;
      }
    }

    /** insert_unchecked: a row goes in exactly when it may, and otherwise nothing changes. */
    method PutRow(name: string, row: Row, checkForeignKeys: bool) returns (o: Outcome)
      requires Sound() && name in catalog
      modifies this`tables
      ensures Sound() && (o == Done || o == BadArgument || o == Constraint) && Formed(old(State()))
      ensures o == Done <==> Insertable(catalog[name], old(tables)[name].rows, row, maxKey)
                             && (checkForeignKeys ==> ParentsFound(catalog, old(tables), name, row, None))
      ensures o == Done ==> |row| == |catalog[name].nullable|
                            && forall i :: 0 <= i < |row| && row[i].Null? ==> catalog[name].nullable[i]
      ensures tables == if o == Done then old(tables)[name := Inserted(catalog[name], old(tables)[name], row)]
              else old(tables)
    {
      hide Project, PkKey, IndexKey, ValidRow, CatalogOk, ParentFound, EncodeKey, Unclaimed, DefsOk, Ranked, KeysFit;
      hide AllRowsFit;
      SoundIsFormed();
      var t, d := catalog[name], tables[name];
      assert TableOk(t, d);
      if !ValidRow(t, row) { return BadArgument; }
      ValidNotNull(t, d, row);
      if |PkKey(t, row)| > maxKey { return BadArgument; }
      if PkKey(t, row) in d.rows { return Constraint; }
      o := CheckIndexes(name, row, None);
      if o != Done { return; }
      if checkForeignKeys && !ParentsFound(catalog, tables, name, row, None) { return Constraint; }
      forall i | 0 <= i < |t.indexes|
        ensures Unclaimed(t, d.rows, row, i)
      {
        assert Welcome(t, d.rows, row, i, maxKey);
      }
      InsertedOk(t, d, row);
      TableFits(name);
      InsertableFits(t, d.rows, row, maxKey);
      var entries := PutIndexEntries(t, d.entries, row, None);
      assert entries == WithEntry(t, d.entries, row, |t.indexes|);
      FitsOne(catalog, tables, name, t, Inserted(t, d, row), maxKey);
      assert catalog[name := t] == catalog;
      tables := tables[name := Table(d.rows[PkKey(t, row) := row], entries)];
    }

    lemma TableFits(name: string)
      requires Sound() && name in catalog
      ensures name in tables && AllRowsFit(catalog[name], tables[name].rows, maxKey)
    {
    }

    /** insert. */
    method Insert(name: string, row: Row) returns (o: Outcome)
      requires Valid()
      modifies this`tables
      ensures Valid()
      ensures o == NotFound <==> name !in catalog
      ensures o == Done ==> name in catalog && |row| == |catalog[name].nullable|
                            && forall i :: 0 <= i < |row| && row[i].Null? ==> catalog[name].nullable[i]
      ensures o == Done <==> MayInsert(old(State()), maxKey, name, row)
      ensures forall t, k, i :: t in catalog && k in tables[t].rows && 0 <= i < |tables[t].rows[k]| ==>
                tables[t].rows[k][i].Null? ==> i < |catalog[t].nullable| && catalog[t].nullable[i]
      ensures State() == Effect(old(State()), maxKey, InsertRow(name, row))
    {
      hide Project, PkKey, IndexKey, ValidRow, CatalogOk, ParentFound, EncodeKey, Welcome, Inserted, TableOk, DefsOk;
      hide Ranked, KeysFit;
      SoundIsFormed();
      if name !in catalog {
        NotNull(catalog, tables);
        return NotFound;
      }
      o := PutRow(name, row, true);
      if o == Done { InsertKeepsParents(catalog, old(tables), name, row); }
      NotNull(catalog, tables);
    }

    /** remove. */
    method Remove(name: string, primaryKey: Row) returns (o: Outcome)
      requires Valid()
      modifies this`tables
      ensures Valid()
      ensures o == Done <==> MayRemove(old(State()), name, primaryKey)
      ensures State() == Effect(old(State()), maxKey, RemoveRow(name, primaryKey))
      ensures o == Constraint <==>
                && name in catalog && RowMatches(primaryKey, TypesOf(catalog[name], catalog[name].primaryKey))
                && !AnyNull(primaryKey) && EncodeKey(primaryKey) in old(tables)[name].rows
                && !NoChildren(catalog, old(tables), name, old(tables)[name].rows[EncodeKey(primaryKey)], None)
    {
      hide Project, PkKey, IndexKey, ValidRow, CatalogOk, ChildFound, EncodeKey, TypesOf, DefsOk, Ranked, KeysFit;
      hide RowFits;
      SoundIsFormed();
      if name !in catalog { return NotFound; }
      var t, d := catalog[name], tables[name];
      assert TableOk(t, d);
      if AnyNull(primaryKey) || !RowMatches(primaryKey, TypesOf(t, t.primaryKey)) { return BadArgument; }
      var key := EncodeKey(primaryKey);
      if key !in d.rows { return NotFound; }
      if !NoChildren(catalog, tables, name, d.rows[key], None) { return Constraint; }
      RemovedOk(t, d, key);
      RemoveKeepsParents(catalog, tables, name, key);
      TableFits(name);
      FitsOne(catalog, tables, name, t, Removed(t, d, key), maxKey);
      assert catalog[name := t] == catalog;
      var entries := EraseIndexEntries(t, d.entries, d.rows[key], None);
      assert entries == WithoutEntry(t, d.entries, d.rows[key], |t.indexes|);
      tables := tables[name := Table(d.rows - {key}, entries)];
      o := Done;
    }

    /** update: takes the place of the row that has its primary key. */
    method ExchangeRow(name: string, row: Row) returns (o: Outcome)
      requires Valid()
      modifies this`tables
      ensures Sound()
      ensures o == Done <==> MayUpdate(old(State()), maxKey, name, row)
      ensures State() == Effect(old(State()), maxKey, UpdateRow(name, row))
      ensures Valid() <==> !Strays(old(State()), maxKey, UpdateRow(name, row))
    {
      hide Project, PkKey, IndexKey, ValidRow, CatalogOk, ParentFound, ChildFound, EncodeKey, DefsOk, Ranked, KeysFit;
      hide AllRowsFit, IndexesTake;
      hide ParentsHold, MovesAway, Updated, Unclaimed, AnyNull, NoChildren, ParentsFound, IndexOk, UniqueOk, RowsOk;
      hide WellFormed;
      SoundIsFormed();
      if name !in catalog { return NotFound; }
      var t, d := catalog[name], tables[name];
      assert TableOk(t, d);
      if !ValidRow(t, row) { return BadArgument; }
      var key := PkKey(t, row);
      if key !in d.rows { return NotFound; }
      var was := d.rows[key];
      if was == row {
        SameRow(catalog, tables, name, row);
        SameRowMay(catalog, tables, maxKey, name, row);
        return Done;
      }
      o := CheckIndexes(name, row, Some(was));
      if o != Done { return; }
      if !ParentsFound(catalog, tables, name, row, Some(was)) { return Constraint; }
      if !NoChildren(catalog, tables, name, was, Some(row)) { return Constraint; }
      IndexesTaken(t, d.rows, row, was, maxKey);
      UpdatedOk(t, d, row);
      UpdateKeepsParents(catalog, tables, name, row);
      UpdateFits(name, row);
      var entries := EraseIndexEntries(t, d.entries, was, Some(row));
      entries := PutIndexEntries(t, entries, row, Some(was));
      UpdatedEntries(t, d, row, entries);
      tables := tables[name := Table(d.rows[key := row], entries)];
    }

    /** The same, and what it leaves in the tables. */
    method Update(name: string, row: Row) returns (o: Outcome)
      requires Valid()
      modifies this`tables
      ensures Sound()
      ensures o == Done ==> name in catalog && |row| == |catalog[name].nullable|
                            && forall i :: 0 <= i < |row| && row[i].Null? ==> catalog[name].nullable[i]
      ensures o == Done <==> MayUpdate(old(State()), maxKey, name, row)
      ensures forall t, k, i :: t in catalog && k in tables[t].rows && 0 <= i < |tables[t].rows[k]| ==>
                tables[t].rows[k][i].Null? ==> i < |catalog[t].nullable| && catalog[t].nullable[i]
      ensures State() == Effect(old(State()), maxKey, UpdateRow(name, row))
      ensures Valid() <==> !Strays(old(State()), maxKey, UpdateRow(name, row))
    {
      hide Project, PkKey, CatalogOk, DefsOk, Ranked, KeysFit, Effect, Strays, IndexesTake, ParentsFound, NoChildren;
      hide ParentsHold, TableOk, ValidRow;
      o := ExchangeRow(name, row);
      if o == Done { ValidNotNull(catalog[name], old(tables)[name], row); }
      NotNull(catalog, tables);
    }

    lemma UpdateFits(name: string, row: Row)
      requires Sound() && name in catalog && PkKey(catalog[name], row) in tables[name].rows
      requires IndexesTake(catalog[name], tables[name].rows, row, Some(tables[name].rows[PkKey(catalog[name], row)]),
                           maxKey)
      ensures |tables[name].entries| == |catalog[name].indexes|
      ensures KeysFit(catalog, tables[name := Updated(catalog[name], tables[name], row)], maxKey)
    {
      hide Project, PkKey, Welcome, AllRowsFit, KeysFit, CatalogOk, DefsOk, Ranked, ValidRow, Updated;
      var t, d := catalog[name], tables[name];
      assert TableOk(t, d);
      TableFits(name);
      UpdatedFits(t, d.rows, row, maxKey);
      UpdatedRows(t, d, row);
      FitsOne(catalog, tables, name, t, Updated(t, d, row), maxKey);
      assert catalog[name := t] == catalog;
    }

    // ----- tables and indexes

    /** create_table. */
    method CreateTable(name: string, def: TableDef) returns (o: Outcome)
      requires Valid()
      modifies this
      ensures Valid()
      ensures o == Done <==> MayCreate(old(State()), name, def)
      ensures State() == Effect(old(State()), maxKey, Command.CreateTable(name, def))
    {
      hide ForeignKeyOk, WellFormed, Plain, TableOk, Project, CatalogOk, KeyNotNull, HasParent, KeysFit, AllRowsFit;
      if name in catalog { return BadArgument; }
      var t := KeyNotNull(def);
      if !ValidDef(catalog, name, t) { return BadArgument; }
      KeyNotNullTwice(def);
      CreateKeepsDefs(catalog, name, t);
      CreateKeepsRank(catalog, rank, name, t);
      EmptyTableOk(t);
      CreateKeepsParents(catalog, tables, name, t);
      NoRowsFit(t, maxKey);
      FitsOne(catalog, tables, name, t, EmptyTable(t), maxKey);
      rank := RankedAbove(catalog, rank, name);
      catalog, tables := catalog[name := t], tables[name := EmptyTable(t)];
      o := Done;
    }

    /** drop_table: refused while another table refers to it. */
    method DropTable(name: string) returns (o: Outcome)
      requires Valid()
      modifies this
      ensures Valid()
      ensures o == NotFound <==> name !in old(catalog)
      ensures o == Done <==> MayDrop(old(State()), name)
      ensures State() == Effect(old(State()), maxKey, Command.DropTable(name))
    {
      hide ForeignKeyOk, WellFormed, Plain, TableOk, Project, CatalogOk, KeyNotNull, HasParent, RefersTo, AllRowsFit;
      if name !in catalog { return NotFound; }
      if exists other :: other in catalog && RefersTo(catalog[other], other, name) { return BadArgument; }
      DropKeeps(catalog, rank, name);
      DropKeepsParents(catalog, tables, name);
      catalog, tables := catalog - {name}, tables - {name};
      o := Done;
    }

    /** create_index: refused exactly when a key is too long or a unique value is there twice. */
    method CreateIndex(name: string, index: IndexDef) returns (o: Outcome)
      requires Valid()
      modifies this
      ensures Valid()
      ensures o == NotFound <==> name !in old(catalog)
      ensures o == Done <==> MayIndex(old(State()), maxKey, name, index)
      ensures State() == Effect(old(State()), maxKey, Command.CreateIndex(name, index))
    {
      hide ForeignKeyOk, CatalogOk, Project, KeyNotNull, HasParent, UniqueOk, IndexKey, RowsOk, Reindexed, Once;
      hide ColumnsOk, WellFormed, ParentsHold;
      hide KeysFit, AllRowsFit;
      if name !in catalog { return NotFound; }
      var t, d := catalog[name], tables[name];
      if !Once(index.columns) || !ColumnsOk(t, index.columns) { return BadArgument; }
      var t', entries := WithIndex(t, index), {};
      assert TableOk(t, d);
      IndexedRows(t, d.rows, index);
      o, entries := BuildIndex(t', d.rows, |t.indexes|, maxKey);
      if o != Done { return; }
      BuiltAll(t', d.rows, |t.indexes|, entries);
      WithIndexOk(t, d, index, entries);
      MoreIndexes(catalog, name, index);
      ReindexedKeeps(catalog, rank, name, t');
      SameRowsSameParents(catalog, tables, name, t', Table(d.rows, d.entries + [entries]));
      TableFits(name);
      IndexedFit(t, d.rows, index, maxKey);
      FitsOne(catalog, tables, name, t', Table(d.rows, d.entries + [entries]), maxKey);
      catalog, tables := catalog[name := t'], tables[name := Table(d.rows, d.entries + [entries])];
    }

    /** drop_index: refused if a foreign key of the table would lose its last support, or one that refers to it its
        last target. */
    method DropIndex(name: string, i: nat) returns (o: Outcome)
      requires Valid()
      modifies this
      ensures Valid()
      ensures o == Done <==> MayUnindex(old(State()), name, i)
      ensures State() == Effect(old(State()), maxKey, Command.DropIndex(name, i))
    {
      hide ForeignKeyOk, CatalogOk, Project, KeyNotNull, HasParent, IndexOk, UniqueOk, RowsOk, Reindexed, WellFormed;
      hide Plain, ParentsHold, Supported;
      hide KeysFit, AllRowsFit;
      if name !in catalog || i >= |catalog[name].indexes| { return NotFound; }
      var t, d := catalog[name], tables[name];
      assert TableOk(t, d);
      var without, gone := WithoutIndex(t, i), t.indexes[i];
      FewerIndexes(catalog, name, i);
      if exists f :: 0 <= f < |t.foreignKeys| && !Supported(without, t.foreignKeys[f]) { return BadArgument; }
      if gone.unique && !StillUnique(t, i) && exists child ::
          child in catalog && Names(catalog[child], name, gone.columns) {
        return BadArgument;
      }
      WithoutIndexOk(t, d, i);
      ReindexedKeeps(catalog, rank, name, without);
      SameRowsSameParents(catalog, tables, name, without, Table(d.rows, d.entries[..i] + d.entries[i + 1..]));
      TableFits(name);
      UnindexedFit(t, d.rows, i, maxKey);
      FitsOne(catalog, tables, name, without, Table(d.rows, d.entries[..i] + d.entries[i + 1..]), maxKey);
      catalog, tables := catalog[name := without], tables[name := Table(d.rows, d.entries[..i] + d.entries[i + 1..])];
      o := Done;
    }

    method Do(command: Command) returns (o: Outcome)
      requires Valid()
      modifies this
      ensures Sound() && (Valid() <==> !Strays(old(State()), maxKey, command))
      ensures o == Done <==> May(old(State()), maxKey, command)
      ensures State() == Effect(old(State()), maxKey, command)
    {
      hide Sound, Effect, MayInsert, MayUpdate, MayRemove, MayCreate, MayDrop, MayIndex, MayUnindex, ParentsHold;
      match command
      case InsertRow(name, row) => o := Insert(name, row);
      case UpdateRow(name, row) => o := Update(name, row);
      case RemoveRow(name, primaryKey) => o := Remove(name, primaryKey);
      case CreateTable(name, def) => o := CreateTable(name, def);
      case DropTable(name) => o := DropTable(name);
      case CreateIndex(name, index) => o := CreateIndex(name, index);
      case DropIndex(name, i) => o := DropIndex(name, i);
    }

    lemma EntriesCounted()
      requires Sound()
      ensures OneEntryEach(catalog, tables)
    {
      hide CatalogOk, IndexOk, UniqueOk, RowsOk, WellFormed, DefsOk, Ranked, KeysFit;
      forall name, i | name in catalog && 0 <= i < |catalog[name].indexes|
        ensures name in tables && i < |tables[name].entries| && |tables[name].entries[i]| == |tables[name].rows|
      {
        assert TableOk(catalog[name], tables[name]);
        OneEntryPerRow(catalog[name], tables[name], i);
      }
    }

    /** Any row and schema commands, accepted or refused, up to an accepted one that strays: the store is what the
        commands say, every index has one entry for each row and no other, unique values are unique, references form
        no cycle, and every foreign key has its parent. */
    method Run(commands: seq<Command>) returns (n: nat)
      requires Valid()
      modifies this
      ensures Valid() && n <= |commands| && State() == Effects(old(State()), maxKey, commands[..n])
      ensures n < |commands| ==> Strays(State(), maxKey, commands[n])
      ensures OneEntryEach(catalog, tables)
      ensures forall t, k, i :: t in catalog && k in tables[t].rows && 0 <= i < |tables[t].rows[k]| ==>
                tables[t].rows[k][i].Null? ==> i < |catalog[t].nullable| && catalog[t].nullable[i]
      ensures forall t, i :: t in catalog && i in catalog[t].primaryKey ==>
                i < |catalog[t].nullable| && !catalog[t].nullable[i]
    {
      hide Sound, Effect, May, Strays, ParentsHold, OneEntryEach;
      n := 0;
      var stop := false;
      while n < |commands| && !stop
        invariant n <= |commands| && Valid() && State() == Effects(old(State()), maxKey, commands[..n])
        invariant stop ==> n < |commands| && Strays(State(), maxKey, commands[n])
        decreases |commands| - n, !stop
      {
        stop := WouldStray(commands[n]);
        if !stop {
          assert commands[..n + 1][..n] == commands[..n];
          var o := Do(commands[n]);
          n := n + 1;
        }
      }
      EntriesCounted();
      NullsInPlace();
    }

    lemma NullsInPlace()
      requires Sound()
      ensures forall t, k, i :: t in catalog && k in tables[t].rows && 0 <= i < |tables[t].rows[k]| ==>
                tables[t].rows[k][i].Null? ==> i < |catalog[t].nullable| && catalog[t].nullable[i]
      ensures forall t, i :: t in catalog && i in catalog[t].primaryKey ==>
                i < |catalog[t].nullable| && !catalog[t].nullable[i]
    {
      NotNull(catalog, tables);
      KeysNotNull(catalog);
    }

    /** Whether the next command is an update that is accepted and strays. */
    method WouldStray(command: Command) returns (strays: bool)
      requires Valid()
      ensures strays <==> Strays(State(), maxKey, command)
    {
      hide Project, PkKey, ValidRow, CatalogOk, MovesAway, ParentsFound, NoChildren, IndexesTake;
      SoundIsFormed();
      if !command.UpdateRow? || command.name !in catalog || !ValidRow(catalog[command.name], command.row) {
        return false;
      }
      var name, row := command.name, command.row;
      if PkKey(catalog[name], row) !in tables[name].rows { return false; }
      var was := tables[name].rows[PkKey(catalog[name], row)];
      var o := CheckIndexes(name, row, Some(was));
      strays := o == Done && ParentsFound(catalog, tables, name, row, Some(was))
        && NoChildren(catalog, tables, name, was, Some(row))
                && MovesAway(catalog[name], name, was, row);
    }
  }

  lemma IndexesTaken(t: TableDef, rows: map<Key, Row>, row: Row, was: Row, maxKey: nat)
    requires IndexesTake(t, rows, row, Some(was), maxKey)
    ensures forall i :: 0 <= i < |t.indexes| ==>
      Project(row, t.indexes[i].columns) == Project(was, t.indexes[i].columns) || Unclaimed(t, rows, row, i)
  {
    hide Project, Unclaimed, IndexKey;
    forall i | 0 <= i < |t.indexes| && Project(row, t.indexes[i].columns) != Project(was, t.indexes[i].columns)
      ensures Unclaimed(t, rows, row, i)
    {
      assert Welcome(t, rows, row, i, maxKey);
    }
  }

  /** Nothing changes with the same row: nothing is in its way. */
  lemma SameRowMay(catalog: Catalog, tables: Tables, maxKey: nat, name: string, row: Row)
    requires Formed(Contents(catalog, tables)) && name in catalog && ValidRow(catalog[name], row)
    requires PkKey(catalog[name], row) in tables[name].rows && tables[name].rows[PkKey(catalog[name], row)] == row
    ensures MayUpdate(Contents(catalog, tables), maxKey, name, row)
  {
    hide Project, PkKey, ValidRow, CatalogOk, ChildFound, ParentFound;
  }

  lemma NoRowsFit(t: TableDef, maxKey: nat)
    ensures AllRowsFit(t, EmptyTable(t).rows, maxKey)
  {
  }

  lemma BuiltAll(t: TableDef, rows: map<Key, Row>, i: nat, entries: set<Key>)
    requires i < |t.indexes| && forall key :: key in entries <==> IsEntry(t, rows, i, key)
    ensures entries == EntriesOf(t, rows, i)
  {
    hide IndexKey;
    forall key ensures key in entries <==> key in EntriesOf(t, rows, i) {
      assert key in entries <==> IsEntry(t, rows, i, key);
    }
  }

  lemma IndexedFit(t: TableDef, rows: map<Key, Row>, index: IndexDef, maxKey: nat)
    requires AllRowsFit(t, rows, maxKey) && AllFit(WithIndex(t, index), rows, |t.indexes|, maxKey)
    ensures AllRowsFit(WithIndex(t, index), rows, maxKey)
  {
    hide Project, EncodeKey;
    var t' := WithIndex(t, index);
    forall k | k in rows ensures RowFits(t', rows[k], maxKey) {
      assert RowFits(t, rows[k], maxKey);
      forall i | 0 <= i < |t.indexes| ensures IndexKey(t', i, rows[k]) == IndexKey(t, i, rows[k]) {}
    }
  }

  lemma UnindexedFit(t: TableDef, rows: map<Key, Row>, i: nat, maxKey: nat)
    requires AllRowsFit(t, rows, maxKey) && i < |t.indexes|
    ensures AllRowsFit(WithoutIndex(t, i), rows, maxKey)
  {
    hide Project, EncodeKey;
    var t' := WithoutIndex(t, i);
    forall k | k in rows ensures RowFits(t', rows[k], maxKey) {
      assert RowFits(t, rows[k], maxKey);
      forall j | 0 <= j < |t'.indexes|
        ensures IndexKey(t', j, rows[k]) == IndexKey(t, if j < i then j else j + 1, rows[k])
      {
      }
    }
  }

  // ----- an update that strays

  /** A code that is unique, and a reference to a code of the same table. */
  const CODES: TableDef := TableDef(
    [Integer, Integer, Integer], [false, true, true], [0], [IndexDef([1], true), IndexDef([2], false)],
      [ForeignKey([2], "codes", [1])])

  const OLD_ROW: Row := [IntegerValue(1), IntegerValue(5), Null]

  const NEW_ROW: Row := [IntegerValue(1), IntegerValue(6), IntegerValue(5)]

  ghost function OneCode(): Contents {
    Contents(map["codes" := CODES], map["codes" := Inserted(CODES, EmptyTable(CODES), OLD_ROW)])
  }

  lemma CodesRefer()
    ensures ForeignKeyOk(map["codes" := CODES], CODES, CODES.foreignKeys[0])
  {
    hide TypesOf;
    var fk := CODES.foreignKeys[0];
    assert IsTarget(CODES, fk, 0) && IsSupport(CODES, fk, 1);
    assert TypesOf(CODES, [1]) == [Integer] && TypesOf(CODES, [2]) == [Integer];
  }

  lemma CodesAreFine()
    ensures KeyNotNull(CODES) == CODES && MayCreate(Contents(map[], map[]), "codes", CODES)
  {
    hide IsTarget, IsSupport, TypesOf, ForeignKeyOk;
    assert KeyNotNull(CODES).nullable == CODES.nullable;
    CodesRefer();
  }

  lemma ProjectOne(row: Row, column: nat)
    requires column < |row|
    ensures Project(row, [column]) == [row[column]]
  {
    assert [column][..0] == [];
    assert Project(row, []) == [];
  }

  lemma ShortKeys(row: Row, i: nat)
    requires |row| == 3 && i < 2 && forall k :: 0 <= k < 3 ==> row[k].Null? || row[k].IntegerValue?
    ensures |PkKey(CODES, row)| <= 9 && |IndexKey(CODES, i, row)| <= 18
  {
    ProjectOne(row, 0);
    ProjectOne(row, i + 1);
    assert CODES.indexes[i].columns == [i + 1];
    OneKey(row[0]);
    OneKey(row[i + 1]);
  }

  lemma OneKey(v: Value)
    requires v.Null? || v.IntegerValue?
    ensures |EncodeKey([v])| <= 9
  {
    assert [v][1..] == [];
  }

  lemma InsertOldRow()
    ensures MayInsert(Contents(map["codes" := CODES], map["codes" := EmptyTable(CODES)]), 18, "codes", OLD_ROW)
  {
    hide Project, PkKey, IndexKey, EncodeKey;
    CodesAreFine();
    forall i | 0 <= i < 2 ensures Welcome(CODES, map[], OLD_ROW, i, 18) { ShortKeys(OLD_ROW, i); }
    ShortKeys(OLD_ROW, 0);
    OldRowRefers();
  }

  lemma OldRowRefers()
    ensures AnyNull(Project(OLD_ROW, [2]))
  {
    ProjectOne(OLD_ROW, 2);
    assert [OLD_ROW[2]][0].Null?;
  }

  lemma OldRowHasParents()
    ensures ParentsHold(OneCode().catalog, OneCode().tables)
  {
    hide Project, PkKey, IndexKey, EncodeKey;
    OldRowRefers();
  }

  /** The row with code 5 takes code 6, and refers to 5. Its parent was there when it was looked for, and no child
      held on to it. */
  lemma NewRowStrays()
    requires StoreOk(OneCode().catalog, OneCode().tables) && Formed(OneCode())
    ensures Strays(OneCode(), 18, UpdateRow("codes", NEW_ROW))
  {
    hide PkKey, IndexKey, EncodeKey, Project, ParentsFound, NoChildren, CatalogOk, TableOk, WithEntry;
    var c, rows := OneCode(), OneCode().tables["codes"].rows;
    ProjectOne(OLD_ROW, 0);
    ProjectOne(NEW_ROW, 0);
    assert PkKey(CODES, NEW_ROW) == PkKey(CODES, OLD_ROW) by { SamePk(); }
    assert rows == map[PkKey(CODES, OLD_ROW) := OLD_ROW];
    ProjectOne(OLD_ROW, 1);
    ProjectOne(OLD_ROW, 2);
    ProjectOne(NEW_ROW, 1);
    ProjectOne(NEW_ROW, 2);
    forall i | 0 <= i < 2 ensures Welcome(CODES, rows, NEW_ROW, i, 18) { ShortKeys(NEW_ROW, i); }
    NewRowRefers();
    assert [NEW_ROW[1]][0] != [OLD_ROW[1]][0];
    assert MovesAwayBy(CODES.foreignKeys[0], "codes", OLD_ROW, NEW_ROW) by { assert [NEW_ROW[2]][0] != [OLD_ROW[2]][0]
                                                                            && [NEW_ROW[2]][0] != [NEW_ROW[1]][0]; }
  }

  lemma NewRowRefers()
    requires StoreOk(OneCode().catalog, OneCode().tables) && Formed(OneCode())
    ensures ParentsFound(OneCode().catalog, OneCode().tables, "codes", NEW_ROW, Some(OLD_ROW))
    ensures NoChildren(OneCode().catalog, OneCode().tables, "codes", OLD_ROW, Some(NEW_ROW))
  {
    hide PkKey, IndexKey, EncodeKey, Project, ParentFound, ChildFound, CatalogOk, TableOk, WithEntry;
    var c, rows := OneCode(), OneCode().tables["codes"].rows;
    assert rows == map[PkKey(CODES, OLD_ROW) := OLD_ROW];
    ProjectOne(OLD_ROW, 1);
    ProjectOne(OLD_ROW, 2);
    ProjectOne(NEW_ROW, 2);
    ParentFoundIs(c.catalog, c.tables, "codes", 0, NEW_ROW);
    assert HasValues(rows, [1], [NEW_ROW[2]]) by { assert Project(rows[PkKey(CODES, OLD_ROW)], [1]) == [NEW_ROW[2]]; }
    ChildFoundIs(c.catalog, c.tables, "codes", 0, OLD_ROW);
    assert !HasValues(rows, [2], [OLD_ROW[1]]) by { assert [OLD_ROW[2]][0] != [OLD_ROW[1]][0]; }
  }

  lemma SamePk()
    ensures PkKey(CODES, NEW_ROW) == PkKey(CODES, OLD_ROW)
  {
    ProjectOne(OLD_ROW, 0);
    ProjectOne(NEW_ROW, 0);
  }

  /** From an empty store, one table and one row: an accepted update leaves a foreign key without its parent. */
  method StrayingUpdate() returns (w: Writer, o: Outcome)
    ensures o == Done && w.Sound() && !ParentsHold(w.catalog, w.tables)
  {
    hide MayCreate, MayInsert, MayUpdate, MayRemove, MayDrop, MayIndex, MayUnindex, Writer.Sound, ParentsHold, Formed;
    hide StoreOk, Inserted, EmptyTable, KeyNotNull;
    w := new Writer(18);
    CodesAreFine();
    assert w.State() == Contents(map[], map[]);
    o := w.CreateTable("codes", CODES);
    assert w.State() == Contents(map["codes" := CODES], map["codes" := EmptyTable(CODES)]);
    InsertOldRow();
    OldRowHasParents();
    o := w.Insert("codes", OLD_ROW);
    assert w.State() == OneCode();
    w.SoundIsFormed();
    NewRowStrays();
    o := w.Update("codes", NEW_ROW);
  }
}
