/** Dumping a store and restoring it into an empty one (Store in engine/src/engine/store.cpp). */
module Dumping {
  import opened PageFormat
  import opened KeyOrder
  import opened KeyCodec
  import opened Store
  import opened Schema
  import opened StoreWriter

  datatype TableDump = TableDump(name: string, def: TableDef, rows: seq<Row>)

  type Dump = seq<TableDump>

  function NamesOf(dump: Dump): set<string> { set i | 0 <= i < |dump| :: dump[i].name }

  predicate DistinctNames(dump: Dump) { forall i, j :: 0 <= i < j < |dump| ==> dump[i].name != dump[j].name }

  // ----- parents first

  predicate Ready(td: TableDump, created: set<string>) {
    forall f :: 0 <= f < |td.def.foreignKeys| ==>
        td.def.foreignKeys[f].refTable == td.name || td.def.foreignKeys[f].refTable in created
  }

  /** Every table comes after the other tables it refers to. */
  ghost predicate ParentsFirst(order: Dump) {
    forall i :: 0 <= i < |order| ==> Ready(order[i], NamesOf(order[..i]))
  }

  /** The tables that a table refers to are in the dump, and rank below it. */
  ghost predicate Orderly(dump: Dump, rank: map<string, nat>) {
    forall i, parent :: 0 <= i < |dump| && RefersTo(dump[i].def, dump[i].name, parent) ==>
        InDump(dump, rank, dump[i].name, parent)
  }

  ghost predicate InDump(dump: Dump, rank: map<string, nat>, name: string, parent: string) {
    parent in NamesOf(dump) && parent in rank && name in rank && rank[parent] < rank[name]
  }

  /** The passes of restore over the tables still pending. Tables with distinct names can be ordered exactly when
      their references form no cycle. */
  method OrderTables(dump: Dump) returns (ok: bool, order: Dump)
    ensures ok ==> multiset(order) == multiset(dump) && ParentsFirst(order)
    ensures (exists rank :: Orderly(dump, rank)) ==> ok
    ensures ok && DistinctNames(dump) ==> exists rank :: Orderly(dump, rank)
  {
    hide RefersTo, Orderly;
    var pending: Dump, created: set<string> := dump, {};
    order := [];
    while pending != []
      invariant multiset(pending) + multiset(order) == multiset(dump)
      invariant ParentsFirst(order) && created == NamesOf(order)
      decreases |pending|
    {
      var progress, it, before := false, 0, |pending|;
      while it < |pending|
        invariant it <= |pending| <= before && multiset(pending) + multiset(order) == multiset(dump)
        invariant ParentsFirst(order) && created == NamesOf(order)
        invariant progress <==> |pending| < before
        invariant !progress ==> forall i :: 0 <= i < it ==> !Ready(pending[i], created)
        decreases |pending| - it
      {
        if Ready(pending[it], created) {
          Append(order, pending[it]);
          assert pending == pending[..it] + [pending[it]] + pending[it + 1..];
          created := created + {pending[it].name};
          order := order + [pending[it]];
          pending := pending[..it] + pending[it + 1..];
          progress := true;
        } else {
          it := it + 1;
        }
      }
      if !progress {
        if rank :| Orderly(dump, rank) { Stuck(dump, pending, order, rank, 0); }
        return false, [];
      }
    }
    ok := true;
    if DistinctNames(dump) { OrderIsRank(dump, order); }
  }

  lemma Append(order: Dump, td: TableDump)
    requires ParentsFirst(order) && Ready(td, NamesOf(order))
    ensures ParentsFirst(order + [td]) && NamesOf(order + [td]) == NamesOf(order) + {td.name}
  {
    hide Ready;
    var order' := order + [td];
    forall i | 0 <= i < |order'| ensures Ready(order'[i], NamesOf(order'[..i])) {
      if i < |order| { assert order'[..i] == order[..i]; } else { assert order'[..i] == order; }
    }
    NamesAppend(order, td);
  }

  /** A pass without progress leaves every pending table waiting for another pending one, of lower rank. */
  lemma Stuck(dump: Dump, pending: Dump, order: Dump, rank: map<string, nat>, i: nat)
    requires multiset(pending) + multiset(order) == multiset(dump) && Orderly(dump, rank) && i < |pending|
    requires forall j :: 0 <= j < |pending| ==> !Ready(pending[j], NamesOf(order))
    ensures false
    decreases if pending[i].name in rank then rank[pending[i].name] else 0
  {
    var td := pending[i];
    var f :| 0 <= f < |td.def.foreignKeys| && td.def.foreignKeys[f].refTable != td.name
      && td.def.foreignKeys[f].refTable !in NamesOf(order);
    var parent := td.def.foreignKeys[f].refTable;
    assert td in multiset(dump);
    var n :| 0 <= n < |dump| && dump[n] == td;
    assert RefersTo(dump[n].def, dump[n].name, parent);
    assert InDump(dump, rank, td.name, parent);
    var m :| 0 <= m < |dump| && dump[m].name == parent;
    assert dump[m] in multiset(pending) + multiset(order);
    assert dump[m] !in order;
    var j :| 0 <= j < |pending| && pending[j] == dump[m];
    Stuck(dump, pending, order, rank, j);
  }

  ghost function Places(order: Dump): (rank: map<string, nat>)
    requires DistinctNames(order)
    ensures forall i :: 0 <= i < |order| ==> order[i].name in rank && rank[order[i].name] == i
    ensures rank.Keys == NamesOf(order)
  {
    map n | n in NamesOf(order) :: PlaceOf(order, n)
  }

  ghost function PlaceOf(order: Dump, name: string): (i: nat)
    requires DistinctNames(order) && name in NamesOf(order)
    ensures i < |order| && order[i].name == name
  {
    var i :| 0 <= i < |order| && order[i].name == name;
    i
  }

  /** An order with parents first ranks the tables. */
  lemma OrderIsRank(dump: Dump, order: Dump)
    requires multiset(order) == multiset(dump) && ParentsFirst(order) && DistinctNames(dump)
    ensures exists rank :: Orderly(dump, rank)
  {
    hide RefersTo, Ready;
    Shuffled(dump, order);
    var rank := Places(order);
    forall i, parent | 0 <= i < |dump| && RefersTo(dump[i].def, dump[i].name, parent)
      ensures InDump(dump, rank, dump[i].name, parent)
    {
      assert dump[i] in multiset(order);
      var n :| 0 <= n < |order| && order[n] == dump[i];
      ReadyHas(order[n], NamesOf(order[..n]), parent);
      var m :| 0 <= m < n && order[..n][m].name == parent;
      assert order[m].name == parent;
    }
    assert Orderly(dump, rank);
  }

  lemma ReadyHas(td: TableDump, created: set<string>, parent: string)
    requires Ready(td, created) && RefersTo(td.def, td.name, parent)
    ensures parent in created
  {
  }

  lemma Shuffled(dump: Dump, order: Dump)
    requires multiset(order) == multiset(dump) && DistinctNames(dump)
    ensures DistinctNames(order) && NamesOf(order) == NamesOf(dump)
  {
    forall i, j | 0 <= i < j < |order| ensures order[i].name != order[j].name {
      TwoOf(order, i, j);
      assert order[i] in multiset(dump) && order[j] in multiset(dump);
      var n :| 0 <= n < |dump| && dump[n] == order[i];
      var m :| 0 <= m < |dump| && dump[m] == order[j];
      if n == m { OnceOnly(dump, n); }
    }
    SameNames(dump, order);
    SameNames(order, dump);
  }

  lemma SameNames(a: Dump, b: Dump)
    requires multiset(a) == multiset(b)
    ensures NamesOf(a) <= NamesOf(b)
  {
    forall name | name in NamesOf(a) ensures name in NamesOf(b) {
      var i :| 0 <= i < |a| && a[i].name == name;
      assert a[i] in multiset(b);
      var j :| 0 <= j < |b| && b[j] == a[i];
      assert b[j].name == name;
    }
  }

  lemma TwoOf(d: Dump, i: nat, j: nat)
    requires i < j < |d|
    ensures d[i] == d[j] ==> multiset(d)[d[i]] >= 2
  {
    assert d == d[..i] + [d[i]] + d[i + 1..j] + [d[j]] + d[j + 1..];
  }

  lemma OnceOnly(d: Dump, n: nat)
    requires DistinctNames(d) && n < |d|
    ensures multiset(d)[d[n]] == 1
  {
    assert d == d[..n] + [d[n]] + d[n + 1..];
    assert d[n] !in d[..n] && d[n] !in d[n + 1..];
  }

  // ----- the tables, created in order

  function CatalogOf(order: Dump): Catalog {
    if order == [] then map[] else
    var last := order[|order| - 1];
    CatalogOf(order[..|order| - 1])[last.name := KeyNotNull(last.def)]
  }

  function EmptyTables(order: Dump): Tables {
    if order == [] then map[] else
    var last := order[|order| - 1];
    EmptyTables(order[..|order| - 1])[last.name := EmptyTable(KeyNotNull(last.def))]
  }

  predicate Creatable(order: Dump) {
    forall i :: 0 <= i < |order| ==> CreatableAt(order, i)
  }

  predicate CreatableAt(order: Dump, i: nat)
    requires i < |order|
  {
    order[i].name !in CatalogOf(order[..i]) && ValidDef(CatalogOf(order[..i]), order[i].name, KeyNotNull(order[i].def))
  }

  method CreateTables(tx: Writer, order: Dump) returns (ok: bool)
    requires tx.Valid() && tx.catalog == map[] && tx.tables == map[]
    modifies tx
    ensures tx.Valid() && (ok <==> Creatable(order))
    ensures ok ==> tx.catalog == CatalogOf(order) && tx.tables == EmptyTables(order)
  {
    hide Writer.Sound, ParentsHold, ValidDef, KeyNotNull, EmptyTable;
    var i := 0;
    while i < |order|
      invariant i <= |order| && tx.Valid() && tx.catalog == CatalogOf(order[..i])
      invariant tx.tables == EmptyTables(order[..i])
      invariant forall j :: 0 <= j < i ==> CreatableAt(order, j)
    {
      var o := tx.CreateTable(order[i].name, order[i].def);
      assert o == Done <==> CreatableAt(order, i);
      if o != Done { return false; }
      assert order[..i + 1][..i] == order[..i];
      i := i + 1;
    }
    assert order[..i] == order;
    ok := true;
  }

  lemma {:induction false} CatalogHas(order: Dump, i: nat)
    requires DistinctNames(order) && i < |order|
    ensures order[i].name in CatalogOf(order) && CatalogOf(order)[order[i].name] == KeyNotNull(order[i].def)
    ensures order[i].name in EmptyTables(order) && EmptyTables(order)[order[i].name].rows == map[]
    decreases |order|
  {
    hide KeyNotNull;
    if i < |order| - 1 {
      assert order[..|order| - 1][i] == order[i];
      CatalogHas(order[..|order| - 1], i);
    }
  }

  lemma {:induction false} CatalogNames(order: Dump)
    ensures CatalogOf(order).Keys == EmptyTables(order).Keys == NamesOf(order)
    decreases |order|
  {
    hide KeyNotNull, EmptyTable, NamesOf;
    if order == [] {
      NoNames();
    } else {
      var n := |order| - 1;
      CatalogNames(order[..n]);
      assert order == order[..n] + [order[n]];
      NamesAppend(order[..n], order[n]);
    }
  }

  lemma NoNames()
    ensures NamesOf([]) == {}
  {
  }

  lemma NamesAppend(order: Dump, td: TableDump)
    ensures NamesOf(order + [td]) == NamesOf(order) + {td.name}
  {
    var order' := order + [td];
    forall name ensures name in NamesOf(order') <==> name in NamesOf(order) + {td.name} {
      if name in NamesOf(order) {
        var i :| 0 <= i < |order| && order[i].name == name;
        assert order'[i].name == name;
      }
      if name == td.name { assert order'[|order|].name == name; }
    }
  }

  /** The definitions of a dump. */
  ghost predicate Describes(catalog: Catalog, dump: Dump) {
    && DistinctNames(dump) && NamesOf(dump) == catalog.Keys
    && forall i :: 0 <= i < |dump| ==> dump[i].name in catalog && catalog[dump[i].name] == KeyNotNull(dump[i].def)
  }

  lemma DescribedOnce(a: Catalog, b: Catalog, dump: Dump)
    requires Describes(a, dump) && Describes(b, dump)
    ensures a == b
  {
    hide KeyNotNull, DistinctNames;
    forall name | name in a ensures a[name] == b[name] {
      var i :| 0 <= i < |dump| && dump[i].name == name;
    }
  }

  /** Definitions that are right can be created, parents first. */
  lemma GoodCreatable(catalog: Catalog, order: Dump, i: nat)
    requires DefsOk(catalog) && Describes(catalog, order) && ParentsFirst(order) && i < |order|
    ensures CreatableAt(order, i)
  {
    hide KeyNotNull, Ready, WellFormed, Plain, ForeignKeyOk, CatalogOf;
    var sofar, name, t := CatalogOf(order[..i]), order[i].name, catalog[order[i].name];
    CatalogNames(order[..i]);
    SameForeignKeys(order[i].def);
    forall f | 0 <= f < |t.foreignKeys| ensures ForeignKeyOk(sofar[name := t], t, t.foreignKeys[f]) {
      var fk := t.foreignKeys[f];
      assert ForeignKeyOk(catalog, t, fk);
      assert Ready(order[i], NamesOf(order[..i]));
      ReadyFor(order[i], NamesOf(order[..i]), f);
      if fk.refTable != name {
        var j :| 0 <= j < i && order[..i][j].name == fk.refTable;
        assert order[..i][j] == order[j];
        CatalogHas(order[..i], j);
      }
      SameTarget(catalog, sofar[name := t], t, fk);
    }
  }

  lemma SameForeignKeys(t: TableDef)
    ensures KeyNotNull(t).foreignKeys == t.foreignKeys
  {
  }

  lemma ReadyFor(td: TableDump, created: set<string>, f: nat)
    requires Ready(td, created) && f < |td.def.foreignKeys|
    ensures td.def.foreignKeys[f].refTable == td.name || td.def.foreignKeys[f].refTable in created
  {
  }

  // ----- their rows

  function KeysOf(t: TableDef, rows: seq<Row>): set<Key> { set x | 0 <= x < |rows| :: PkKey(t, rows[x]) }

  /** The rows of a tree, each once, in some order. */
  ghost predicate Lists(t: TableDef, m: map<Key, Row>, rows: seq<Row>) {
    && m.Keys == KeysOf(t, rows)
    && (forall x :: 0 <= x < |rows| ==> PkKey(t, rows[x]) in m && m[PkKey(t, rows[x])] == rows[x])
    && (forall x, y :: 0 <= x < y < |rows| ==> PkKey(t, rows[x]) != PkKey(t, rows[y]))
  }

  lemma ListedOnce(t: TableDef, a: map<Key, Row>, b: map<Key, Row>, rows: seq<Row>)
    requires Lists(t, a, rows) && Lists(t, b, rows)
    ensures a == b
  {
    hide PkKey;
    forall k | k in a ensures a[k] == b[k] {
      var x :| 0 <= x < |rows| && PkKey(t, rows[x]) == k;
    }
  }

  lemma ListsMore(t: TableDef, m: map<Key, Row>, rows: seq<Row>, row: Row)
    requires Lists(t, m, rows) && PkKey(t, row) !in m
    ensures Lists(t, m[PkKey(t, row) := row], rows + [row])
  {
    hide PkKey;
    var rows' := rows + [row];
    forall k ensures k in KeysOf(t, rows') <==> k in KeysOf(t, rows) + {PkKey(t, row)} {
      if k in KeysOf(t, rows) {
        var x :| 0 <= x < |rows| && PkKey(t, rows[x]) == k;
        assert rows'[x] == rows[x];
      }
      if k == PkKey(t, row) { assert rows'[|rows|] == row; }
    }
    forall x | 0 <= x < |rows| ensures PkKey(t, rows'[x]) in m { assert rows'[x] == rows[x]; }
  }

  ghost predicate Holds(t: TableDef, m: map<Key, Row>, rows: seq<Row>, maxKey: nat) {
    && Lists(t, m, rows) && RowsOk(t, m) && (forall i :: 0 <= i < |t.indexes| ==> UniqueOk(t, m, i))
    && AllRowsFit(t, m, maxKey)
  }

  /** Some of the rows of a good table: the next goes in. */
  lemma NextGoesIn(t: TableDef, sofar: map<Key, Row>, m: map<Key, Row>, rows: seq<Row>, r: nat, maxKey: nat)
    requires r < |rows| && Lists(t, sofar, rows[..r]) && Holds(t, m, rows, maxKey)
    ensures Insertable(t, sofar, rows[r], maxKey)
  {
    hide PkKey, IndexKey, Project, ValidRow;
    var row := rows[r];
    assert m[PkKey(t, row)] == row && RowFits(t, m[PkKey(t, row)], maxKey);
    forall k | k in sofar ensures k in m && m[k] == sofar[k] && k != PkKey(t, row) {
      var x :| 0 <= x < r && PkKey(t, rows[..r][x]) == k;
      assert rows[..r][x] == rows[x];
    }
    forall i | 0 <= i < |t.indexes| ensures Welcome(t, sofar, row, i, maxKey) {
      NextIsUnclaimed(t, sofar, m, row, i);
    }
  }

  lemma NextIsUnclaimed(t: TableDef, sofar: map<Key, Row>, m: map<Key, Row>, row: Row, i: nat)
    requires i < |t.indexes| && UniqueOk(t, m, i) && PkKey(t, row) in m && m[PkKey(t, row)] == row
    requires forall k :: k in sofar ==> k in m && m[k] == sofar[k] && k != PkKey(t, row)
    ensures Unclaimed(t, sofar, row, i)
  {
    hide PkKey, Project;
  }

  /** The rows of one table, without looking at foreign keys. */
  method LoadTable(w: Writer, td: TableDump) returns (ok: bool)
    requires w.Sound() && td.name in w.catalog && w.tables[td.name].rows == map[]
    modifies w`tables
    ensures w.Sound() && w.tables.Keys == old(w.tables).Keys
    ensures forall n :: n in w.tables && n != td.name ==> w.tables[n] == old(w.tables)[n]
    ensures ok <==> exists m :: Holds(w.catalog[td.name], m, td.rows, w.maxKey)
    ensures ok ==> Holds(w.catalog[td.name], w.tables[td.name].rows, td.rows, w.maxKey)
  {
    hide PkKey, IndexKey, Project, ValidRow, TableOk, CatalogOk, Holds, RowFits, Insertable, Lists, DefsOk, Ranked;
    hide KeysFit;
    ghost var t := w.catalog[td.name];
    var r := 0;
    NoneListed(t);
    assert td.rows[..0] == [];
    while r < |td.rows|
      invariant r <= |td.rows| && w.Sound() && w.tables.Keys == old(w.tables).Keys
      invariant forall n :: n in w.tables && n != td.name ==> w.tables[n] == old(w.tables)[n]
      invariant Lists(t, w.tables[td.name].rows, td.rows[..r])
    {
      ghost var sofar := w.tables[td.name].rows;
      var o := w.PutRow(td.name, td.rows[r], false);
      if o != Done {
        if m :| Holds(t, m, td.rows, w.maxKey) { NextGoesIn(t, sofar, m, td.rows, r, w.maxKey); }
        return false;
      }
      WentIn(t, sofar, td.rows[..r], td.rows[r], w.maxKey);
      assert td.rows[..r + 1] == td.rows[..r] + [td.rows[r]];
      r := r + 1;
    }
    assert td.rows[..r] == td.rows;
    w.TableFits(td.name);
    AllHeld(t, w.tables[td.name], td.rows, w.maxKey);
    ok := true;
  }

  lemma NoneListed(t: TableDef)
    ensures Lists(t, map[], [])
  {
  }

  lemma WentIn(t: TableDef, sofar: map<Key, Row>, rows: seq<Row>, row: Row, maxKey: nat)
    requires Lists(t, sofar, rows) && Insertable(t, sofar, row, maxKey)
    ensures Lists(t, sofar[PkKey(t, row) := row], rows + [row])
  {
    hide PkKey, IndexKey, Welcome;
    ListsMore(t, sofar, rows, row);
  }

  lemma AllHeld(t: TableDef, d: Table, rows: seq<Row>, maxKey: nat)
    requires TableOk(t, d) && Lists(t, d.rows, rows) && AllRowsFit(t, d.rows, maxKey)
    ensures Holds(t, d.rows, rows, maxKey)
  {
  }

  ghost predicate Loadable(t: TableDef, rows: seq<Row>, maxKey: nat) { exists m :: Holds(t, m, rows, maxKey) }

  method LoadTables(w: Writer, order: Dump) returns (ok: bool)
    requires w.Sound() && Describes(w.catalog, order)
    requires forall n :: n in w.tables ==> w.tables[n].rows == map[]
    modifies w`tables
    ensures w.Sound()
    ensures ok <==> forall i :: 0 <= i < |order| ==> Loadable(w.catalog[order[i].name], order[i].rows, w.maxKey)
    ensures ok ==> forall i :: 0 <= i < |order| ==>
              Holds(w.catalog[order[i].name], w.tables[order[i].name].rows, order[i].rows, w.maxKey)
  {
    hide Project, TableOk, CatalogOk, Holds, KeyNotNull, NamesOf, DefsOk, Ranked, KeysFit;
    var i := 0;
    while i < |order|
      invariant i <= |order| && w.Sound()
      invariant forall j :: 0 <= j < i ==>
                  Holds(w.catalog[order[j].name], w.tables[order[j].name].rows, order[j].rows, w.maxKey)
      invariant forall j :: i <= j < |order| ==> w.tables[order[j].name].rows == map[]
    {
      ok := LoadTable(w, order[i]);
      if !ok { return; }
      i := i + 1;
    }
    ok := true;
  }

  // ----- their foreign keys

  /** verify_foreign_keys: every row of the table is looked at. */
  predicate Verified(catalog: Catalog, tables: Tables, name: string)
    requires name in catalog && CatalogOk(catalog) && tables.Keys == catalog.Keys
    requires forall n :: n in catalog ==> |tables[n].entries| == |catalog[n].indexes|
  {
    forall k :: k in tables[name].rows ==> ParentsFound(catalog, tables, name, tables[name].rows[k], None)
  }

  ghost predicate ParentsHoldIn(catalog: Catalog, tables: Tables, name: string)
    requires name in catalog && name in tables
  {
    forall f, k :: 0 <= f < |catalog[name].foreignKeys| && k in tables[name].rows ==>
      HasParent(tables, catalog[name].foreignKeys[f], tables[name].rows[k])
  }

  /** A table passes exactly when its foreign keys have their parents. */
  lemma VerifiedIs(catalog: Catalog, tables: Tables, name: string)
    requires StoreOk(catalog, tables) && name in catalog
    ensures forall n :: n in catalog ==> |tables[n].entries| == |catalog[n].indexes|
    ensures Verified(catalog, tables, name) <==> ParentsHoldIn(catalog, tables, name)
  {
    hide Project, ValidRow, CatalogOk, ParentFound, AnyNull, HasValues;
    assert TableOk(catalog[name], tables[name]);
    forall f, k | 0 <= f < |catalog[name].foreignKeys| && k in tables[name].rows
      ensures var fk, v := catalog[name].foreignKeys[f],
              Project(tables[name].rows[k], catalog[name].foreignKeys[f].columns);
              && fk.refTable in catalog
              && (HasParent(tables, fk, tables[name].rows[k]) <==> AnyNull(v) || ParentFound(catalog, tables, fk, v))
    {
      ParentFoundIs(catalog, tables, name, f, tables[name].rows[k]);
    }
  }

  method VerifyTables(w: Writer, order: Dump) returns (ok: bool)
    requires StoreOk(w.catalog, w.tables) && NamesOf(order) == w.catalog.Keys
    ensures ok <==> ParentsHold(w.catalog, w.tables)
  {
    hide Project, CatalogOk, ParentFound, HasParent, Verified, ParentsFound;
    var i := 0;
    while i < |order|
      invariant i <= |order|
      invariant forall j :: 0 <= j < i ==>
                  order[j].name in w.catalog && ParentsHoldIn(w.catalog, w.tables, order[j].name)
    {
      assert order[i].name in NamesOf(order);
      VerifiedIs(w.catalog, w.tables, order[i].name);
      if !Verified(w.catalog, w.tables, order[i].name) { return false; }
      i := i + 1;
    }
    ok := true;
  }

  // ----- restore

  /** The dump of a store: its definitions, and the rows of every table. */
  ghost predicate IsDump(catalog: Catalog, tables: Tables, dump: Dump) {
    && Describes(catalog, dump) && tables.Keys == catalog.Keys
    && forall i :: 0 <= i < |dump| ==> Lists(catalog[dump[i].name], tables[dump[i].name].rows, dump[i].rows)
  }

  /** A store that creating tables and writing rows can lead to. */
  ghost predicate Good(catalog: Catalog, tables: Tables, maxKey: nat) {
    && DefsOk(catalog) && StoreOk(catalog, tables) && ParentsHold(catalog, tables)
    && (exists rank :: Ranked(catalog, rank))
    && KeysFit(catalog, tables, maxKey)
  }

  /** A good store has a dump in any order that lists it. */
  ghost predicate DumpOfGood(dump: Dump, maxKey: nat) {
    exists catalog, tables :: Good(catalog, tables, maxKey) && IsDump(catalog, tables, dump)
  }

  lemma SameEntries(t: TableDef, a: Table, b: Table)
    requires TableOk(t, a) && TableOk(t, b) && a.rows == b.rows
    ensures a == b
  {
    hide Project, IndexKey, RowsOk, WellFormed, UniqueOk;
    forall i | 0 <= i < |t.indexes| ensures a.entries[i] == b.entries[i] {
      assert IndexOk(t, a, i) && IndexOk(t, b, i);
    }
  }

  /** Two stores with the same dump are the same store, index entries and all. */
  lemma SameDumpSameStore(c: Catalog, t: Tables, c': Catalog, t': Tables, dump: Dump)
    requires StoreOk(c, t) && StoreOk(c', t') && IsDump(c, t, dump) && IsDump(c', t', dump)
    ensures c == c' && t == t'
  {
    hide Project, TableOk, CatalogOk, KeyNotNull, Lists, DistinctNames;
    DescribedOnce(c, c', dump);
    forall name | name in c ensures t[name] == t'[name] {
      var i :| 0 <= i < |dump| && dump[i].name == name;
      ListedOnce(c[name], t[name].rows, t'[name].rows, dump[i].rows);
      SameEntries(c[name], t[name], t'[name]);
    }
  }

  /** The order in which a dump lists its tables does not matter. */
  lemma Reordered(catalog: Catalog, tables: Tables, dump: Dump, order: Dump)
    requires multiset(order) == multiset(dump) && IsDump(catalog, tables, dump)
    ensures IsDump(catalog, tables, order)
  {
    hide KeyNotNull, Lists;
    Shuffled(dump, order);
    forall i | 0 <= i < |order|
      ensures order[i].name in catalog && catalog[order[i].name] == KeyNotNull(order[i].def)
      ensures Lists(catalog[order[i].name], tables[order[i].name].rows, order[i].rows)
    {
      assert order[i] in multiset(dump);
      var j :| 0 <= j < |dump| && dump[j] == order[i];
    }
  }

  lemma GoodIsOrderly(catalog: Catalog, rank: map<string, nat>, dump: Dump)
    requires Ranked(catalog, rank) && Describes(catalog, dump)
    ensures Orderly(dump, rank)
  {
    hide RefersTo, KeyNotNull;
    forall i, parent | 0 <= i < |dump| && RefersTo(dump[i].def, dump[i].name, parent)
      ensures InDump(dump, rank, dump[i].name, parent)
    {
      SameForeignKeys(dump[i].def);
      SameReferences(dump[i].def, catalog[dump[i].name], dump[i].name, parent);
      assert Falls(catalog, rank, dump[i].name, parent);
    }
  }

  /** No step of restore fails on the dump of a good store. */
  lemma GoodGoesThrough(c: Catalog, t: Tables, maxKey: nat, order: Dump)
    requires Good(c, t, maxKey) && IsDump(c, t, order) && ParentsFirst(order)
    ensures Creatable(order) && CatalogOf(order) == c
    ensures forall i :: 0 <= i < |order| ==> order[i].name in c && Loadable(c[order[i].name], order[i].rows, maxKey)
  {
    hide Project, CatalogOk, KeyNotNull, ValidDef, HasParent, Lists, TableOk, CatalogOf, RowFits;
    forall i | 0 <= i < |order| ensures CreatableAt(order, i) { GoodCreatable(c, order, i); }
    CreatedIs(c, order);
    forall i | 0 <= i < |order| ensures order[i].name in c && Loadable(c[order[i].name], order[i].rows, maxKey) {
      AllHeld(c[order[i].name], t[order[i].name], order[i].rows, maxKey);
    }
  }

  lemma CreatedIs(c: Catalog, order: Dump)
    requires Describes(c, order)
    ensures CatalogOf(order) == c
  {
    hide KeyNotNull, CatalogOf;
    CatalogNames(order);
    forall name | name in c ensures CatalogOf(order)[name] == c[name] {
      var i :| 0 <= i < |order| && order[i].name == name;
      CatalogHas(order, i);
    }
  }

  /** What CreateTables makes is described by the dump, and empty. */
  lemma CreatedDescribes(order: Dump)
    requires Creatable(order)
    ensures Describes(CatalogOf(order), order)
    ensures forall n :: n in EmptyTables(order) ==> EmptyTables(order)[n].rows == map[]
  {
    hide KeyNotNull, ValidDef, CatalogOf, EmptyTables, NamesOf;
    forall i, j | 0 <= i < j < |order| ensures order[i].name != order[j].name {
      assert CreatableAt(order, j);
      CatalogNames(order[..j]);
      NamedEarlier(order, i, j);
    }
    CatalogNames(order);
    forall i | 0 <= i < |order|
      ensures order[i].name in CatalogOf(order) && CatalogOf(order)[order[i].name] == KeyNotNull(order[i].def)
    {
      CatalogHas(order, i);
    }
    forall n | n in EmptyTables(order) ensures EmptyTables(order)[n].rows == map[] {
      NameAt(order, n);
      var i :| 0 <= i < |order| && order[i].name == n;
      CatalogHas(order, i);
    }
  }

  lemma NamedEarlier(order: Dump, i: nat, j: nat)
    requires i < j <= |order|
    ensures order[i].name in NamesOf(order[..j])
  {
    assert order[..j][i] == order[i];
  }

  lemma NameAt(order: Dump, name: string)
    requires name in NamesOf(order)
    ensures exists i :: 0 <= i < |order| && order[i].name == name
  {
  }

  lemma DumpIsOrderly(dump: Dump, maxKey: nat)
    requires DumpOfGood(dump, maxKey)
    ensures exists rank :: Orderly(dump, rank)
  {
    hide DefsOk, StoreOk, ParentsHold, Ranked, AllRowsFit, Describes, Lists, Orderly;
    var c, t :| Good(c, t, maxKey) && IsDump(c, t, dump);
    var rank :| Ranked(c, rank);
    GoodIsOrderly(c, rank, dump);
  }

  lemma DumpGoesThrough(dump: Dump, order: Dump, maxKey: nat)
    requires DumpOfGood(dump, maxKey) && multiset(order) == multiset(dump) && ParentsFirst(order)
    ensures Creatable(order)
    ensures forall i :: 0 <= i < |order| ==>
              order[i].name in CatalogOf(order) && Loadable(CatalogOf(order)[order[i].name], order[i].rows, maxKey)
  {
    hide Good, IsDump, ParentsFirst, Creatable, Loadable, CatalogOf;
    var c, t :| Good(c, t, maxKey) && IsDump(c, t, dump);
    Reordered(c, t, dump, order);
    GoodGoesThrough(c, t, maxKey, order);
  }

  /** Every table of the order holds its rows. */
  ghost predicate AllHold(c: Catalog, t: Tables, order: Dump, maxKey: nat) {
    forall i :: 0 <= i < |order| ==>
      order[i].name in c && order[i].name in t && Holds(c[order[i].name], t[order[i].name].rows, order[i].rows, maxKey)
  }

  lemma LoadedIsDump(c: Catalog, t: Tables, dump: Dump, order: Dump, maxKey: nat)
    requires StoreOk(c, t) && Describes(c, order) && AllHold(c, t, order, maxKey) && multiset(order) == multiset(dump)
    ensures IsDump(c, t, dump)
  {
    hide CatalogOk, TableOk, Lists, Describes;
    Described(c, order);
    Reordered(c, t, order, dump);
  }

  lemma Described(c: Catalog, order: Dump)
    requires Describes(c, order)
    ensures NamesOf(order) == c.Keys && forall i :: 0 <= i < |order| ==> order[i].name in c
  {
  }

  lemma DumpHasParents(c: Catalog, t: Tables, dump: Dump, maxKey: nat)
    requires StoreOk(c, t) && IsDump(c, t, dump) && DumpOfGood(dump, maxKey)
    ensures ParentsHold(c, t)
  {
    hide StoreOk, IsDump, ParentsHold, DefsOk, Ranked, AllRowsFit;
    var c', t' :| Good(c', t', maxKey) && IsDump(c', t', dump);
    SameDumpSameStore(c, t, c', t', dump);
  }

  /** restore: into an empty store, in one transaction; it takes exactly the dumps of good stores. */
  method Restore(s: Writer, dump: Dump) returns (o: Outcome)
    requires s.Valid()
    modifies s
    ensures s.Valid()
    ensures o == Done <==> old(s.catalog) == map[] && DumpOfGood(dump, s.maxKey)
    ensures o == Done ==> IsDump(s.catalog, s.tables, dump)
    ensures o != Done ==> s.catalog == old(s.catalog) && s.tables == old(s.tables)
  {
    hide DefsOk, StoreOk, ParentsHold, Ranked, KeysFit, Lists, Holds, Loadable, Creatable, Describes, Orderly;
    hide ParentsFirst;
    hide Good, IsDump, EmptyTables, CatalogOf, NamesOf;
    if s.catalog != map[] { return BadArgument; }
    var ok, order := OrderTables(dump);
    if !ok {
      if DumpOfGood(dump, s.maxKey) { DumpIsOrderly(dump, s.maxKey); }
      return BadArgument;
    }
    if DumpOfGood(dump, s.maxKey) { DumpGoesThrough(dump, order, s.maxKey); }
    var tx := new Writer(s.maxKey);
    ok := CreateTables(tx, order);
    if !ok { return BadArgument; }
    CreatedDescribes(order);
    ok := LoadTables(tx, order);
    if !ok { return Constraint; }
    Described(tx.catalog, order);
    SameNamesAsTables(tx.catalog, tx.tables);
    LoadedIsDump(tx.catalog, tx.tables, dump, order, s.maxKey);
    ok := VerifyTables(tx, order);
    if !ok {
      if DumpOfGood(dump, s.maxKey) { DumpHasParents(tx.catalog, tx.tables, dump, s.maxKey); }
      return Constraint;
    }
    assert Good(tx.catalog, tx.tables, s.maxKey) by { GoodNow(tx); }
    s.catalog, s.tables, s.rank := tx.catalog, tx.tables, tx.rank;
    o := Done;
  }

  lemma GoodNow(w: Writer)
    requires w.Valid()
    ensures Good(w.catalog, w.tables, w.maxKey)
  {
    hide DefsOk, StoreOk, ParentsHold, Ranked, KeysFit;
  }

  lemma SameNamesAsTables(c: Catalog, t: Tables)
    requires StoreOk(c, t)
    ensures t.Keys == c.Keys
  {
  }

  // ----- dump

  /** The order of table names in the catalog. */
  predicate NameBefore(a: string, b: string)
    decreases |a|
  {
    b != [] && (a == [] || a[0] < b[0] || (a[0] == b[0] && NameBefore(a[1..], b[1..])))
  }

  lemma {:induction false} NamesAreOrdered(a: string, b: string, c: string)
    ensures !(NameBefore(a, b) && NameBefore(b, a)) && (a != b ==> NameBefore(a, b) || NameBefore(b, a))
    ensures NameBefore(a, b) && NameBefore(b, c) ==> NameBefore(a, c)
    decreases |a|
  {
    if a != [] && b != [] && c != [] {
      NamesAreOrdered(a[1..], b[1..], c[1..]);
      assert a == [a[0]] + a[1..] && b == [b[0]] + b[1..];
    } else if a != [] && b != [] {
      NamesAreOrdered(a[1..], b[1..], []);
      assert a == [a[0]] + a[1..] && b == [b[0]] + b[1..];
    }
  }

  lemma {:induction false} LeastName(names: set<string>) returns (least: string)
    requires names != {}
    ensures least in names && forall other :: other in names && other != least ==> NameBefore(least, other)
    decreases names
  {
    var x :| x in names;
    var rest := names - {x};
    if rest == {} {
      least := x;
      assert names == {x};
    } else {
      least := LeastName(rest);
      NamesAreOrdered(x, least, x);
      var y := if NameBefore(x, least) then x else least;
      forall other | other in names && other != y ensures NameBefore(y, other) {
        NamesAreOrdered(y, least, other);
        if other != x { assert other in rest; }
      }
      least := y;
    }
  }

  lemma {:induction false} LeastKey(keys: set<Key>) returns (least: Key)
    requires keys != {}
    ensures least in keys && forall other :: other in keys && other != least ==> Compare(least, other) < 0
    decreases keys
  {
    hide Pos, Compare;
    var x :| x in keys;
    var rest := keys - {x};
    if rest == {} {
      least := x;
      assert keys == {x};
    } else {
      least := LeastKey(rest);
      ComparePos(x, least);
      ComparePos(least, x);
      var y := if Compare(x, least) < 0 then x else least;
      forall other | other in keys && other != y ensures Compare(y, other) < 0 {
        ComparePos(y, other);
        ComparePos(least, other);
        if other != x { assert other in rest; }
      }
      least := y;
    }
  }

  predicate RowBefore(t: TableDef, a: Row, b: Row) { Compare(PkKey(t, a), PkKey(t, b)) < 0 }

  ghost predicate InKeyOrder(t: TableDef, rows: seq<Row>) {
    forall i, j :: 0 <= i < j < |rows| ==> RowBefore(t, rows[i], rows[j])
  }

  ghost predicate InNameOrder(dump: Dump) {
    forall i, j :: 0 <= i < j < |dump| ==> NameBefore(dump[i].name, dump[j].name)
  }

  /** The dump of a store: tables by name, with their definitions, and rows by primary key. */
  ghost predicate IsOrderedDump(catalog: Catalog, tables: Tables, dump: Dump) {
    && IsDump(catalog, tables, dump) && InNameOrder(dump)
    && forall i :: 0 <= i < |dump| ==>
         dump[i].name in catalog && dump[i].def == catalog[dump[i].name] && InKeyOrder(dump[i].def, dump[i].rows)
  }

  method ListRows(t: TableDef, m: map<Key, Row>) returns (rows: seq<Row>)
    requires RowsOk(t, m)
    ensures Lists(t, m, rows) && InKeyOrder(t, rows)
  {
    hide PkKey, ValidRow, Compare;
    var rest := m.Keys;
    rows := [];
    NoneListed(t);
    ghost var done: map<Key, Row> := map[];
    while rest != {}
      invariant rest <= m.Keys && done.Keys == m.Keys - rest && (forall k :: k in done ==> done[k] == m[k])
      invariant Lists(t, done, rows)
      invariant InKeyOrder(t, rows) && forall i, k :: 0 <= i < |rows| && k in rest ==> Compare(PkKey(t, rows[i]), k) < 0
      decreases |rest|
    {
      ghost var least := LeastKey(rest);
      var k :| k in rest && forall other :: other in rest && other != k ==> Compare(k, other) < 0;
      ListsMore(t, done, rows, m[k]);
      rows, rest, done := rows + [m[k]], rest - {k}, done[k := m[k]];
    }
    assert done == m;
  }

  /** Some of the tables of a store, in order. */
  ghost predicate PartOf(catalog: Catalog, tables: Tables, dump: Dump) {
    && DistinctNames(dump) && InNameOrder(dump)
    && forall i :: 0 <= i < |dump| ==>
         && dump[i].name in catalog && dump[i].name in tables && dump[i].def == catalog[dump[i].name]
         && KeyNotNull(dump[i].def) == dump[i].def
         && Lists(catalog[dump[i].name], tables[dump[i].name].rows, dump[i].rows)
         && InKeyOrder(dump[i].def, dump[i].rows)
  }

  /** What is listed comes before what is left. */
  ghost predicate Precedes(dump: Dump, rest: set<string>) {
    forall i, name :: 0 <= i < |dump| && name in rest ==> NameBefore(dump[i].name, name)
  }

  lemma PrecedesMore(dump: Dump, rest: set<string>, td: TableDump)
    requires Precedes(dump, rest) && td.name in rest
    requires forall other :: other in rest && other != td.name ==> NameBefore(td.name, other)
    ensures Precedes(dump + [td], rest - {td.name}) && Precedes(dump, {td.name})
  {
    hide NameBefore;
  }

  lemma PrecededByNone(rest: set<string>)
    ensures Precedes([], rest)
  {
  }

  lemma PartMore(catalog: Catalog, tables: Tables, dump: Dump, name: string, rows: seq<Row>)
    requires PartOf(catalog, tables, dump) && DefsOk(catalog) && name in catalog && name in tables
    requires name !in NamesOf(dump)
    requires Lists(catalog[name], tables[name].rows, rows) && InKeyOrder(catalog[name], rows)
    requires Precedes(dump, {name})
    ensures PartOf(catalog, tables, dump + [TableDump(name, catalog[name], rows)])
    ensures NamesOf(dump + [TableDump(name, catalog[name], rows)]) == NamesOf(dump) + {name}
  {
    hide Lists, KeyNotNull, CatalogOk, NameBefore, InKeyOrder;
    NamesAppend(dump, TableDump(name, catalog[name], rows));
    Fresh(dump, TableDump(name, catalog[name], rows));
  }

  /** dump. */
  method DumpStore(s: Writer) returns (dump: Dump)
    requires s.Valid()
    ensures IsOrderedDump(s.catalog, s.tables, dump)
  {
    hide ParentsHold, Ranked, DefsOk, CatalogOk, NamesOf, PartOf, RowsOk, IndexOk, UniqueOk, WellFormed, Lists, KeysFit;
    hide NameBefore, InKeyOrder, Precedes, IsOrderedDump;
    var rest := s.catalog.Keys;
    dump := [];
    NoNames();
    NoPart(s.catalog, s.tables);
    PrecededByNone(rest);
    while rest != {}
      invariant rest <= s.catalog.Keys && NamesOf(dump) == s.catalog.Keys - rest && PartOf(s.catalog, s.tables, dump)
      invariant Precedes(dump, rest)
      decreases |rest|
    {
      ghost var least := LeastName(rest);
      var name :| name in rest && forall other :: other in rest && other != name ==> NameBefore(name, other);
      assert TableOk(s.catalog[name], s.tables[name]);
      var rows := ListRows(s.catalog[name], s.tables[name].rows);
      PrecedesMore(dump, rest, TableDump(name, s.catalog[name], rows));
      PartMore(s.catalog, s.tables, dump, name, rows);
      dump, rest := dump + [TableDump(name, s.catalog[name], rows)], rest - {name};
    }
    WholePart(s.catalog, s.tables, dump);
  }

  lemma NoPart(catalog: Catalog, tables: Tables)
    ensures PartOf(catalog, tables, [])
  {
  }

  lemma WholePart(catalog: Catalog, tables: Tables, dump: Dump)
    requires PartOf(catalog, tables, dump) && NamesOf(dump) == catalog.Keys == tables.Keys
    ensures IsOrderedDump(catalog, tables, dump)
  {
    hide Lists, KeyNotNull, InKeyOrder, NameBefore;
  }

  lemma Fresh(dump: Dump, td: TableDump)
    requires DistinctNames(dump) && td.name !in NamesOf(dump)
    ensures DistinctNames(dump + [td])
  {
  }

  /** Of the same elements, there is one list in order. */
  lemma {:induction false} OneOrder<T(!new)>(a: seq<T>, b: seq<T>, before: (T, T) -> bool)
    requires forall x, y :: before(x, y) ==> !before(y, x)
    requires forall i, j :: 0 <= i < j < |a| ==> before(a[i], a[j])
    requires forall i, j :: 0 <= i < j < |b| ==> before(b[i], b[j])
    requires forall x :: x in a <==> x in b
    ensures a == b
    decreases |a|
  {
    assert b != [] ==> b[0] in b;
    if a != [] {
      assert a[0] in a && a[0] in b;
      assert b[0] in b && b[0] in a;
      var i :| 0 <= i < |b| && b[i] == a[0];
      var j :| 0 <= j < |a| && a[j] == b[0];
      assert a[0] == b[0];
      forall x ensures x in a[1..] <==> x in b[1..] {
        InTail(a, x, before);
        InTail(b, x, before);
      }
      OneOrder(a[1..], b[1..], before);
    }
  }

  lemma InTail<T(!new)>(a: seq<T>, x: T, before: (T, T) -> bool)
    requires a != [] && (forall x, y :: before(x, y) ==> !before(y, x))
    requires forall i, j :: 0 <= i < j < |a| ==> before(a[i], a[j])
    ensures x in a[1..] <==> x in a && x != a[0]
  {
  }

  lemma RowsOnce(t: TableDef, m: map<Key, Row>, a: seq<Row>, b: seq<Row>)
    requires Lists(t, m, a) && Lists(t, m, b) && InKeyOrder(t, a) && InKeyOrder(t, b)
    ensures a == b
  {
    hide PkKey;
    forall x, y | RowBefore(t, x, y) ensures !RowBefore(t, y, x) { CompareFlips(PkKey(t, x), PkKey(t, y)); }
    ListedIn(t, m, a, b);
    ListedIn(t, m, b, a);
    OneOrder(a, b, (x, y) => RowBefore(t, x, y));
  }

  lemma ListedIn(t: TableDef, m: map<Key, Row>, a: seq<Row>, b: seq<Row>)
    requires Lists(t, m, a) && Lists(t, m, b)
    ensures forall x :: x in a ==> x in b
  {
    hide PkKey;
    forall x | x in a ensures x in b {
      var i :| 0 <= i < |a| && a[i] == x;
      assert PkKey(t, x) in KeysOf(t, b);
      var j :| 0 <= j < |b| && PkKey(t, b[j]) == PkKey(t, x);
    }
  }

  /** A store has one dump. */
  lemma OneDump(catalog: Catalog, tables: Tables, a: Dump, b: Dump)
    requires IsOrderedDump(catalog, tables, a) && IsOrderedDump(catalog, tables, b)
    ensures a == b
  {
    hide InKeyOrder, NameBefore, Lists, KeyNotNull, IsDump;
    forall x: TableDump, y: TableDump | NameBefore(x.name, y.name)
      ensures !NameBefore(y.name, x.name)
    {
      NamesAreOrdered(x.name, y.name, x.name);
    }
    DumpedIn(catalog, tables, a, b);
    DumpedIn(catalog, tables, b, a);
    OneOrder(a, b, (x: TableDump, y: TableDump) => NameBefore(x.name, y.name));
  }

  lemma DumpedIn(catalog: Catalog, tables: Tables, a: Dump, b: Dump)
    requires IsOrderedDump(catalog, tables, a) && IsOrderedDump(catalog, tables, b)
    ensures forall x :: x in a ==> x in b
  {
    hide InKeyOrder, InNameOrder, Lists, KeyNotNull;
    forall x | x in a ensures x in b {
      var i :| 0 <= i < |a| && a[i] == x;
      assert x.name in NamesOf(b);
      var j :| 0 <= j < |b| && b[j].name == x.name;
      RowsOnce(x.def, tables[x.name].rows, x.rows, b[j].rows);
      assert b[j] == x;
    }
  }

  /** Dumping a store and restoring the dump into an empty one gives the store back, dump and all. It fails only if a
      key is too long for the pages of the other store, so never with the same page size. */
  method CopyStore(from: Writer, to: Writer) returns (o: Outcome, dump: Dump, again: Dump)
    requires from.Valid() && to.Valid() && from != to && to.catalog == map[]
    modifies to
    ensures to.Valid() && IsOrderedDump(from.catalog, from.tables, dump) && IsOrderedDump(to.catalog, to.tables, again)
    ensures o == Done <==> KeysFit(from.catalog, from.tables, to.maxKey)
    ensures to.maxKey >= from.maxKey ==> o == Done
    ensures o == Done ==> to.catalog == from.catalog && to.tables == from.tables && again == dump
  {
    hide DefsOk, StoreOk, ParentsHold, Ranked, IsDump, KeysFit, InNameOrder, InKeyOrder;
    dump := DumpStore(from);
    o := Restore(to, dump);
    if o == Done {
      SameDumpSameStore(from.catalog, from.tables, to.catalog, to.tables, dump);
      ghost var c, t :| Good(c, t, to.maxKey) && IsDump(c, t, dump);
      SameDumpSameStore(from.catalog, from.tables, c, t, dump);
    }
    if o != Done { assert !Good(from.catalog, from.tables, to.maxKey); }
    if to.maxKey >= from.maxKey { FitsLarger(from.catalog, from.tables, from.maxKey, to.maxKey); }
    again := DumpStore(to);
    if o == Done { OneDump(from.catalog, from.tables, dump, again); }
  }

  lemma FitsLarger(catalog: Catalog, tables: Tables, a: nat, b: nat)
    requires KeysFit(catalog, tables, a) && a <= b
    ensures KeysFit(catalog, tables, b)
  {
    hide PkKey, IndexKey;
    forall name | name in catalog && name in tables ensures AllRowsFit(catalog[name], tables[name].rows, b) {
      assert AllRowsFit(catalog[name], tables[name].rows, a);
      forall k | k in tables[name].rows ensures RowFits(catalog[name], tables[name].rows[k], b) {
        assert RowFits(catalog[name], tables[name].rows[k], a);
      }
    }
  }
}
