/** Table definitions as catalog rows (encode_table_def and decode_table_def in engine/src/engine/store.cpp). */
module CatalogCodec {
  import opened PageFormat
  import opened KeyCodec
  import opened RowCodec

  type PageRef = n: nat | n < 0x1_0000_0000_0000_0000

  datatype ColumnDef = ColumnDef(name: Bytes, kind: ColumnType, nullable: bool, scale: Byte)

  datatype SavedIndex = SavedIndex(name: Bytes, root: PageRef, unique: bool, columns: seq<Bytes>)

  datatype SavedForeignKey = SavedForeignKey(name: Bytes, refTable: Bytes, columns: seq<Bytes>, refColumns: seq<Bytes>)

  datatype CheckOp = Eq | Ne | Lt | Le | Gt | Ge | In

  /** A comparison with constants, or, if `other` is not empty, with another column. */
  datatype CheckDef = CheckDef(name: Bytes, column: Bytes, other: Bytes, op: CheckOp, operands: seq<Value>)

  datatype SavedTable = SavedTable(
    name: Bytes, root: PageRef, columns: seq<ColumnDef>, primaryKey: seq<Bytes>,
    indexes: seq<SavedIndex>, foreignKeys: seq<SavedForeignKey>, checks: seq<CheckDef>)

  // ----- codes

  function TypeCode(t: ColumnType): (c: nat)
    ensures 1 <= c <= 7
  {
    match t case Integer => 1 case Decimal => 2 case Text => 3 case Blob => 4 case Timestamp => 5 case Boolean =>
      6 case Uuid => 7
  }

  function TypeOf(c: int): Option<ColumnType> {
    match c
    case 1 => Some(Integer) case 2 => Some(Decimal) case 3 => Some(Text) case 4 => Some(Blob)
    case 5 => Some(Timestamp) case 6 => Some(Boolean) case 7 => Some(Uuid) case _ => None
  }

  function OpCode(o: CheckOp): (c: nat)
    ensures 1 <= c <= 7
  {
    match o case Eq => 1 case Ne => 2 case Lt => 3 case Le => 4 case Gt => 5 case Ge => 6 case In => 7
  }

  function OpOf(c: int): Option<CheckOp> {
    match c
    case 1 => Some(Eq) case 2 => Some(Ne) case 3 => Some(Lt) case 4 => Some(Le)
    case 5 => Some(Gt) case 6 => Some(Ge) case 7 => Some(In) case _ => None
  }

  /** A list length as it is written; no list in memory is longer than an integer. */
  function Count(n: nat): Int64 { if n < HALF then n else HALF - 1 }

  // ----- reading a row from the front (RowCursor)

  type Parsed<+T> = Option<(T, Row)>

  function TakeText(r: Row): Parsed<Bytes> { if r != [] && r[0].TextValue? then Some((r[0].bytes, r[1..])) else None }

  function TakeInt(r: Row): Parsed<Int64> { if r != [] && r[0].IntegerValue? then Some((r[0].i, r[1..])) else None }

  function TakeValue(r: Row): Parsed<Value> { if r != [] then Some((r[0], r[1..])) else None }

  function TakeMany<T>(r: Row, n: nat, take: Row -> Parsed<T>): Parsed<seq<T>>
    decreases n
  {
    if n == 0 then Some(([], r)) else
    var x := take(r);
    if x.None? then None else
    var rest := TakeMany(x.value.1, n - 1, take);
    if rest.None? then None else Some(([x.value.0] + rest.value.0, rest.value.1))
  }

  /** A length, at least `least` and at most 4096, and as many items. */
  function TakeList<T>(r: Row, least: nat, take: Row -> Parsed<T>): Parsed<seq<T>> {
    var n := TakeInt(r);
    if n.None? || n.value.0 < least || n.value.0 > 4096 then None else TakeMany(n.value.1, n.value.0, take)
  }

  function PutMany<T>(xs: seq<T>, put: T -> Row): Row
    decreases |xs|
  {
    if xs == [] then [] else put(xs[0]) + PutMany(xs[1..], put)
  }

  function PutList<T>(xs: seq<T>, put: T -> Row): Row { [IntegerValue(Count(|xs|))] + PutMany(xs, put) }

  /** `take` reads back what `put` writes, if it is within bounds, and refuses it otherwise. */
  ghost predicate Inverse<T(!new)>(put: T -> Row, take: Row -> Parsed<T>, ok: T -> bool) {
    forall x: T, rest: Row :: take(put(x) + rest) == if ok(x) then Some((x, rest)) else None
  }

  predicate AllOk<T>(xs: seq<T>, ok: T -> bool) { forall i :: 0 <= i < |xs| ==> ok(xs[i]) }

  lemma {:induction false} ManyBack<T(!new)>(xs: seq<T>, put: T -> Row, take: Row -> Parsed<T>, ok: T -> bool,
                                             rest: Row)
    requires Inverse(put, take, ok)
    ensures TakeMany(PutMany(xs, put) + rest, |xs|, take) == if AllOk(xs, ok) then Some((xs, rest)) else None
    decreases |xs|
  {
    if xs == [] {
      assert PutMany(xs, put) + rest == rest;
    } else {
      assert PutMany(xs, put) + rest == put(xs[0]) + (PutMany(xs[1..], put) + rest);
      ManyBack(xs[1..], put, take, ok, rest);
      assert [xs[0]] + xs[1..] == xs;
      assert AllOk(xs, ok) <==> ok(xs[0]) && AllOk(xs[1..], ok);
    }
  }

  lemma ListBack<T(!new)>(xs: seq<T>, least: nat, put: T -> Row, take: Row -> Parsed<T>, ok: T -> bool, rest: Row)
    requires Inverse(put, take, ok)
    ensures TakeList(PutList(xs, put) + rest, least, take)
         == if least <= |xs| <= 4096 && AllOk(xs, ok) then Some((xs, rest)) else None
  {
    hide PutMany, TakeMany, AllOk, Inverse;
    var r := PutList(xs, put) + rest;
    assert r == [IntegerValue(Count(|xs|))] + (PutMany(xs, put) + rest);
    assert r[1..] == PutMany(xs, put) + rest;
    if |xs| <= 4096 { ManyBack(xs, put, take, ok, rest); }
  }

  // ----- the parts of a definition

  function AsSigned(n: PageRef): Int64 { if n < HALF then n else n - FULL }

  function PutText(b: Bytes): Row { [TextValue(b)] }

  function PutValue(v: Value): Row { [v] }

  function PutColumn(c: ColumnDef): Row {
    [TextValue(c.name), IntegerValue(TypeCode(c.kind)), BooleanValue(c.nullable), IntegerValue(c.scale)]
  }

  function TakeColumn(r: Row): Parsed<ColumnDef> {
    if |r| < 4 || !r[0].TextValue? || !r[1].IntegerValue? || !r[2].BooleanValue? || !r[3].IntegerValue? then None
    else if TypeOf(r[1].i).None? || r[3].i < 0 || r[3].i > 18 then None
    else Some((ColumnDef(r[0].bytes, TypeOf(r[1].i).value, r[2].b, r[3].i), r[4..]))
  }

  function PutIndex(x: SavedIndex): Row {
    [TextValue(x.name), IntegerValue(AsSigned(x.root)), BooleanValue(x.unique)] + PutList(x.columns, PutText)
  }

  function TakeIndex(r: Row): Parsed<SavedIndex> {
    if |r| < 3 || !r[0].TextValue? || !r[1].IntegerValue? || !r[2].BooleanValue? then None else
    var columns := TakeList(r[3..], 0, TakeText);
    if columns.None? then None
    else Some((SavedIndex(r[0].bytes, Unsigned(r[1].i), r[2].b, columns.value.0), columns.value.1))
  }

  function PutForeignKey(fk: SavedForeignKey): Row {
    [TextValue(fk.name), TextValue(fk.refTable)] + (PutList(fk.columns, PutText) + PutList(fk.refColumns, PutText))
  }

  function TakeForeignKey(r: Row): Parsed<SavedForeignKey> {
    if |r| < 2 || !r[0].TextValue? || !r[1].TextValue? then None else
    var columns := TakeList(r[2..], 0, TakeText);
    if columns.None? then None else
    var refs := TakeList(columns.value.1, 0, TakeText);
    if refs.None? then None
    else Some((SavedForeignKey(r[0].bytes, r[1].bytes, columns.value.0, refs.value.0), refs.value.1))
  }

  function PutCheck(c: CheckDef): Row {
    [TextValue(c.name), TextValue(c.column), TextValue(c.other), IntegerValue(OpCode(c.op))]
      + PutList(c.operands, PutValue)
  }

  function TakeCheck(r: Row): Parsed<CheckDef> {
    if |r| < 4 || !r[0].TextValue? || !r[1].TextValue? || !r[2].TextValue? || !r[3].IntegerValue? then None
    else if OpOf(r[3].i).None? then None else
    var operands := TakeList(r[4..], if r[2].bytes == [] then 1 else 0, TakeValue);
    if operands.None? || (r[2].bytes != [] && operands.value.0 != []) then None
    else Some((CheckDef(r[0].bytes, r[1].bytes, r[2].bytes, OpOf(r[3].i).value, operands.value.0), operands.value.1))
  }

  predicate Any<T>(x: T) { true }

  predicate ColumnBounded(c: ColumnDef) { c.scale <= 18 }

  predicate IndexBounded(x: SavedIndex) { |x.columns| <= 4096 }

  predicate ForeignKeyBounded(fk: SavedForeignKey) { |fk.columns| <= 4096 && |fk.refColumns| <= 4096 }

  predicate CheckBounded(c: CheckDef) { if c.other == [] then 1 <= |c.operands| <= 4096 else c.operands == [] }

  lemma TextsBack()
    ensures Inverse(PutText, TakeText, Any<Bytes>) && Inverse(PutValue, TakeValue, Any<Value>)
  {
    forall b: Bytes, rest: Row
      ensures TakeText(PutText(b) + rest) == Some((b, rest))
    {
      assert (PutText(b) + rest)[1..] == rest;
    }
    forall v: Value, rest: Row
      ensures TakeValue(PutValue(v) + rest) == Some((v, rest))
    {
      assert (PutValue(v) + rest)[1..] == rest;
    }
  }

  lemma ColumnBack(c: ColumnDef, rest: Row)
    ensures TakeColumn(PutColumn(c) + rest) == if ColumnBounded(c) then Some((c, rest)) else None
  {
    assert (PutColumn(c) + rest)[4..] == rest;
  }

  lemma ColumnsBack()
    ensures Inverse(PutColumn, TakeColumn, ColumnBounded)
  {
    hide PutColumn, TakeColumn, ColumnBounded;
    forall c: ColumnDef, rest: Row
      ensures TakeColumn(PutColumn(c) + rest) == if ColumnBounded(c) then Some((c, rest)) else None
    {
      ColumnBack(c, rest);
    }
  }

  lemma IndexBack(x: SavedIndex, rest: Row)
    ensures TakeIndex(PutIndex(x) + rest) == if IndexBounded(x) then Some((x, rest)) else None
  {
    hide PutList, TakeList, PutText, TakeText, Inverse;
    TextsBack();
    ListBack(x.columns, 0, PutText, TakeText, Any<Bytes>, rest);
    AnyOk(x.columns);
    assert (PutIndex(x) + rest)[3..] == PutList(x.columns, PutText) + rest;
  }

  lemma IndexesBack()
    ensures Inverse(PutIndex, TakeIndex, IndexBounded)
  {
    hide PutIndex, TakeIndex, IndexBounded;
    forall x: SavedIndex, rest: Row
      ensures TakeIndex(PutIndex(x) + rest) == if IndexBounded(x) then Some((x, rest)) else None
    {
      IndexBack(x, rest);
    }
  }

  lemma ForeignKeyBack(x: SavedForeignKey, rest: Row)
    ensures TakeForeignKey(PutForeignKey(x) + rest) == if ForeignKeyBounded(x) then Some((x, rest)) else None
  {
    hide PutList, TakeList, PutText, TakeText, Inverse;
    TextsBack();
    var a, b := PutList(x.columns, PutText), PutList(x.refColumns, PutText);
    ListBack(x.columns, 0, PutText, TakeText, Any<Bytes>, b + rest);
    ListBack(x.refColumns, 0, PutText, TakeText, Any<Bytes>, rest);
    AnyOk(x.columns);
    AnyOk(x.refColumns);
    assert (PutForeignKey(x) + rest)[2..] == a + (b + rest);
  }

  lemma ForeignKeysBack()
    ensures Inverse(PutForeignKey, TakeForeignKey, ForeignKeyBounded)
  {
    hide PutForeignKey, TakeForeignKey, ForeignKeyBounded;
    forall x: SavedForeignKey, rest: Row
      ensures TakeForeignKey(PutForeignKey(x) + rest) == if ForeignKeyBounded(x) then Some((x, rest)) else None
    {
      ForeignKeyBack(x, rest);
    }
  }

  lemma CheckBack(x: CheckDef, rest: Row)
    ensures TakeCheck(PutCheck(x) + rest) == if CheckBounded(x) then Some((x, rest)) else None
  {
    hide PutList, TakeList, PutValue, TakeValue, Inverse;
    TextsBack();
    ListBack(x.operands, if x.other == [] then 1 else 0, PutValue, TakeValue, Any<Value>, rest);
    AnyOk(x.operands);
    assert (PutCheck(x) + rest)[4..] == PutList(x.operands, PutValue) + rest;
  }

  lemma ChecksBack()
    ensures Inverse(PutCheck, TakeCheck, CheckBounded)
  {
    hide PutCheck, TakeCheck, CheckBounded;
    forall x: CheckDef, rest: Row
      ensures TakeCheck(PutCheck(x) + rest) == if CheckBounded(x) then Some((x, rest)) else None
    {
      CheckBack(x, rest);
    }
  }

  // ----- whole definitions

  function EncodeDef(t: SavedTable): Row {
    [TextValue(t.name), IntegerValue(AsSigned(t.root))]
    + (PutList(t.columns, PutColumn)
    + (PutList(t.primaryKey, PutText)
    + (PutList(t.indexes, PutIndex)
    + (PutList(t.foreignKeys, PutForeignKey)
    + PutList(t.checks, PutCheck)))))
  }

  function DecodeDef(r: Row): Option<SavedTable> {
    if |r| < 2 || !r[0].TextValue? || !r[1].IntegerValue? then None else
    var columns := TakeList(r[2..], 1, TakeColumn);
    if columns.None? then None else
    var primaryKey := TakeList(columns.value.1, 0, TakeText);
    if primaryKey.None? then None else
    var indexes := TakeList(primaryKey.value.1, 0, TakeIndex);
    if indexes.None? then None else
    var foreignKeys := TakeList(indexes.value.1, 0, TakeForeignKey);
    if foreignKeys.None? then None else
    var checks := TakeList(foreignKeys.value.1, 0, TakeCheck);
    if checks.None? || checks.value.1 != [] then None
    else Some(SavedTable(r[0].bytes, Unsigned(r[1].i), columns.value.0, primaryKey.value.0, indexes.value.0,
                         foreignKeys.value.0, checks.value.0))
  }

  /** Every list is within the decoder's bounds. */
  predicate Bounded(t: SavedTable) {
    && 1 <= |t.columns| <= 4096 && AllOk(t.columns, ColumnBounded)
    && |t.primaryKey| <= 4096
    && |t.indexes| <= 4096 && AllOk(t.indexes, IndexBounded)
    && |t.foreignKeys| <= 4096 && AllOk(t.foreignKeys, ForeignKeyBounded)
    && |t.checks| <= 4096 && AllOk(t.checks, CheckBounded)
  }

  /** A definition comes back exactly when its lists are within bounds; otherwise it is refused. Validation bounds the
      columns but not, for instance, the constants of an IN check. */
  lemma DefBack(t: SavedTable)
    ensures DecodeDef(EncodeDef(t)) == if Bounded(t) then Some(t) else None
  {
    hide PutList, TakeList, AllOk;
    TextsBack();
    ColumnsBack();
    IndexesBack();
    ForeignKeysBack();
    ChecksBack();
    var e := PutList(t.checks, PutCheck);
    var d := PutList(t.foreignKeys, PutForeignKey) + e;
    var c := PutList(t.indexes, PutIndex) + d;
    var b := PutList(t.primaryKey, PutText) + c;
    var a := PutList(t.columns, PutColumn) + b;
    assert EncodeDef(t)[2..] == a;
    ListBack(t.columns, 1, PutColumn, TakeColumn, ColumnBounded, b);
    ListBack(t.primaryKey, 0, PutText, TakeText, Any<Bytes>, c);
    ListBack(t.indexes, 0, PutIndex, TakeIndex, IndexBounded, d);
    ListBack(t.foreignKeys, 0, PutForeignKey, TakeForeignKey, ForeignKeyBounded, e);
    ListBack(t.checks, 0, PutCheck, TakeCheck, CheckBounded, []);
    assert e + [] == e;
    AnyOk(t.primaryKey);
  }

  lemma AnyOk<T>(xs: seq<T>)
    ensures AllOk(xs, Any<T>)
  {
  }

  /** What load_catalog reads back from a saved table. */
  function LoadTable(stored: Bytes): Option<SavedTable> {
    var row := DecodeRow(stored);
    if row.None? then None else DecodeDef(row.value)
  }

  /** A saved table is loaded again exactly when its lists and its sixteen-bit row count are within bounds. */
  lemma SavedTableLoads(t: SavedTable)
    requires StorableRow(EncodeDef(t))
    ensures LoadTable(EncodeRow(EncodeDef(t))) == if |EncodeDef(t)| < 65536 && Bounded(t) then Some(t) else None
  {
    hide EncodeDef, DecodeDef, Bounded;
    RowBack(EncodeDef(t));
    DefBack(t);
  }

  // ----- what validation leaves open

  function ColumnNames(t: SavedTable): (r: seq<Bytes>)
    ensures |r| == |t.columns| && forall i :: 0 <= i < |r| ==> r[i] == t.columns[i].name
  {
    seq(|t.columns|, i requires 0 <= i < |t.columns| => t.columns[i].name)
  }

  predicate Distinct(names: seq<Bytes>) { forall i, j :: 0 <= i < j < |names| ==> names[i] != names[j] }

  /** Some columns of the table, none twice. */
  predicate OnceIn(names: seq<Bytes>, t: SavedTable) {
    names != [] && Distinct(names) && forall i :: 0 <= i < |names| ==> names[i] in ColumnNames(t)
  }

  /** validate_check: constants of the column's type, one unless it is an IN; or another column of the same type. */
  predicate ValidCheck(t: SavedTable, c: CheckDef) {
    c.name != [] && exists i :: 0 <= i < |t.columns| && ChecksColumn(t, c, i)
  }

  predicate ChecksColumn(t: SavedTable, c: CheckDef, i: nat)
    requires i < |t.columns|
  {
    && t.columns[i].name == c.column
    && if c.other != [] then c.other != c.column && c.op != In && c.operands == [] && exists j ::
         0 <= j < |t.columns| && SameKind(t, c, i, j)
       else
         && c.operands != [] && (c.op != In ==> |c.operands| == 1)
         && forall k :: 0 <= k < |c.operands| ==> !c.operands[k].Null? && c.operands[k].Matches(t.columns[i].kind)
  }

  predicate SameKind(t: SavedTable, c: CheckDef, i: nat, j: nat)
    requires i < |t.columns| && j < |t.columns|
  {
    t.columns[j].name == c.other && t.columns[i].kind == t.columns[j].kind && t.columns[i].scale == t.columns[j].scale
  }

  /** A foreign key's columns lead the primary key, or an index. */
  predicate Leads(t: SavedTable, fk: SavedForeignKey) {
    fk.columns <= t.primaryKey || exists i :: 0 <= i < |t.indexes| && fk.columns <= t.indexes[i].columns
  }

  /** validate_table_def, but for what a foreign key asks of the table it refers to. */
  predicate Validates(t: SavedTable) {
    && t.name != [] && 1 <= |t.columns| <= 4096 && Distinct(ColumnNames(t)) && OnceIn(t.primaryKey, t)
    && (forall i :: 0 <= i < |t.columns| ==>
          t.columns[i].name != [] && if t.columns[i].kind == Decimal then t.columns[i].scale <= 18
            else t.columns[i].scale == 0)
    && (forall i :: 0 <= i < |t.indexes| ==> t.indexes[i].name != [] && OnceIn(t.indexes[i].columns, t))
    && (forall i, j :: 0 <= i < j < |t.indexes| ==> t.indexes[i].name != t.indexes[j].name)
    && (forall f :: 0 <= f < |t.foreignKeys| ==>
          && t.foreignKeys[f].name != [] && 0 < |t.foreignKeys[f].columns| == |t.foreignKeys[f].refColumns|
          && Leads(t, t.foreignKeys[f]))
    && (forall i, j :: 0 <= i < j < |t.foreignKeys| ==> t.foreignKeys[i].name != t.foreignKeys[j].name)
    && (forall c :: 0 <= c < |t.checks| ==> ValidCheck(t, t.checks[c]))
    && (forall i, j :: 0 <= i < j < |t.checks| ==> t.checks[i].name != t.checks[j].name)
  }

  lemma {:induction false} DistinctFit(names: seq<Bytes>, all: set<Bytes>)
    requires Distinct(names) && forall i :: 0 <= i < |names| ==> names[i] in all
    ensures |names| <= |all|
    decreases |names|
  {
    if names != [] {
      var n := |names| - 1;
      DistinctFit(names[..n], all - {names[n]});
    }
  }

  lemma {:induction false} SetOfSeq(names: seq<Bytes>)
    ensures |set i | 0 <= i < |names| :: names[i]| <= |names|
    decreases |names|
  {
    if names != [] {
      var n := |names| - 1;
      var rest := names[..n];
      SetOfSeq(rest);
      assert (set i | 0 <= i < |names| :: names[i]) == (set i | 0 <= i < n :: rest[i]) + {names[n]};
    }
  }

  lemma ColumnsFit(names: seq<Bytes>, t: SavedTable)
    requires OnceIn(names, t)
    ensures |names| <= |t.columns|
  {
    var all := set i | 0 <= i < |ColumnNames(t)| :: ColumnNames(t)[i];
    SetOfSeq(ColumnNames(t));
    forall i | 0 <= i < |names| ensures names[i] in all {
      var j :| 0 <= j < |ColumnNames(t)| && ColumnNames(t)[j] == names[i];
    }
    DistinctFit(names, all);
  }

  /** Validation keeps every list of columns within the decoder's bounds, and leaves open how many indexes, foreign
      keys and checks there are and how many constants a check has. */
  lemma ValidLeavesOpen(t: SavedTable)
    requires Validates(t)
    ensures Bounded(t) <==>
              && |t.indexes| <= 4096 && |t.foreignKeys| <= 4096 && |t.checks| <= 4096
              && forall c :: 0 <= c < |t.checks| ==> |t.checks[c].operands| <= 4096
  {
    hide OnceIn, Distinct, ColumnNames;
    ColumnsFit(t.primaryKey, t);
    forall i | 0 <= i < |t.columns| ensures ColumnBounded(t.columns[i]) {}
    forall i | 0 <= i < |t.indexes| ensures IndexBounded(t.indexes[i]) { ColumnsFit(t.indexes[i].columns, t); }
    forall f | 0 <= f < |t.foreignKeys| ensures ForeignKeyBounded(t.foreignKeys[f]) {
      assert Leads(t, t.foreignKeys[f]);
    }
    forall c | 0 <= c < |t.checks| ensures CheckBounded(t.checks[c]) <==> |t.checks[c].operands| <= 4096 {
      assert ValidCheck(t, t.checks[c]);
    }
  }

  // ----- definitions that are lost

  function Constants(n: nat): (r: seq<Value>)
    ensures |r| == n && forall i :: 0 <= i < n ==> r[i] == IntegerValue(0)
  {
    seq(n, _ => IntegerValue(0))
  }

  /** One integer column, and `n` IN checks on it of `constants` constants each. */
  function Checked(n: nat, constants: nat): (t: SavedTable)
    requires n < 256
    ensures |t.checks| == n && forall i :: 0 <= i < n ==> t.checks[i] == CheckOf(i, constants)
  {
    SavedTable([116], 0, [ColumnDef([97], Integer, false, 0)], [[97]], [], [],
               seq(n, i requires 0 <= i < n => CheckOf(i, constants)))
  }

  function CheckOf(i: nat, constants: nat): CheckDef
    requires i < 256
  {
    CheckDef([i], [97], [], In, Constants(constants))
  }

  lemma CheckedValidates(n: nat, constants: nat)
    requires n < 256 && constants > 0
    ensures Validates(Checked(n, constants)) && (Bounded(Checked(n, constants)) <==> n == 0 || constants <= 4096)
  {
    var t := Checked(n, constants);
    assert ColumnNames(t)[0] == [97];
    forall c | 0 <= c < |t.checks| ensures ValidCheck(t, t.checks[c]) { assert ChecksColumn(t, t.checks[c], 0); }
    forall i, j | 0 <= i < j < n ensures t.checks[i].name != t.checks[j].name { assert [i][0] != [j][0]; }
    assert Validates(t);
    ValidLeavesOpen(t);
    assert n > 0 ==> t.checks[0] == CheckOf(0, constants);
  }

  /** An IN check with 4097 constants is validated and saved, and cannot be read again. */
  lemma LongCheckIsLost()
    ensures Validates(Checked(1, 4097)) && DecodeDef(EncodeDef(Checked(1, 4097))) == None
  {
    hide Validates, Bounded, EncodeDef, DecodeDef, Checked;
    CheckedValidates(1, 4097);
    DefBack(Checked(1, 4097));
  }

  lemma {:induction false} ManyLong<T>(xs: seq<T>, put: T -> Row, k: nat)
    requires forall x :: x in xs ==> |put(x)| == k
    ensures |PutMany(xs, put)| == k * |xs|
    decreases |xs|
  {
    if xs != [] {
      ManyLong(xs[1..], put, k);
      Times(k, |xs|);
    }
  }

  lemma Times(k: nat, n: nat)
    requires n > 0
    ensures k * n == k + k * (n - 1)
  {
  }

  lemma {:induction false} ManyStorable<T>(xs: seq<T>, put: T -> Row)
    requires forall x :: x in xs ==> StorableRow(put(x))
    ensures StorableRow(PutMany(xs, put))
    decreases |xs|
  {
    if xs != [] {
      ManyStorable(xs[1..], put);
      assert StorableRow(put(xs[0]));
    }
  }

  lemma CheckRow(c: CheckDef)
    requires |c.name| == |c.column| == 1 && c.other == []
    requires forall i :: 0 <= i < |c.operands| ==> c.operands[i] == IntegerValue(0)
    ensures |PutCheck(c)| == 5 + |c.operands| && StorableRow(PutCheck(c))
  {
    ManyLong(c.operands, PutValue, 1);
    ManyStorable(c.operands, PutValue);
  }

  /** Sixteen IN checks of 4096 constants are within every bound of the decoder, and too many values for one row. */
  lemma WideTableIsLost()
    ensures Validates(Checked(16, 4096)) && Bounded(Checked(16, 4096))
    ensures LoadTable(EncodeRow(EncodeDef(Checked(16, 4096)))) == None
  {
    hide Validates, Bounded, DecodeDef, DecodeRow, EncodeRow, PutCheck, LoadTable, StorableRow;
    var t := Checked(16, 4096);
    CheckedValidates(16, 4096);
    forall x | x in t.checks ensures |PutCheck(x)| == 4101 && StorableRow(PutCheck(x)) {
      var i :| 0 <= i < 16 && t.checks[i] == x;
      assert x == CheckOf(i, 4096);
      CheckRow(x);
    }
    ManyLong(t.checks, PutCheck, 4101);
    ManyStorable(t.checks, PutCheck);
    ShortParts(t, PutMany(t.checks, PutCheck));
    SavedTableLoads(t);
  }

  lemma ShortParts(t: SavedTable, checks: Row)
    requires checks == PutMany(t.checks, PutCheck) && StorableRow(checks) && |t.name| == 1 && |t.columns| == 1
    requires |t.columns[0].name| == 1
    requires t.primaryKey == [[97]] && t.indexes == [] && t.foreignKeys == []
    ensures |EncodeDef(t)| >= |checks| && StorableRow(EncodeDef(t))
  {
    hide PutCheck;
    assert t.columns[1..] == [] && t.primaryKey[1..] == [];
    assert PutMany(t.columns, PutColumn) == PutColumn(t.columns[0]) + [];
    assert PutMany(t.primaryKey, PutText) == PutText([97]) + [];
    var head := [TextValue(t.name), IntegerValue(AsSigned(t.root))] + PutList(t.columns, PutColumn)
      + PutList(t.primaryKey, PutText)
                + [IntegerValue(Count(0))] + [IntegerValue(Count(0))] + [IntegerValue(Count(|t.checks|))];
    assert StorableRow(head);
    assert EncodeDef(t) == head + checks;
  }
}
