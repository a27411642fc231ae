/** Range scans over a table or an index, with prefix bounds (scan_raw in engine/src/engine/store.cpp). */
module Scan {
  import opened PageFormat
  import opened Disk
  import opened KeyOrder
  import opened KeyCodec
  import opened MapTree
  import opened TreeCursor
  import opened Store

  /** Bounds the leading key columns. */
  datatype Bound = Bound(values: Row, inclusive: bool)

  // ----- bounds on rows

  /** The leading columns are at or after the bound; after it, if it is exclusive. */
  predicate AboveRow(r: Row, lower: Option<Bound>, types: seq<ColumnType>)
    requires RowMatches(r, types) && (lower.Some? ==> FitsBound(lower.value, types))
  {
    lower.Some? ==>
      var c := CompareLead(r, lower.value.values, types);
      if lower.value.inclusive then c >= 0 else c > 0
  }

  predicate BelowRow(r: Row, upper: Option<Bound>, types: seq<ColumnType>)
    requires RowMatches(r, types) && (upper.Some? ==> FitsBound(upper.value, types))
  {
    upper.Some? ==>
      var c := CompareLead(r, upper.value.values, types);
      if upper.value.inclusive then c <= 0 else c < 0
  }

  predicate FitsBound(b: Bound, types: seq<ColumnType>) {
    |b.values| <= |types| && RowMatches(b.values, types[..|b.values|])
  }

  function CompareLead(r: Row, v: Row, types: seq<ColumnType>): int
    requires RowMatches(r, types) && |v| <= |types| && RowMatches(v, types[..|v|])
  {
    LeadMatches(r, |v|, types);
    CompareRows(r[..|v|], v, types)
  }

  lemma LeadMatches(r: Row, n: nat, types: seq<ColumnType>)
    requires RowMatches(r, types) && n <= |types|
    ensures |r[..n]| == n && RowMatches(r[..n], types[..n])
  {
  }

  /** A row is above a bound if it is greater in the first column in which it differs from it; and one that does not
      differ is if the bound is inclusive. */
  lemma AboveIs(r: Row, b: Bound, types: seq<ColumnType>)
    requires RowMatches(r, types) && FitsBound(b, types)
    ensures AboveRow(r, Some(b), types) <==>
              || (b.inclusive && r[..|b.values|] == b.values)
              || exists i :: 0 <= i < |b.values| && r[..i] == b.values[..i] && Greater(r[i], b.values[i])
  {
    FirstDifference(r, b.values, types);
  }

  lemma BelowIs(r: Row, b: Bound, types: seq<ColumnType>)
    requires RowMatches(r, types) && FitsBound(b, types)
    ensures BelowRow(r, Some(b), types) <==>
              || (b.inclusive && r[..|b.values|] == b.values)
              || exists i :: 0 <= i < |b.values| && r[..i] == b.values[..i] && Greater(b.values[i], r[i])
  {
    FirstDifference(r, b.values, types);
  }

  /** Of two values of one column: nulls first, then by number, false before true, or by bytes. */
  ghost predicate Greater(a: Value, b: Value) {
    if a.Null? || b.Null? then b.Null? && !a.Null? else
    match a
    case IntegerValue(i) => b.IntegerValue? && i > b.i
    case DecimalValue(i) => b.DecimalValue? && i > b.i
    case TimestampValue(i) => b.TimestampValue? && i > b.i
    case BooleanValue(x) => b.BooleanValue? && x && !b.b
    case TextValue(s) => b.TextValue? && Pos(s) > Pos(b.bytes)
    case BlobValue(s) => b.BlobValue? && Pos(s) > Pos(b.bytes)
    case UuidValue(u) => b.UuidValue? && Pos(u) > Pos(b.uuid)
  }

  lemma GreaterIs(a: Value, b: Value, t: ColumnType)
    requires a.Matches(t) && b.Matches(t)
    ensures CompareValues(a, b, t) > 0 <==> Greater(a, b)
    ensures CompareValues(a, b, t) < 0 <==> Greater(b, a)
    ensures CompareValues(a, b, t) == 0 <==> a == b
  {
    if a.TextValue? || a.BlobValue? {
      if b.TextValue? || b.BlobValue? { ComparePos(a.bytes, b.bytes); }
    }
    if a.UuidValue? && b.UuidValue? { ComparePos(a.uuid, b.uuid); }
  }

  lemma {:induction false} FirstDifference(r: Row, v: Row, types: seq<ColumnType>)
    requires RowMatches(r, types) && |v| <= |types| && RowMatches(v, types[..|v|])
    ensures CompareLead(r, v, types) == 0 <==> r[..|v|] == v
    ensures CompareLead(r, v, types) > 0 <==>
              exists i :: 0 <= i < |v| && r[..i] == v[..i] && Greater(r[i], v[i])
    ensures CompareLead(r, v, types) < 0 <==>
              exists i :: 0 <= i < |v| && r[..i] == v[..i] && Greater(v[i], r[i])
    decreases |v|
  {
    hide CompareValues, Greater;
    if v != [] {
      RowTail(v, types);
      LeadMatches(r, |v|, types);
      RowTail(r[..|v|], types);
      assert r[..|v|][0] == r[0] && r[..|v|][1..] == r[1..][..|v| - 1];
      GreaterIs(r[0], v[0], types[0]);
      GreaterIs(v[0], r[0], types[0]);
      if r[0] != v[0] {
        assert r[..0] == v[..0];
        assert forall i :: 0 < i < |v| ==> r[..i][0] != v[..i][0];
      } else {
        assert types[1..][..|v| - 1] == types[..|v|][1..];
        FirstDifference(r[1..], v[1..], types[1..]);
        AlikeAfter(r, v);
      }
    }
  }

  lemma AlikeAfter(r: Row, v: Row)
    requires 0 < |v| <= |r| && r[0] == v[0]
    ensures forall i :: 0 < i <= |v| ==> (r[..i] == v[..i] <==> r[1..][..i - 1] == v[1..][..i - 1])
  {
    forall i | 0 < i <= |v| ensures r[..i] == v[..i] <==> r[1..][..i - 1] == v[1..][..i - 1] {
      assert r[..i] == [r[0]] + r[1..][..i - 1] && v[..i] == [v[0]] + v[1..][..i - 1];
    }
  }

  // ----- bounds on keys, as the scan tests them

  predicate StartsWith(key: Key, prefix: Key) { prefix <= key }

  predicate AboveKey(key: Key, lower: Option<Bound>) {
    lower.Some? ==>
      var lo := EncodeKey(lower.value.values);
      Compare(key, lo) >= 0 && (lower.value.inclusive || !StartsWith(key, lo))
  }

  predicate BelowKey(key: Key, upper: Option<Bound>) {
    upper.Some? ==>
      var hi := EncodeKey(upper.value.values);
      if upper.value.inclusive then Compare(hi, key) >= 0 || StartsWith(key, hi) else Compare(key, hi) < 0
  }

  lemma {:induction false} RowsByLead(r: Row, v: Row, types: seq<ColumnType>)
    requires RowMatches(r, types) && |v| <= |types| && RowMatches(v, types[..|v|])
    ensures types[..|r|] == types
    ensures CompareLead(r, v, types) != 0 ==> CompareRows(r, v, types) == CompareLead(r, v, types)
    ensures CompareLead(r, v, types) == 0 ==> CompareRows(r, v, types) >= 0 && r[..|v|] == v
    decreases |v|
  {
    hide CompareValues;
    assert types[..|r|] == types;
    LeadMatches(r, |v|, types);
    if v != [] {
      RowTail(v, types);
      RowTail(r, types);
      RowTail(r[..|v|], types);
      assert r[..|v|][1..] == r[1..][..|v| - 1] && types[1..][..|r| - 1] == types[1..];
      RowsByLead(r[1..], v[1..], types[1..]);
      ValueOrder(r[0], v[0], types[0], [], []);
      assert CompareValues(r[0], v[0], types[0]) == 0 ==> r[..|v|] == [v[0]] + r[1..][..|v| - 1];
    }
  }

  lemma EqualLead(r: Row, v: Row, types: seq<ColumnType>)
    requires RowMatches(r, types) && |v| <= |types| && RowMatches(v, types[..|v|]) && r[..|v|] == v
    ensures CompareLead(r, v, types) == 0
  {
    LeadMatches(r, |v|, types);
    KeyOrderIsRowOrder(v, v, types);
    CompareSelf(EncodeKey(v));
  }

  /** The tests on keys are the bounds on rows. */
  lemma KeyBoundsAreRowBounds(r: Row, types: seq<ColumnType>, lower: Option<Bound>, upper: Option<Bound>)
    requires RowMatches(r, types) && (lower.Some? ==> FitsBound(lower.value, types))
    requires (upper.Some? ==> FitsBound(upper.value, types))
    ensures AboveKey(EncodeKey(r), lower) <==> AboveRow(r, lower, types)
    ensures BelowKey(EncodeKey(r), upper) <==> BelowRow(r, upper, types)
  {
    hide CompareRows, CompareLead, EncodeKey;
    assert types[..|types|] == types;
    if lower.Some? { ByLead(r, lower.value.values, types); }
    if upper.Some? { ByLead(r, upper.value.values, types); }
  }

  lemma ByLead(r: Row, v: Row, types: seq<ColumnType>)
    requires RowMatches(r, types) && |v| <= |types| && RowMatches(v, types[..|v|])
    ensures Compare(EncodeKey(r), EncodeKey(v)) >= 0 <==> CompareLead(r, v, types) >= 0
    ensures StartsWith(EncodeKey(r), EncodeKey(v)) <==> CompareLead(r, v, types) == 0
    ensures Compare(EncodeKey(v), EncodeKey(r)) > 0 <==> Compare(EncodeKey(r), EncodeKey(v)) < 0
    ensures Compare(EncodeKey(v), EncodeKey(r)) == 0 <==> EncodeKey(v) == EncodeKey(r)
    ensures Compare(EncodeKey(r), EncodeKey(v)) == 0 <==> EncodeKey(v) == EncodeKey(r)
  {
    hide EncodeKey;
    assert types[..|r|] == types;
    RowsByLead(r, v, types);
    KeyOrderIsRowOrder(r, v, types);
    PrefixIff(v, r, types);
    if r[..|v|] == v { EqualLead(r, v, types); }
    CompareFlips(EncodeKey(v), EncodeKey(r));
    CompareFlips(EncodeKey(r), EncodeKey(v));
    ComparePos(EncodeKey(r), EncodeKey(v));
    ComparePos(EncodeKey(v), EncodeKey(r));
  }

  // ----- bounds are intervals

  /** Past a string, and not beginning with it, is past everything that begins with it. */
  lemma {:induction false} PastPrefix(c: Key, lo: Key, x: Key)
    requires Compare(c, lo) >= 0 && !StartsWith(c, lo)
    ensures Compare(c, lo + x) > 0
    decreases |lo|
  {
    if lo != [] && c != [] && c[0] == lo[0] {
      assert c == [c[0]] + c[1..] && lo == [lo[0]] + lo[1..];
      PastPrefix(c[1..], lo[1..], x);
      assert (lo + x)[1..] == lo[1..] + x;
    }
  }

  lemma AboveIsUpward(k: Key, j: Key, lower: Option<Bound>)
    requires AboveKey(k, lower) && Pos(k) <= Pos(j)
    ensures AboveKey(j, lower)
  {
    if lower.Some? {
      var lo := EncodeKey(lower.value.values);
      ComparePos(k, lo);
      ComparePos(j, lo);
      if !lower.value.inclusive && StartsWith(j, lo) {
        PastPrefix(k, lo, j[|lo|..]);
        assert lo + j[|lo|..] == j;
        ComparePos(k, j);
      }
    }
  }

  lemma BelowIsDownward(k: Key, j: Key, upper: Option<Bound>)
    requires BelowKey(k, upper) && Pos(j) <= Pos(k)
    ensures BelowKey(j, upper)
  {
    if upper.Some? {
      var hi := EncodeKey(upper.value.values);
      ComparePos(k, hi);
      ComparePos(j, hi);
      ComparePos(hi, k);
      ComparePos(hi, j);
      if upper.value.inclusive && Compare(hi, j) < 0 && !StartsWith(j, hi) {
        CompareFlips(hi, j);
        PastPrefix(j, hi, k[|hi|..]);
        assert hi + k[|hi|..] == k;
        ComparePos(j, k);
      }
    }
  }

  // ----- the scan

  ghost predicate Rising(ks: seq<Key>) { forall i, j :: 0 <= i < j < |ks| ==> Pos(ks[i]) < Pos(ks[j]) }

  ghost predicate Falling(ks: seq<Key>) { forall i, j :: 0 <= i < j < |ks| ==> Pos(ks[i]) > Pos(ks[j]) }

  ghost predicate Within(k: Key, lower: Option<Bound>, upper: Option<Bound>) {
    AboveKey(k, lower) && BelowKey(k, upper)
  }

  /** Exactly the keys within the bounds. */
  ghost predicate Selects(ks: seq<Key>, m: map<Key, Bytes>, lower: Option<Bound>, upper: Option<Bound>) {
    forall k :: k in ks <==> k in m && Within(k, lower, upper)
  }

  /** The cursor is on the first key above the lower bound, if there is one. */
  method SeekLower(c: Cursor, lower: Option<Bound>) returns (s: Status)
    requires c.tree.Valid()
    modifies c
    ensures s == Ok && c.Valid()
    ensures c.valid ==> c.key in c.tree.t.Map() && AboveKey(c.key, lower)
    ensures forall k :: k in c.tree.t.Map() && AboveKey(k, lower) ==> c.valid && Pos(c.key) <= Pos(k)
  {
    hide Pos, BTree.Valid, Cursor.OnKey;
    ghost var m := c.tree.t.Map();
    if lower.None? {
      s := c.SeekFirst();
      InUnit(m);
      return;
    }
    var lo := EncodeKey(lower.value.values);
    s := c.Seek(lo);
    AboveSeek(m, lower, lo);
    if c.valid { ComparePos(c.key, lo); }
    if !lower.value.inclusive {
      ghost var left := set k | k in m && Pos(k) >= Pos(lo);
      while c.valid && StartsWith(c.key, lo)
        invariant s == Ok && c.Valid() && (c.valid ==> c.key in m && c.key in left && Pos(c.key) >= Pos(lo))
        invariant forall k :: k in m && AboveKey(k, lower) ==> c.valid && Pos(c.key) <= Pos(k)
        invariant forall k :: k in m && c.valid && Pos(c.key) <= Pos(k) ==> k in left
        decreases left
      {
        ghost var key := c.key;
        s := c.Next();
        forall k | k in m && AboveKey(k, lower) ensures c.valid && Pos(c.key) <= Pos(k) {
          if Pos(k) == Pos(key) { PosInjective(k, key); }
          assert Beyond(k, Pos(key), true);
        }
        left := left - {key};
      }
      if c.valid { ComparePos(c.key, lo); }
    }
  }

  lemma AboveSeek(m: map<Key, Bytes>, lower: Option<Bound>, lo: Key)
    requires lower.Some? && lo == EncodeKey(lower.value.values)
    ensures forall k :: k in m && AboveKey(k, lower) ==> Beyond(k, Pos(lo), false)
  {
    forall k | k in m && AboveKey(k, lower) ensures Beyond(k, Pos(lo), false) { ComparePos(k, lo); }
  }

  /** A forward scan on its way: the keys taken, and the next one. */
  ghost predicate Onward(m: map<Key, Bytes>, lower: Option<Bound>, upper: Option<Bound>, ks: seq<Key>, more: bool,
                         key: Key) {
    && Rising(ks) && (more ==> key in m && AboveKey(key, lower))
    && (forall k :: k in ks ==> k in m && Within(k, lower, upper) && (more ==> Pos(k) < Pos(key)))
    && (forall k :: k in m && AboveKey(k, lower) ==> k in ks || (more && Pos(key) <= Pos(k)))
  }

  lemma OnwardMore(m: map<Key, Bytes>, lower: Option<Bound>, upper: Option<Bound>, ks: seq<Key>, key: Key, more: bool,
                   next: Key)
    requires Onward(m, lower, upper, ks, true, key) && BelowKey(key, upper)
    requires LeastBeyond(m, Pos(key), true, more, next)
    ensures Onward(m, lower, upper, ks + [key], more, next) && key !in ks
  {
    hide Pos, AboveKey, BelowKey, LeastBeyond, Rising;
    StepOn(m, lower, ks, key, more, next);
    RisingMore(ks, key);
    if more { AboveIsUpward(key, next, lower); }
    forall k | k in ks + [key] ensures k in m && Within(k, lower, upper) && (more ==> Pos(k) < Pos(next)) {
      assert k in ks || k == key;
    }
  }

  lemma RisingMore(ks: seq<Key>, key: Key)
    requires Rising(ks) && forall k :: k in ks ==> Pos(k) < Pos(key)
    ensures Rising(ks + [key])
  {
    hide Pos;
    var ks' := ks + [key];
    forall i, j | 0 <= i < j < |ks'| ensures Pos(ks'[i]) < Pos(ks'[j]) {
      assert ks'[i] == ks[i] && ks[i] in ks;
    }
  }

  lemma OnwardEnds(m: map<Key, Bytes>, lower: Option<Bound>, upper: Option<Bound>, ks: seq<Key>, more: bool, key: Key)
    requires Onward(m, lower, upper, ks, more, key) && (more ==> !BelowKey(key, upper))
    ensures Rising(ks) && Selects(ks, m, lower, upper)
  {
    hide Pos, AboveKey, BelowKey;
    forall k | k in m && Within(k, lower, upper) ensures k in ks {
      if k !in ks { BelowIsDownward(k, key, upper); }
    }
  }

  lemma OnwardStarts(m: map<Key, Bytes>, lower: Option<Bound>, upper: Option<Bound>, more: bool, key: Key)
    requires more ==> key in m && AboveKey(key, lower)
    requires forall k :: k in m && AboveKey(k, lower) ==> more && Pos(key) <= Pos(k)
    ensures Onward(m, lower, upper, [], more, key)
  {
  }

  method ScanForward(tree: BTree, lower: Option<Bound>, upper: Option<Bound>) returns (s: Status, ks: seq<Key>)
    requires tree.Valid()
    ensures s == Ok && Rising(ks) && Selects(ks, tree.t.Map(), lower, upper)
  {
    hide Pos, BTree.Valid, Cursor.OnKey, AboveKey, BelowKey, LeastBeyond, GreatestBelow, EncodeKey, Compare, StartsWith;
    hide Onward;
    hide Selects, Rising;
    ghost var m := tree.t.Map();
    var c := new Cursor(tree);
    s := SeekLower(c, lower);
    ks := [];
    OnwardStarts(m, lower, upper, c.valid, c.key);
    while c.valid
      invariant s == Ok && c.tree == tree && c.Valid() && Onward(m, lower, upper, ks, c.valid, c.key)
      decreases m.Keys - (set k | k in ks)
    {
      OnwardKey(m, lower, upper, ks, c.key);
      if upper.Some? {
        var hi := EncodeKey(upper.value.values);
        var past := if upper.value.inclusive then Compare(hi, c.key) < 0 && !StartsWith(c.key, hi)
          else !(Compare(c.key, hi) < 0);
        PastIsNotBelow(c.key, upper);
        if past {
          OnwardEnds(m, lower, upper, ks, c.valid, c.key);
          return;
        }
      } else {
        NoBound(c.key);
      }
      ghost var key, before := c.key, ks;
      ks := ks + [c.key];
      s := c.Next();
      OnwardMore(m, lower, upper, before, key, c.valid, c.key);
      assert key in m.Keys - (set k | k in before) && key !in m.Keys - (set k | k in ks);
    }
    OnwardEnds(m, lower, upper, ks, c.valid, c.key);
  }

  lemma OnwardKey(m: map<Key, Bytes>, lower: Option<Bound>, upper: Option<Bound>, ks: seq<Key>, key: Key)
    requires Onward(m, lower, upper, ks, true, key)
    ensures key in m
  {
  }

  lemma PastIsNotBelow(k: Key, upper: Option<Bound>)
    requires upper.Some?
    ensures var hi := EncodeKey(upper.value.values);
            BelowKey(k, upper) <==>
                !(if upper.value.inclusive then Compare(hi, k) < 0 && !StartsWith(k, hi) else !(Compare(k, hi) < 0))
  {
  }

  lemma NoBound(k: Key)
    ensures BelowKey(k, None) && AboveKey(k, None)
  {
  }

  /** The cursor is on the last key below the upper bound, if there is one. */
  method SeekUpper(c: Cursor, upper: Option<Bound>) returns (s: Status)
    requires c.tree.Valid()
    modifies c
    ensures s == Ok && c.Valid()
    ensures c.valid ==> c.key in c.tree.t.Map() && BelowKey(c.key, upper)
    ensures forall k :: k in c.tree.t.Map() && BelowKey(k, upper) ==> c.valid && Pos(c.key) >= Pos(k)
  {
    hide Pos, BTree.Valid, Cursor.OnKey, BelowKey;
    ghost var m := c.tree.t.Map();
    InUnit(m);
    if upper.None? {
      s := c.SeekLast();
      if c.valid { NoBound(c.key); }
      return;
    }
    s := SeekPast(c, upper.value, upper);
    ghost var was, key := c.valid, c.key;
    if c.valid { s := c.Prev(); } else { s := c.SeekLast(); }
    forall k | k in m && BelowKey(k, upper) ensures c.valid && Pos(c.key) >= Pos(k) {
      if was && Pos(k) >= Pos(key) { BelowIsDownward(k, key, upper); }
    }
  }

  /** The cursor is on the first key past the upper bound; all keys before it are below the bound. */
  method SeekPast(c: Cursor, b: Bound, ghost upper: Option<Bound>) returns (s: Status)
    requires c.tree.Valid() && upper == Some(b)
    modifies c
    ensures s == Ok && c.Valid() && (c.valid ==> c.key in c.tree.t.Map() && !BelowKey(c.key, upper))
    ensures forall k :: k in c.tree.t.Map() && (c.valid ==> Pos(k) < Pos(c.key)) ==> BelowKey(k, upper)
  {
    hide Pos, BTree.Valid, Cursor.OnKey, BelowKey;
    ghost var m := c.tree.t.Map();
    var hi := EncodeKey(b.values);
    s := c.Seek(hi);
    forall k | k in m && Pos(k) < Pos(hi) ensures BelowKey(k, upper) { BelowHi(k, b); }
    if c.valid { BelowHi(c.key, b); }
    if b.inclusive {
      ghost var left := set k | k in m && Pos(k) >= Pos(hi);
      while c.valid && StartsWith(c.key, hi)
        invariant s == Ok && c.Valid() && (c.valid ==> c.key in left)
        invariant forall k :: k in m && (c.valid ==> Pos(k) < Pos(c.key)) ==> BelowKey(k, upper)
        invariant forall k :: k in m && c.valid && Pos(c.key) <= Pos(k) ==> k in left
        invariant forall k :: k in left ==> k in m && Pos(k) >= Pos(hi)
        decreases left
      {
        ghost var key := c.key;
        BelowHi(key, b);
        s := c.Next();
        forall k | k in m && (c.valid ==> Pos(k) < Pos(c.key)) ensures BelowKey(k, upper) {
          if Pos(k) == Pos(key) { PosInjective(k, key); }
          assert Pos(k) > Pos(key) ==> Beyond(k, Pos(key), true);
        }
        left := left - {key};
      }
      if c.valid { BelowHi(c.key, b); }
    }
  }

  lemma BelowHi(k: Key, b: Bound)
    ensures var hi := EncodeKey(b.values);
            && (Pos(k) < Pos(hi) ==> BelowKey(k, Some(b)))
            && (Pos(k) >= Pos(hi) && !b.inclusive ==> !BelowKey(k, Some(b)))
            && (StartsWith(k, hi) && b.inclusive ==> BelowKey(k, Some(b)))
            && (Pos(k) >= Pos(hi) && !StartsWith(k, hi) ==> !BelowKey(k, Some(b)))
  {
    var hi := EncodeKey(b.values);
    ComparePos(k, hi);
    ComparePos(hi, k);
  }

  /** A backward scan on its way: the keys taken, and the one before them. */
  ghost predicate Downward(m: map<Key, Bytes>, lower: Option<Bound>, upper: Option<Bound>, ks: seq<Key>, more: bool,
                           key: Key) {
    && Falling(ks) && (more ==> key in m && BelowKey(key, upper))
    && (forall k :: k in ks ==> k in m && Within(k, lower, upper) && (more ==> Pos(k) > Pos(key)))
    && (forall k :: k in m && BelowKey(k, upper) ==> k in ks || (more && Pos(key) >= Pos(k)))
  }

  lemma DownwardMore(m: map<Key, Bytes>, lower: Option<Bound>, upper: Option<Bound>, ks: seq<Key>, key: Key, more: bool,
                     next: Key)
    requires Downward(m, lower, upper, ks, true, key) && AboveKey(key, lower)
    requires GreatestBelow(m, Pos(key), more, next)
    ensures Downward(m, lower, upper, ks + [key], more, next) && key !in ks
  {
    hide Pos, AboveKey, BelowKey, GreatestBelow, Falling;
    StepBack(m, upper, ks, key, more, next);
    FallingMore(ks, key);
    if more { BelowIsDownward(key, next, upper); }
    forall k | k in ks + [key] ensures k in m && Within(k, lower, upper) && (more ==> Pos(k) > Pos(next)) {
      assert k in ks || k == key;
    }
  }

  lemma FallingMore(ks: seq<Key>, key: Key)
    requires Falling(ks) && forall k :: k in ks ==> Pos(k) > Pos(key)
    ensures Falling(ks + [key])
  {
    hide Pos;
    var ks' := ks + [key];
    forall i, j | 0 <= i < j < |ks'| ensures Pos(ks'[i]) > Pos(ks'[j]) {
      assert ks'[i] == ks[i] && ks[i] in ks;
    }
  }

  lemma DownwardEnds(m: map<Key, Bytes>, lower: Option<Bound>, upper: Option<Bound>, ks: seq<Key>, more: bool, key: Key)
    requires Downward(m, lower, upper, ks, more, key) && (more ==> !AboveKey(key, lower))
    ensures Falling(ks) && Selects(ks, m, lower, upper)
  {
    hide Pos, AboveKey, BelowKey;
    forall k | k in m && Within(k, lower, upper) ensures k in ks {
      if k !in ks { AboveIsUpward(k, key, lower); }
    }
  }

  lemma DownwardStarts(m: map<Key, Bytes>, lower: Option<Bound>, upper: Option<Bound>, more: bool, key: Key)
    requires more ==> key in m && BelowKey(key, upper)
    requires forall k :: k in m && BelowKey(k, upper) ==> more && Pos(key) >= Pos(k)
    ensures Downward(m, lower, upper, [], more, key)
  {
  }

  method ScanBackward(tree: BTree, lower: Option<Bound>, upper: Option<Bound>) returns (s: Status, ks: seq<Key>)
    requires tree.Valid()
    ensures s == Ok && Falling(ks) && Selects(ks, tree.t.Map(), lower, upper)
  {
    hide Pos, BTree.Valid, Cursor.OnKey, AboveKey, BelowKey, LeastBeyond, GreatestBelow, EncodeKey, Compare, StartsWith;
    hide Selects, Falling, Downward;
    ghost var m := tree.t.Map();
    var c := new Cursor(tree);
    s := SeekUpper(c, upper);
    ks := [];
    DownwardStarts(m, lower, upper, c.valid, c.key);
    while c.valid
      invariant s == Ok && c.tree == tree && c.Valid() && Downward(m, lower, upper, ks, c.valid, c.key)
      decreases m.Keys - (set k | k in ks)
    {
      DownwardKey(m, lower, upper, ks, c.key);
      if lower.Some? {
        var lo := EncodeKey(lower.value.values);
        var past := if lower.value.inclusive then Compare(c.key, lo) < 0
                    else Compare(c.key, lo) < 0 || StartsWith(c.key, lo);
        PastIsNotAbove(c.key, lower);
        if past {
          DownwardEnds(m, lower, upper, ks, c.valid, c.key);
          return;
        }
      } else {
        NoBound(c.key);
      }
      ghost var key, before := c.key, ks;
      ks := ks + [c.key];
      s := c.Prev();
      DownwardMore(m, lower, upper, before, key, c.valid, c.key);
      assert key in m.Keys - (set k | k in before) && key !in m.Keys - (set k | k in ks);
    }
    DownwardEnds(m, lower, upper, ks, c.valid, c.key);
  }

  lemma DownwardKey(m: map<Key, Bytes>, lower: Option<Bound>, upper: Option<Bound>, ks: seq<Key>, key: Key)
    requires Downward(m, lower, upper, ks, true, key)
    ensures key in m
  {
  }

  lemma StepBack(m: map<Key, Bytes>, upper: Option<Bound>, before: seq<Key>, key: Key, found: bool, next: Key)
    requires forall k :: k in m && BelowKey(k, upper) ==> k in before || Pos(key) >= Pos(k)
    requires GreatestBelow(m, Pos(key), found, next)
    ensures forall k :: k in m && BelowKey(k, upper) ==> k in before + [key] || (found && Pos(next) >= Pos(k))
    ensures found ==> next in m && Pos(next) < Pos(key)
  {
    hide Pos, BelowKey;
    forall k | k in m && BelowKey(k, upper) ensures k in before + [key] || (found && Pos(next) >= Pos(k)) {
      if k !in before && Pos(k) == Pos(key) { PosInjective(k, key); }
    }
  }

  lemma StepOn(m: map<Key, Bytes>, lower: Option<Bound>, before: seq<Key>, key: Key, found: bool, next: Key)
    requires forall k :: k in m && AboveKey(k, lower) ==> k in before || Pos(key) <= Pos(k)
    requires LeastBeyond(m, Pos(key), true, found, next)
    ensures forall k :: k in m && AboveKey(k, lower) ==> k in before + [key] || (found && Pos(next) <= Pos(k))
    ensures found ==> next in m && Pos(next) > Pos(key)
  {
    hide Pos, AboveKey;
    forall k | k in m && AboveKey(k, lower) ensures k in before + [key] || (found && Pos(next) <= Pos(k)) {
      if k !in before && Pos(k) == Pos(key) { PosInjective(k, key); }
      assert k !in before && k != key ==> Beyond(k, Pos(key), true);
    }
  }

  lemma PastIsNotAbove(k: Key, lower: Option<Bound>)
    requires lower.Some?
    ensures var lo := EncodeKey(lower.value.values);
            AboveKey(k, lower) <==>
                !(if lower.value.inclusive then Compare(k, lo) < 0 else Compare(k, lo) < 0 || StartsWith(k, lo))
  {
  }

  // ----- what a scan returns

  function Backwards(ks: seq<Key>): (r: seq<Key>)
    ensures |r| == |ks| && forall i :: 0 <= i < |ks| ==> r[i] == ks[|ks| - 1 - i]
  {
    if ks == [] then [] else [ks[|ks| - 1]] + Backwards(ks[..|ks| - 1])
  }

  function Paired(ks: seq<Key>): (r: seq<Pair>)
    ensures |r| == |ks| && forall i :: 0 <= i < |ks| ==> r[i] == (ks[i], [])
  {
    if ks == [] then [] else Paired(ks[..|ks| - 1]) + [(ks[|ks| - 1], [])]
  }

  /** A set of keys has one rising order. */
  lemma RisingSame(a: seq<Key>, b: seq<Key>)
    requires Rising(a) && Rising(b) && forall k :: k in a <==> k in b
    ensures a == b
  {
    hide Pos, Paired;
    var m: map<Key, Bytes> := map k | k in a :: [];
    InUnit(m);
    var x, y := Paired(a), Paired(b);
    PairedLists(a, m);
    PairedLists(b, m);
    AscendingSame(x, y, m, 0.0);
    assert forall i :: 0 <= i < |a| ==> a[i] == x[i].0 == y[i].0 == b[i];
  }

  lemma PairedLists(a: seq<Key>, m: map<Key, Bytes>)
    requires Rising(a) && (forall k :: k in a <==> k in m) && (forall k :: k in m ==> m[k] == [])
    requires (forall k :: k in m ==> 0.0 <= Pos(k) < 1.0)
    ensures Ascending(Paired(a)) && Lists(Paired(a), m, 0.0)
  {
    hide Pos, Paired;
    var x := Paired(a);
    forall k | k in m && Pos(k) >= 0.0 ensures Has(x, k) {
      var i :| 0 <= i < |a| && a[i] == k;
      assert x[i].0 == k;
    }
  }

  /** The reverse scan is the reversal of the forward one. */
  lemma ReverseIsReversal(up: seq<Key>, down: seq<Key>, m: map<Key, Bytes>, lower: Option<Bound>, upper: Option<Bound>)
    requires Rising(up) && Selects(up, m, lower, upper) && Falling(down) && Selects(down, m, lower, upper)
    ensures down == Backwards(up)
  {
    hide Pos, Backwards, Within;
    var r := Backwards(down);
    forall k ensures k in r <==> k in down {
      if k in down {
        var i :| 0 <= i < |down| && down[i] == k;
        assert r[|down| - 1 - i] == k;
      }
    }
    RisingSame(up, r);
    assert Backwards(up) == down;
  }

  /** scan_raw: bounds of the wrong shape are refused; otherwise the keys returned are those of exactly the rows
      whose leading columns satisfy the bounds, in key order, or in reverse. */
  method ScanRaw(tree: BTree, types: seq<ColumnType>, lower: Option<Bound>, upper: Option<Bound>, reverse: bool)
    returns (s: Status, ks: seq<Key>)
    requires tree.Valid()
    ensures s == Ok <==>
              (lower.Some? ==> FitsBound(lower.value, types)) && (upper.Some? ==> FitsBound(upper.value, types))
    ensures s != Ok ==> s == Invalid && ks == []
    ensures s == Ok ==> if reverse then Falling(ks) else Rising(ks)
    ensures s == Ok ==> forall r :: RowMatches(r, types) ==>
              (EncodeKey(r) in ks <==>
                 EncodeKey(r) in tree.t.Map() && AboveRow(r, lower, types) && BelowRow(r, upper, types))
    ensures s == Ok ==> forall k :: k in ks ==> k in tree.t.Map()
  {
    hide Pos, BTree.Valid, AboveKey, BelowKey, AboveRow, BelowRow, EncodeKey;
    if (lower.Some? && !FitsBound(lower.value, types)) || (upper.Some? && !FitsBound(upper.value, types)) {
      return Invalid, [];
    }
    if reverse {
      s, ks := ScanBackward(tree, lower, upper);
    } else {
      s, ks := ScanForward(tree, lower, upper);
    }
    forall r | RowMatches(r, types)
      ensures EncodeKey(r) in ks <==>
                EncodeKey(r) in tree.t.Map() && AboveRow(r, lower, types) && BelowRow(r, upper, types)
    {
      KeyBoundsAreRowBounds(r, types, lower, upper);
    }
  }

  // ----- prefix lookups

  /** prefix_exists: whether a key of the tree starts with the values. */
  method PrefixLookup(tree: BTree, values: Row) returns (s: Status, found: bool)
    requires tree.Valid()
    ensures s == Ok && (found <==> PrefixExists(tree.t.Map().Keys, values))
  {
    hide Pos, BTree.Valid, Cursor.OnKey, EncodeKey, Compare;
    var prefix := EncodeKey(values);
    var c := new Cursor(tree);
    s := c.Seek(prefix);
    found := c.valid && StartsWith(c.key, prefix);
    if k :| k in tree.t.Map() && prefix <= k {
      PrefixFirst(k, prefix);
      assert Beyond(k, Pos(prefix), false);
      Between(c.key, prefix, k);
    }
  }

  lemma {:induction false} NotAfter(prefix: Key, k: Key)
    requires prefix <= k
    ensures Compare(prefix, k) <= 0
    decreases |prefix|
  {
    if prefix != [] { NotAfter(prefix[1..], k[1..]); }
  }

  lemma PrefixFirst(k: Key, prefix: Key)
    requires prefix <= k
    ensures Pos(prefix) <= Pos(k)
  {
    hide Pos;
    NotAfter(prefix, k);
    ComparePos(prefix, k);
  }

  /** Between a prefix and a key that starts with it, every key starts with it. */
  lemma Between(c: Key, prefix: Key, k: Key)
    requires prefix <= k && Pos(prefix) <= Pos(c) <= Pos(k)
    ensures prefix <= c
  {
    hide Pos;
    ComparePos(c, prefix);
    ComparePos(c, k);
    assert prefix + k[|prefix|..] == k;
    if !StartsWith(c, prefix) { PastPrefix(c, prefix, k[|prefix|..]); }
  }
}
