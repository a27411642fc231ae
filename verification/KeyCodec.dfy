/** Values, and their order-preserving encoding as keys (engine/src/engine/record.cpp,
    Value::compare in engine/src/engine/types.cpp). */
module KeyCodec {
  import opened PageFormat
  import opened KeyOrder

  datatype ColumnType = Integer | Decimal | Text | Blob | Timestamp | Boolean | Uuid

  const HALF: int := 0x8000_0000_0000_0000

  type Int64 = i: int | -0x8000_0000_0000_0000 <= i < 0x8000_0000_0000_0000

  type Uuid16 = b: Bytes | |b| == 16 witness [0, 0, 0, 0, 0, 0, 0, 0, 0, 0, 0, 0, 0, 0, 0, 0]

  /** Text is its UTF-8 bytes. */
  datatype Value =
    | Null
    | IntegerValue(i: Int64)
    | DecimalValue(i: Int64)
    | TextValue(bytes: Bytes)
    | BlobValue(bytes: Bytes)
    | TimestampValue(i: Int64)
    | BooleanValue(b: bool)
    | UuidValue(uuid: Uuid16)
  {
    predicate Matches(t: ColumnType) {
      match this
      case Null => true
      case IntegerValue(_) => t == Integer
      case DecimalValue(_) => t == Decimal
      case TextValue(_) => t == Text
      case BlobValue(_) => t == Blob
      case TimestampValue(_) => t == Timestamp
      case BooleanValue(_) => t == Boolean
      case UuidValue(_) => t == Uuid
    }
  }

  type Row = seq<Value>

  predicate RowMatches(r: Row, types: seq<ColumnType>) {
    |r| == |types| && forall i :: 0 <= i < |r| ==> r[i].Matches(types[i])
  }

  // ----- the order of values

  function Sign(n: int): int { if n < 0 then -1 else if n > 0 then 1 else 0 }

  function Bit(b: bool): nat { if b then 1 else 0 }

  /** Value::compare for values of one column: nulls first. */
  function CompareValues(a: Value, b: Value, t: ColumnType): int
    requires a.Matches(t) && b.Matches(t)
  {
    if a.Null? || b.Null? then (if a == b then 0 else if a.Null? then -1 else 1)
    else match a
      case IntegerValue(i) => Sign(i - b.i)
      case DecimalValue(i) => Sign(i - b.i)
      case TimestampValue(i) => Sign(i - b.i)
      case BooleanValue(x) => Sign(Bit(x) - Bit(b.b))
      case TextValue(x) => Sign(Compare(x, b.bytes))
      case BlobValue(x) => Sign(Compare(x, b.bytes))
      case UuidValue(x) => Sign(Compare(x, b.uuid))
  }

  /** Rows of the same columns, first difference first; a proper prefix comes first. */
  function CompareRows(a: Row, b: Row, types: seq<ColumnType>): int
    requires |a| <= |types| && |b| <= |types| && RowMatches(a, types[..|a|]) && RowMatches(b, types[..|b|])
    decreases |a|
  {
    if a == [] then (if b == [] then 0 else -1)
    else if b == [] then 1
    else
      assert a[0].Matches(types[..|a|][0]) && b[0].Matches(types[..|b|][0]);
      var c := CompareValues(a[0], b[0], types[0]);
      RowTail(a, types);
      RowTail(b, types);
      if c != 0 then c else CompareRows(a[1..], b[1..], types[1..])
  }

  lemma RowTail(a: Row, types: seq<ColumnType>)
    requires 0 < |a| <= |types| && RowMatches(a, types[..|a|])
    ensures a[0].Matches(types[0]) && RowMatches(a[1..], types[1..][..|a| - 1])
  {
    assert types[1..][..|a| - 1] == types[..|a|][1..];
    assert types[..|a|][0] == types[0];
  }

  // ----- encoding

  /** The low `n` bytes of `u`, most significant first. */
  function BigEndian(u: nat, n: nat): (r: Bytes)
    ensures |r| == n
  {
    if n == 0 then [] else BigEndian(u / 256, n - 1) + [u % 256]
  }

  /** Zero bytes are escaped, and two of them end the string. */
  function Escaped(s: Bytes): Bytes
    decreases |s|
  {
    if s == [] then [0, 0] else (if s[0] == 0 then [0, 255] else [s[0]]) + Escaped(s[1..])
  }

  function EncodeValue(v: Value): Bytes {
    match v
    case Null => [0]
    case IntegerValue(i) => [1] + BigEndian(i + HALF, 8)
    case DecimalValue(i) => [1] + BigEndian(i + HALF, 8)
    case TimestampValue(i) => [1] + BigEndian(i + HALF, 8)
    case BooleanValue(b) => [1, Bit(b)]
    case UuidValue(u) => [1] + u
    case TextValue(s) => [1] + Escaped(s)
    case BlobValue(s) => [1] + Escaped(s)
  }

  function EncodeKey(r: Row): Bytes
    decreases |r|
  {
    if r == [] then [] else EncodeValue(r[0]) + EncodeKey(r[1..])
  }

  // ----- comparing strings that begin alike

  lemma {:induction false} CompareAfter(p: Bytes, x: Bytes, y: Bytes)
    ensures Compare(p + x, p + y) == Compare(x, y)
    decreases |p|
  {
    if p == [] {
      assert p + x == x && p + y == y;
    } else {
      assert (p + x)[1..] == p[1..] + x && (p + y)[1..] == p[1..] + y;
      CompareAfter(p[1..], x, y);
    }
  }

  /** Strings of one length are decided before what follows them. */
  lemma {:induction false} CompareFixed(a: Bytes, b: Bytes, x: Bytes, y: Bytes)
    requires |a| == |b|
    ensures Compare(a, b) != 0 ==> Compare(a + x, b + y) == Compare(a, b)
    decreases |a|
  {
    if a != [] {
      assert (a + x)[1..] == a[1..] + x && (b + y)[1..] == b[1..] + y;
      CompareFixed(a[1..], b[1..], x, y);
    }
  }

  lemma CompareSelf(a: Bytes)
    ensures Compare(a, a) == 0
  {
    ComparePos(a, a);
  }

  function Power(n: nat): (r: nat)
    ensures r >= 1
  {
    if n == 0 then 1 else 256 * Power(n - 1)
  }

  lemma {:induction false} BigEndianOrder(u: nat, v: nat, n: nat)
    requires u < v < Power(n)
    ensures Compare(BigEndian(u, n), BigEndian(v, n)) < 0
    decreases n
  {
    var a, b := BigEndian(u / 256, n - 1), BigEndian(v / 256, n - 1);
    if u / 256 < v / 256 {
      BigEndianOrder(u / 256, v / 256, n - 1);
      CompareFixed(a, b, [u % 256], [v % 256]);
    } else {
      CompareAfter(a, [u % 256], [v % 256]);
    }
  }

  lemma {:induction false} EscapedOrder(s: Bytes, t: Bytes, x: Bytes, y: Bytes)
    requires Compare(s, t) < 0
    ensures Compare(Escaped(s) + x, Escaped(t) + y) < 0
    decreases |s|
  {
    if s != [] && s[0] == t[0] {
      var p := if s[0] == 0 then [0, 255] else [s[0]];
      EscapedOrder(s[1..], t[1..], x, y);
      CompareAfter(p, Escaped(s[1..]) + x, Escaped(t[1..]) + y);
      EscapedStep(s, x);
      EscapedStep(t, y);
    } else {
      hide Escaped;
      FirstBytes(s, x);
      FirstBytes(t, y);
    }
  }

  lemma EscapedStep(s: Bytes, x: Bytes)
    requires s != []
    ensures Escaped(s) + x == (if s[0] == 0 then [0, 255] else [s[0]]) + (Escaped(s[1..]) + x)
  {
  }

  lemma FirstBytes(s: Bytes, x: Bytes)
    ensures var e := Escaped(s) + x;
            && |e| >= 1 && e[0] == (if s == [] then 0 else s[0])
            && (s == [] ==> |e| >= 2 && e[1] == 0) && (s != [] && s[0] == 0 ==> |e| >= 2 && e[1] == 255)
    ensures s == [] ==> |Escaped(s) + x| >= 2 && (Escaped(s) + x)[1..][0] == 0
    ensures s != [] && s[0] == 0 ==> (Escaped(s) + x)[1..][0] == 255
  {
  }

  // ----- order preservation

  lemma CompareFlips(a: Bytes, b: Bytes)
    ensures Compare(a, b) < 0 <==> Compare(b, a) > 0
  {
    ComparePos(a, b);
    ComparePos(b, a);
  }

  /** After the tag, bodies of one length, or escaped strings, decide. */
  lemma BelowFixed(p: Bytes, q: Bytes, x: Bytes, y: Bytes)
    requires |p| == |q| && Compare(p, q) < 0
    ensures Compare([1] + p + x, [1] + q + y) < 0
  {
    hide Compare;
    CompareFixed(p, q, x, y);
    CompareAfter([1], p + x, q + y);
    assert [1] + p + x == [1] + (p + x) && [1] + q + y == [1] + (q + y);
  }

  lemma BelowEscaped(s: Bytes, t: Bytes, x: Bytes, y: Bytes)
    requires Compare(s, t) < 0
    ensures Compare([1] + Escaped(s) + x, [1] + Escaped(t) + y) < 0
  {
    hide Compare, Escaped;
    EscapedOrder(s, t, x, y);
    CompareAfter([1], Escaped(s) + x, Escaped(t) + y);
    assert [1] + Escaped(s) + x == [1] + (Escaped(s) + x) && [1] + Escaped(t) + y == [1] + (Escaped(t) + y);
  }

  lemma BelowWhole(i: Int64, j: Int64, x: Bytes, y: Bytes)
    requires i < j
    ensures Compare([1] + BigEndian(i + HALF, 8) + x, [1] + BigEndian(j + HALF, 8) + y) < 0
  {
    hide Compare, BigEndian;
    EightBytes();
    BigEndianOrder(i + HALF, j + HALF, 8);
    BelowFixed(BigEndian(i + HALF, 8), BigEndian(j + HALF, 8), x, y);
  }

  lemma Below(a: Value, b: Value, t: ColumnType, x: Bytes, y: Bytes)
    requires a.Matches(t) && b.Matches(t) && CompareValues(a, b, t) < 0
    ensures Compare(EncodeValue(a) + x, EncodeValue(b) + y) < 0
  {
    hide BigEndian, Escaped;
    match a
    case Null =>
    case IntegerValue(i) => BelowWhole(i, b.i, x, y);
    case DecimalValue(i) => BelowWhole(i, b.i, x, y);
    case TimestampValue(i) => BelowWhole(i, b.i, x, y);
    case TextValue(s) => BelowEscaped(s, b.bytes, x, y);
    case BlobValue(s) => BelowEscaped(s, b.bytes, x, y);
    case UuidValue(u) => BelowFixed(u, b.uuid, x, y);
    case BooleanValue(_) => CompareAfter([1], [0] + x, [1] + y);
      assert [1, 0] + x == [1] + ([0] + x) && [1, 1] + y == [1] + ([1] + y);
  }

  lemma ValuesFlip(a: Value, b: Value, t: ColumnType)
    requires a.Matches(t) && b.Matches(t)
    ensures CompareValues(b, a, t) == -CompareValues(a, b, t)
  {
    hide Compare;
    if !a.Null? && !b.Null? {
      if a.TextValue? || a.BlobValue? {
        CompareFlips(a.bytes, b.bytes);
        CompareFlips(b.bytes, a.bytes);
      }
      if a.UuidValue? {
        CompareFlips(a.uuid, b.uuid);
        CompareFlips(b.uuid, a.uuid);
      }
    }
  }

  lemma EightBytes()
    ensures Power(8) == 2 * HALF
  {
    assert Power(4) == 0x1_0000_0000;
  }

  /** Two values of a column are told apart, in order, by their encodings, whatever follows them. */
  lemma ValueOrder(a: Value, b: Value, t: ColumnType, x: Bytes, y: Bytes)
    requires a.Matches(t) && b.Matches(t)
    ensures CompareValues(a, b, t) == 0 ==> a == b
    ensures CompareValues(a, b, t) != 0 ==>
              Sign(Compare(EncodeValue(a) + x, EncodeValue(b) + y)) == CompareValues(a, b, t)
  {
    hide Compare, EncodeValue;
    if CompareValues(a, b, t) < 0 {
      Below(a, b, t, x, y);
    } else if CompareValues(a, b, t) > 0 {
      ValuesFlip(a, b, t);
      Below(b, a, t, y, x);
      CompareFlips(EncodeValue(b) + y, EncodeValue(a) + x);
    } else if a.TextValue? || a.BlobValue? {
      ComparePos(a.bytes, b.bytes);
    } else if a.UuidValue? {
      ComparePos(a.uuid, b.uuid);
    }
  }

  /** Byte order of keys is the order of rows. */
  lemma {:induction false} KeyOrderIsRowOrder(a: Row, b: Row, types: seq<ColumnType>)
    requires |a| <= |types| && |b| <= |types| && RowMatches(a, types[..|a|]) && RowMatches(b, types[..|b|])
    ensures Sign(Compare(EncodeKey(a), EncodeKey(b))) == CompareRows(a, b, types)
    decreases |a|
  {
    hide EncodeValue, CompareValues, Compare;
    if a == [] || b == [] {
      Endings(a, b);
    } else {
      RowTail(a, types);
      RowTail(b, types);
      ValueOrder(a[0], b[0], types[0], EncodeKey(a[1..]), EncodeKey(b[1..]));
      KeyOrderIsRowOrder(a[1..], b[1..], types[1..]);
      if a[0] == b[0] { CompareAfter(EncodeValue(a[0]), EncodeKey(a[1..]), EncodeKey(b[1..])); }
      ValueSelf(a[0], types[0]);
    }
  }

  lemma ValueSelf(a: Value, t: ColumnType)
    requires a.Matches(t)
    ensures CompareValues(a, a, t) == 0
  {
    if a.TextValue? || a.BlobValue? { CompareSelf(a.bytes); }
    if a.UuidValue? { CompareSelf(a.uuid); }
  }

  lemma Endings(a: Row, b: Row)
    requires a == [] || b == []
    ensures Sign(Compare(EncodeKey(a), EncodeKey(b))) == if a == [] then (if b == [] then 0 else -1) else 1
  {
    if a != [] { assert |EncodeValue(a[0])| >= 1; }
    if b != [] { assert |EncodeValue(b[0])| >= 1; }
  }

  // ----- prefixes

  lemma {:induction false} EncodeConcat(a: Row, b: Row)
    ensures EncodeKey(a + b) == EncodeKey(a) + EncodeKey(b)
    decreases |a|
  {
    if a == [] {
      assert a + b == b;
    } else {
      assert (a + b)[0] == a[0] && (a + b)[1..] == a[1..] + b;
      EncodeConcat(a[1..], b);
    }
  }

  /** No encoding of a column begins another: if one string starts with both, the values are the same. */
  lemma PrefixFree(a: Value, b: Value, t: ColumnType, x: Bytes, y: Bytes)
    requires a.Matches(t) && b.Matches(t) && EncodeValue(a) + x == EncodeValue(b) + y
    ensures a == b && x == y
  {
    hide EncodeValue, CompareValues;
    ValueOrder(a, b, t, x, y);
    CompareSelf(EncodeValue(a) + x);
    if a == b {
      assert x == (EncodeValue(a) + x)[|EncodeValue(a)|..] && y == (EncodeValue(b) + y)[|EncodeValue(b)|..];
    }
  }

  /** A key starts with an encoded prefix exactly when its leading values are those of the prefix. */
  lemma {:induction false} PrefixIff(p: Row, r: Row, types: seq<ColumnType>)
    requires |p| <= |r| <= |types| && RowMatches(p, types[..|p|]) && RowMatches(r, types[..|r|])
    ensures EncodeKey(p) <= EncodeKey(r) <==> p == r[..|p|]
    decreases |p|
  {
    hide EncodeValue;
    if p != [] {
      RowTail(p, types);
      RowTail(r, types);
      PrefixIff(p[1..], r[1..], types[1..]);
      if EncodeKey(p) <= EncodeKey(r) {
        var rest := EncodeKey(r)[|EncodeKey(p)|..];
        assert EncodeKey(r) == EncodeValue(p[0]) + (EncodeKey(p[1..]) + rest);
        PrefixFree(p[0], r[0], types[0], EncodeKey(p[1..]) + rest, EncodeKey(r[1..]));
        assert EncodeKey(p[1..]) <= EncodeKey(r[1..]);
        assert r[..|p|] == [r[0]] + r[1..][..|p| - 1] && p == [p[0]] + p[1..];
      }
      if p == r[..|p|] {
        assert p[1..] == r[1..][..|p| - 1];
      }
    }
  }

  // ----- decoding

  function FromBigEndian(b: Bytes): nat { if b == [] then 0 else FromBigEndian(b[..|b| - 1]) * 256 + b[|b| - 1] }

  lemma {:induction false} BigEndianBack(u: nat, n: nat)
    requires u < Power(n)
    ensures FromBigEndian(BigEndian(u, n)) == u
    decreases n
  {
    if n > 0 {
      BigEndianBack(u / 256, n - 1);
      assert BigEndian(u, n)[..n - 1] == BigEndian(u / 256, n - 1);
    }
  }

  /** get_escaped: the string and what follows it. */
  function Unescaped(s: Bytes): Option<(Bytes, Bytes)>
    decreases |s|
  {
    if s == [] then None
    else if s[0] != 0 then
      var r := Unescaped(s[1..]);
      if r.None? then None else Some(([s[0]] + r.value.0, r.value.1))
    else if |s| == 1 then None
    else if s[1] == 0 then Some(([], s[2..]))
    else if s[1] == 255 then
      var r := Unescaped(s[2..]);
      if r.None? then None else Some(([0] + r.value.0, r.value.1))
    else None
  }

  lemma {:induction false} UnescapedBack(s: Bytes, x: Bytes)
    ensures Unescaped(Escaped(s) + x) == Some((s, x))
    decreases |s|
  {
    var e := Escaped(s) + x;
    if s == [] {
      assert e[2..] == x;
    } else {
      UnescapedBack(s[1..], x);
      var p := if s[0] == 0 then [0, 255] else [s[0]];
      assert e == p + (Escaped(s[1..]) + x) && e[|p|..] == Escaped(s[1..]) + x;
      assert [s[0]] + s[1..] == s;
    }
  }

  /** A whole number from eight bytes, the sign bit flipped back. */
  function Whole(b: Bytes): Int64
    requires |b| == 8
  {
    EightBounded(b);
    FromBigEndian(b) - HALF
  }

  lemma {:induction false} Bounded(b: Bytes)
    ensures FromBigEndian(b) < Power(|b|)
    decreases |b|
  {
    if b != [] { Bounded(b[..|b| - 1]); }
  }

  lemma EightBounded(b: Bytes)
    requires |b| == 8
    ensures FromBigEndian(b) < 2 * HALF
  {
    Bounded(b);
    EightBytes();
  }

  /** One column, and what follows it; None is the source's corruption status. */
  function DecodeValue(s: Bytes, t: ColumnType): Option<(Value, Bytes)> {
    if s == [] then None
    else if s[0] == 0 then Some((Null, s[1..]))
    else if s[0] != 1 then None
    else var p := s[1..];
      match t
      case Integer => if |p| < 8 then None else Some((IntegerValue(Whole(p[..8])), p[8..]))
      case Decimal => if |p| < 8 then None else Some((DecimalValue(Whole(p[..8])), p[8..]))
      case Timestamp => if |p| < 8 then None else Some((TimestampValue(Whole(p[..8])), p[8..]))
      case Boolean => if p == [] then None else Some((BooleanValue(p[0] != 0), p[1..]))
      case Uuid => if |p| < 16 then None else Some((UuidValue(p[..16]), p[16..]))
      case Text => var r := Unescaped(p); if r.None? then None else Some((TextValue(r.value.0), r.value.1))
      case Blob => var r := Unescaped(p); if r.None? then None else Some((BlobValue(r.value.0), r.value.1))
  }

  function DecodeKey(s: Bytes, types: seq<ColumnType>): Option<(Row, Bytes)>
    decreases |types|
  {
    if types == [] then Some(([], s))
    else
      var v := DecodeValue(s, types[0]);
      if v.None? then None else
      var rest := DecodeKey(v.value.1, types[1..]);
      if rest.None? then None else Some(([v.value.0] + rest.value.0, rest.value.1))
  }

  lemma DecodesWhole(i: Int64, x: Bytes)
    ensures var p := BigEndian(i + HALF, 8) + x; p[8..] == x && Whole(p[..8]) == i
  {
    EightBytes();
    BigEndianBack(i + HALF, 8);
    assert (BigEndian(i + HALF, 8) + x)[..8] == BigEndian(i + HALF, 8);
  }

  lemma DecodesNumber(v: Value, t: ColumnType, x: Bytes)
    requires v.Matches(t) && (v.IntegerValue? || v.DecimalValue? || v.TimestampValue?)
    ensures DecodeValue(EncodeValue(v) + x, t) == Some((v, x))
  {
    hide BigEndian, Escaped, Unescaped, Whole;
    var s := EncodeValue(v) + x;
    match v
    case IntegerValue(i) => DecodesWhole(i, x); assert s[1..] == BigEndian(i + HALF, 8) + x;
    case DecimalValue(i) => DecodesWhole(i, x); assert s[1..] == BigEndian(i + HALF, 8) + x;
    case TimestampValue(i) => DecodesWhole(i, x); assert s[1..] == BigEndian(i + HALF, 8) + x;
  }

  lemma DecodesValue(v: Value, t: ColumnType, x: Bytes)
    requires v.Matches(t)
    ensures DecodeValue(EncodeValue(v) + x, t) == Some((v, x))
  {
    hide BigEndian, Escaped, Unescaped, Whole;
    if v.IntegerValue? || v.DecimalValue? || v.TimestampValue? {
      DecodesNumber(v, t, x);
      return;
    }
    var s := EncodeValue(v) + x;
    match v
    case Null => assert s[1..] == x;
    case TextValue(b) => UnescapedBack(b, x); assert s[1..] == Escaped(b) + x;
    case BlobValue(b) => UnescapedBack(b, x); assert s[1..] == Escaped(b) + x;
    case UuidValue(u) => assert s[1..] == u + x && (u + x)[..16] == u && (u + x)[16..] == x;
    case BooleanValue(b) => assert s[1..] == [Bit(b)] + x && ([Bit(b)] + x)[1..] == x;
  }

  /** Decoding a key gives back its values and leaves what follows. */
  lemma {:induction false} DecodesKey(r: Row, types: seq<ColumnType>, x: Bytes)
    requires RowMatches(r, types)
    ensures DecodeKey(EncodeKey(r) + x, types) == Some((r, x))
    decreases |r|
  {
    hide EncodeValue, DecodeValue;
    if r == [] {
      assert EncodeKey(r) + x == x;
    } else {
      DecodesValue(r[0], types[0], EncodeKey(r[1..]) + x);
      assert EncodeKey(r) + x == EncodeValue(r[0]) + (EncodeKey(r[1..]) + x);
      DecodesKey(r[1..], types[1..], x);
      assert [r[0]] + r[1..] == r;
    }
  }

  /** decode_key, from a position on. */
  method ReadKey(s: Bytes, start: nat, types: seq<ColumnType>) returns (row: Option<Row>, pos: nat)
    requires start <= |s|
    ensures start <= pos <= |s|
    ensures row.None? <==> DecodeKey(s[start..], types).None?
    ensures row.Some? ==> DecodeKey(s[start..], types) == Some((row.value, s[pos..]))
  {
    hide DecodeValue;
    pos := start;
    var out: Row, i := [], 0;
    assert types[0..] == types && forall r: Row :: [] + r == r;
    while i < |types|
      invariant i <= |types| && start <= pos <= |s|
      invariant var rest := DecodeKey(s[pos..], types[i..]);
                DecodeKey(s[start..], types) == if rest.None? then None else Some((out + rest.value.0, rest.value.1))
    {
      var v := DecodeValue(s[pos..], types[i]);
      assert types[i..][0] == types[i] && types[i..][1..] == types[i + 1..];
      if v.None? { return None, pos; }
      Consumes(s[pos..], types[i]);
      var rest := v.value.1;
      assert s[|s| - |rest|..] == rest;
      ghost var after := DecodeKey(rest, types[i + 1..]);
      assert after.Some? ==> out + ([v.value.0] + after.value.0) == (out + [v.value.0]) + after.value.0;
      out := out + [v.value.0];
      pos := |s| - |rest|;
      i := i + 1;
    }
    row := Some(out);
    assert out + [] == out;
  }

  lemma {:induction false} UnescapedConsumes(s: Bytes)
    ensures var r := Unescaped(s); r.Some? ==> |r.value.1| <= |s| && r.value.1 == s[|s| - |r.value.1|..]
    decreases |s|
  {
    if s != [] && s[0] != 0 { UnescapedConsumes(s[1..]); }
    if |s| >= 2 && s[0] == 0 && s[1] == 255 { UnescapedConsumes(s[2..]); }
  }

  lemma Consumes(s: Bytes, t: ColumnType)
    ensures var v := DecodeValue(s, t); v.Some? ==> |v.value.1| <= |s| && v.value.1 == s[|s| - |v.value.1|..]
  {
    if s != [] { UnescapedConsumes(s[1..]); }
  }
}
