/** Rows as they are stored (encode_row and decode_row in engine/src/engine/record.cpp). */
module RowCodec {
  import opened PageFormat
  import opened KeyCodec

  const FULL: nat := 0x1_0000_0000_0000_0000

  /** The low `n` bytes of `u`, least significant first. */
  function LittleEndian(u: nat, n: nat): (r: Bytes)
    ensures |r| == n
  {
    if n == 0 then [] else [u % 256] + LittleEndian(u / 256, n - 1)
  }

  function FromLittleEndian(b: Bytes): nat
    decreases |b|
  {
    if b == [] then 0 else b[0] + 256 * FromLittleEndian(b[1..])
  }

  lemma {:induction false} LittleEndianBack(u: nat, n: nat)
    ensures FromLittleEndian(LittleEndian(u, n)) == u % Power(n)
    decreases n
  {
    if n > 0 {
      LittleEndianBack(u / 256, n - 1);
      assert LittleEndian(u, n)[1..] == LittleEndian(u / 256, n - 1);
      ModStep(u, Power(n - 1));
    }
  }

  lemma ModStep(u: nat, p: nat)
    requires p > 0
    ensures u % 256 + 256 * ((u / 256) % p) == u % (256 * p)
  {
    var q, r := (u / 256) / p, (u / 256) % p;
    assert u / 256 == p * q + r;
    assert u == (256 * p) * q + (u % 256 + 256 * r);
    Remainder(u, 256 * p, q, u % 256 + 256 * r);
  }

  lemma Remainder(n: nat, b: nat, q: nat, r: nat)
    requires 0 <= r < b && n == b * q + r
    ensures n % b == r
  {
    var q', r' := n / b, n % b;
    assert n == b * q' + r';
    assert b * (q - q') == b * q - b * q' && b * (q' - q) == b * q' - b * q;
    if q > q' { Once(b, q - q'); }
    if q < q' { Once(b, q' - q); }
  }

  lemma Once(b: int, x: int)
    requires b > 0 && x >= 1
    ensures b * x >= b
  {
  }

  lemma {:induction false} FromBound(b: Bytes)
    ensures FromLittleEndian(b) < Power(|b|)
    decreases |b|
  {
    if b != [] { FromBound(b[1..]); }
  }

  lemma Powers()
    ensures Power(2) == 65536 && Power(4) == 0x1_0000_0000 && Power(8) == FULL
  {
    assert Power(4) == 0x1_0000_0000;
  }

  /** Two's complement. */
  function Unsigned(i: Int64): nat { if i >= 0 then i else i + FULL }

  function Signed(b: Bytes): Int64
    requires |b| == 8
  {
    FromBound(b);
    Powers();
    var u := FromLittleEndian(b);
    if u < HALF then u else u - FULL
  }

  // ----- cells

  function EncodeCell(v: Value): Bytes {
    match v
    case Null => [0]
    case IntegerValue(i) => [1] + LittleEndian(Unsigned(i), 8)
    case DecimalValue(i) => [2] + LittleEndian(Unsigned(i), 8)
    case TextValue(s) => [3] + LittleEndian(|s|, 4) + s
    case BlobValue(s) => [4] + LittleEndian(|s|, 4) + s
    case TimestampValue(i) => [5] + LittleEndian(Unsigned(i), 8)
    case BooleanValue(b) => [6, Bit(b)]
    case UuidValue(u) => [7] + u
  }

  /** A length and as many bytes, and what follows. */
  function TakeBytes(s: Bytes): Option<(Bytes, Bytes)> {
    if |s| < 4 then None else
    var len := FromLittleEndian(s[..4]);
    if 4 + len > |s| then None else Some((s[4..4 + len], s[4 + len..]))
  }

  function DecodeCell(s: Bytes): Option<(Value, Bytes)> {
    if s == [] then None else
    var p := s[1..];
    match s[0]
    case 0 => Some((Null, p))
    case 1 => if |p| < 8 then None else Some((IntegerValue(Signed(p[..8])), p[8..]))
    case 2 => if |p| < 8 then None else Some((DecimalValue(Signed(p[..8])), p[8..]))
    case 3 => var r := TakeBytes(p); if r.None? then None else Some((TextValue(r.value.0), r.value.1))
    case 4 => var r := TakeBytes(p); if r.None? then None else Some((BlobValue(r.value.0), r.value.1))
    case 5 => if |p| < 8 then None else Some((TimestampValue(Signed(p[..8])), p[8..]))
    case 6 => if p == [] then None else Some((BooleanValue(p[0] != 0), p[1..]))
    case 7 => if |p| < 16 then None else Some((UuidValue(p[..16]), p[16..]))
    case _ => None
  }

  /** Values shorter than 2^32 bytes. */
  predicate Storable(v: Value) { (v.TextValue? || v.BlobValue?) ==> |v.bytes| < 0x1_0000_0000 }

  predicate StorableRow(r: Row) { forall i :: 0 <= i < |r| ==> Storable(r[i]) }

  lemma SignedBack(i: Int64, x: Bytes)
    ensures var p := LittleEndian(Unsigned(i), 8) + x; p[8..] == x && Signed(p[..8]) == i
  {
    Powers();
    LittleEndianBack(Unsigned(i), 8);
    assert (LittleEndian(Unsigned(i), 8) + x)[..8] == LittleEndian(Unsigned(i), 8);
  }

  lemma FitsBack(u: nat, n: nat)
    requires u < Power(n)
    ensures FromLittleEndian(LittleEndian(u, n)) == u
  {
    LittleEndianBack(u, n);
    Remainder(u, Power(n), 0, u);
  }

  lemma ThreeParts(a: Bytes, b: Bytes, c: Bytes)
    ensures var p := a + b + c; p[..|a|] == a && p[|a|..|a| + |b|] == b && p[|a| + |b|..] == c
  {
  }

  lemma TakeBytesBack(s: Bytes, x: Bytes)
    requires |s| < 0x1_0000_0000
    ensures TakeBytes(LittleEndian(|s|, 4) + s + x) == Some((s, x))
  {
    hide LittleEndian, FromLittleEndian, Power;
    Powers();
    FitsBack(|s|, 4);
    ThreeParts(LittleEndian(|s|, 4), s, x);
  }

  /** A tag, and the body after it. */
  lemma Tagged(tag: Byte, body: Bytes, x: Bytes)
    ensures ([tag] + body + x)[0] == tag && ([tag] + body + x)[1..] == body + x
  {
  }

  lemma CellBack(v: Value, x: Bytes)
    requires Storable(v)
    ensures DecodeCell(EncodeCell(v) + x) == Some((v, x))
  {
    hide LittleEndian, TakeBytes, Signed, Unsigned;
    match v
    case Null => assert ([0] + x)[1..] == x;
    case IntegerValue(i) => SignedBack(i, x); Tagged(1, LittleEndian(Unsigned(i), 8), x);
    case DecimalValue(i) => SignedBack(i, x); Tagged(2, LittleEndian(Unsigned(i), 8), x);
    case TimestampValue(i) => SignedBack(i, x); Tagged(5, LittleEndian(Unsigned(i), 8), x);
    case TextValue(b) => StringBack(3, b, x);
    case BlobValue(b) => StringBack(4, b, x);
    case BooleanValue(b) => Tagged(6, [Bit(b)], x); assert [6, Bit(b)] == [6] + [Bit(b)] && ([Bit(b)] + x)[1..] == x;
    case UuidValue(u) => Tagged(7, u, x); assert (u + x)[..16] == u && (u + x)[16..] == x;
  }

  lemma StringBack(tag: Byte, b: Bytes, x: Bytes)
    requires |b| < 0x1_0000_0000
    ensures var s := [tag] + LittleEndian(|b|, 4) + b + x; s[0] == tag && TakeBytes(s[1..]) == Some((b, x))
  {
    hide LittleEndian, TakeBytes;
    TakeBytesBack(b, x);
    var n := LittleEndian(|b|, 4);
    assert [tag] + n + b + x == [tag] + (n + b + x);
  }

  // ----- rows

  function EncodeCells(r: Row): Bytes
    decreases |r|
  {
    if r == [] then [] else EncodeCell(r[0]) + EncodeCells(r[1..])
  }

  /** The count is kept in sixteen bits. */
  function EncodeRow(r: Row): Bytes { LittleEndian(|r|, 2) + EncodeCells(r) }

  function DecodeCells(s: Bytes, n: nat): Option<(Row, Bytes)>
    decreases n
  {
    if n == 0 then Some(([], s)) else
    var v := DecodeCell(s);
    if v.None? then None else
    var rest := DecodeCells(v.value.1, n - 1);
    if rest.None? then None else Some(([v.value.0] + rest.value.0, rest.value.1))
  }

  function DecodeRow(s: Bytes): Option<Row> {
    if |s| < 2 then None else
    var r := DecodeCells(s[2..], FromLittleEndian(s[..2]));
    if r.None? || r.value.1 != [] then None else Some(r.value.0)
  }

  lemma {:induction false} CellsBack(r: Row, n: nat, x: Bytes)
    requires StorableRow(r) && n <= |r|
    ensures DecodeCells(EncodeCells(r) + x, n) == Some((r[..n], EncodeCells(r[n..]) + x))
    decreases n
  {
    hide EncodeCell, DecodeCell;
    if n == 0 {
      assert r[0..] == r && r[..0] == [];
    } else {
      CellBack(r[0], EncodeCells(r[1..]) + x);
      assert EncodeCells(r) + x == EncodeCell(r[0]) + (EncodeCells(r[1..]) + x);
      CellsBack(r[1..], n - 1, x);
      assert r[1..][n - 1..] == r[n..] && [r[0]] + r[1..][..n - 1] == r[..n];
    }
  }

  lemma {:induction false} CellsNotEmpty(r: Row)
    requires r != []
    ensures EncodeCells(r) != []
  {
    assert |EncodeCell(r[0])| >= 1;
  }

  /** A stored row comes back exactly when its count fits; otherwise it is refused, never misread. */
  lemma RowBack(r: Row)
    requires StorableRow(r)
    ensures DecodeRow(EncodeRow(r)) == if |r| < 65536 then Some(r) else None
  {
    hide EncodeCells, DecodeCells, LittleEndian;
    Powers();
    LittleEndianBack(|r|, 2);
    var s, n := EncodeRow(r), |r| % 65536;
    assert s[..2] == LittleEndian(|r|, 2) && s[2..] == EncodeCells(r);
    CellsBack(r, n, []);
    assert EncodeCells(r) + [] == EncodeCells(r) && EncodeCells(r[n..]) + [] == EncodeCells(r[n..]);
    if n == |r| {
      assert r[n..] == [] && r[..n] == r;
      NoCells();
    } else {
      CellsNotEmpty(r[n..]);
    }
  }

  /** A text or blob of 2^32 bytes or more comes back cut off. */
  lemma LongIsCut(v: Value, x: Bytes)
    requires !Storable(v)
    ensures DecodeCell(EncodeCell(v) + x).Some? && DecodeCell(EncodeCell(v) + x).value.0 != v
  {
    hide LittleEndian, FromLittleEndian, Power;
    Powers();
    LittleEndianBack(|v.bytes|, 4);
    var n, tag := LittleEndian(|v.bytes|, 4), if v.TextValue? then 3 else 4;
    assert EncodeCell(v) + x == [tag] + (n + v.bytes + x);
    ThreeParts(n, v.bytes, x);
  }

  lemma {:induction false} CellsBackOnly(r: Row, x: Bytes)
    requires DecodeCells(EncodeCells(r) + x, |r|).Some? && DecodeCells(EncodeCells(r) + x, |r|).value.0 == r
    ensures StorableRow(r)
    decreases |r|
  {
    hide EncodeCell, DecodeCell, Storable;
    if r != [] {
      var rest := EncodeCells(r[1..]) + x;
      assert EncodeCells(r) + x == EncodeCell(r[0]) + rest;
      if !Storable(r[0]) { LongIsCut(r[0], rest); }
      CellBack(r[0], rest);
      assert r[1..] == DecodeCells(rest, |r| - 1).value.0;
      CellsBackOnly(r[1..], x);
    }
  }

  /** A row comes back exactly if it has fewer than 2^16 values, and no text or blob of 2^32 bytes or more. */
  lemma RowBackExactly(r: Row)
    ensures DecodeRow(EncodeRow(r)) == Some(r) <==>
              && |r| < 65536
              && forall i :: 0 <= i < |r| ==>
                   && (r[i].TextValue? ==> |r[i].bytes| < 0x1_0000_0000)
                   && (r[i].BlobValue? ==> |r[i].bytes| < 0x1_0000_0000)
  {
    hide EncodeCells, DecodeCells, LittleEndian;
    if StorableRow(r) {
      RowBack(r);
    } else if DecodeRow(EncodeRow(r)) == Some(r) {
      Powers();
      LittleEndianBack(|r|, 2);
      var s := EncodeRow(r);
      assert s[..2] == LittleEndian(|r|, 2) && s[2..] == EncodeCells(r) + [];
      CellsAre(s[2..], |r| % 65536);
      CellsBackOnly(r, []);
      assert false;
    }
  }

  lemma {:induction false} CellsAre(s: Bytes, n: nat)
    ensures DecodeCells(s, n).Some? ==> |DecodeCells(s, n).value.0| == n
    decreases n
  {
    hide DecodeCell;
    if n > 0 && DecodeCell(s).Some? { CellsAre(DecodeCell(s).value.1, n - 1); }
  }

  lemma NoCells()
    ensures EncodeCells([]) == []
  {
  }
}
