/** The order of keys: byte strings compared as unsigned bytes, a proper prefix first
    (compare in engine/src/engine/btree.cpp).

    `Pos` places every byte string on the real line so that the order becomes `<`. */
module KeyOrder {
  import opened PageFormat

  type Key = Bytes

  function Compare(a: Key, b: Key): int
    decreases |a|
  {
    if a == [] then (if b == [] then 0 else -1)
    else if b == [] then 1
    else if a[0] != b[0] then a[0] - b[0]
    else Compare(a[1..], b[1..])
  }

  ghost function Pos(k: Key): real
    decreases |k|
  {
    if k == [] then 0.0 else (k[0] as real + 1.0 + Pos(k[1..])) / 257.0
  }

  lemma {:induction false} PosRange(k: Key)
    ensures 0.0 <= Pos(k) < 1.0 && (k != [] ==> 0.0 < Pos(k))
    decreases |k|
  {
    if k != [] { PosRange(k[1..]); }
  }

  /** The comparison is the order of positions, and positions tell keys apart. */
  lemma {:induction false} ComparePos(a: Key, b: Key)
    ensures Compare(a, b) < 0 <==> Pos(a) < Pos(b)
    ensures Compare(a, b) > 0 <==> Pos(a) > Pos(b)
    ensures Compare(a, b) == 0 <==> a == b
    decreases |a|
  {
    if a != [] { PosRange(a[1..]); }
    if b != [] { PosRange(b[1..]); }
    if a != [] && b != [] {
      if a[0] == b[0] {
        ComparePos(a[1..], b[1..]);
        assert a == [a[0]] + a[1..] && b == [b[0]] + b[1..];
      } else if a[0] < b[0] {
        assert a[0] as real + 1.0 <= b[0] as real;
      } else {
        assert b[0] as real + 1.0 <= a[0] as real;
      }
    }
  }

  lemma PosInjective(a: Key, b: Key)
    requires Pos(a) == Pos(b)
    ensures a == b
  {
    ComparePos(a, b);
  }
}
