/** Space inside one node page (struct Node in engine/src/engine/btree.cpp), and whether
    the halves of a split fit.

    Cells are laid out from the end of the body downwards, their offsets kept in slots
    after the header; a removed cell leaves a fragment behind. */
module NodeSpace {
  import opened PageFormat

  const HEADER := 24

  datatype Slot = Slot(off: nat, size: nat)

  function Total(slots: seq<Slot>): nat {
    if slots == [] then 0 else Total(slots[..|slots| - 1]) + slots[|slots| - 1].size
  }

  lemma {:induction false} TotalConcat(a: seq<Slot>, b: seq<Slot>)
    ensures Total(a + b) == Total(a) + Total(b)
    decreases |b|
  {
    if b == [] {
      assert a + b == a;
    } else {
      TotalConcat(a, b[..|b| - 1]);
      assert (a + b)[..|a + b| - 1] == a + b[..|b| - 1];
    }
  }

  lemma TotalOne(s: Slot)
    ensures Total([s]) == s.size
  {
    assert [s][..0] == [];
  }

  lemma {:induction false} TotalPrefix(slots: seq<Slot>, i: nat, j: nat)
    requires i <= j <= |slots|
    ensures Total(slots[..i]) <= Total(slots[..j]) <= Total(slots)
  {
    TotalConcat(slots[..i], slots[i..j]);
    TotalConcat(slots[..j], slots[j..]);
    assert slots[..i] + slots[i..j] == slots[..j] && slots[..j] + slots[j..] == slots;
  }

  // ----- the layout of a body

  ghost predicate Apart(a: Slot, b: Slot) { a.off + a.size <= b.off || b.off + b.size <= a.off }

  /** The cells lie past `start`, apart from each other, in a body of `usable` bytes. */
  ghost predicate Placed(slots: seq<Slot>, start: nat, usable: nat) {
    && (forall i :: 0 <= i < |slots| ==> start <= slots[i].off && slots[i].off + slots[i].size <= usable)
    && (forall i, j :: 0 <= i < j < |slots| ==> Apart(slots[i], slots[j]))
  }

  function Slice(body: Bytes, s: Slot): Bytes { if s.off + s.size <= |body| then body[s.off..s.off + s.size] else [] }

  /** The cells in slot order. */
  function CellsOf(body: Bytes, slots: seq<Slot>): (r: seq<Bytes>)
    ensures |r| == |slots| && forall i :: 0 <= i < |slots| ==> r[i] == Slice(body, slots[i])
  {
    if slots == [] then [] else CellsOf(body, slots[..|slots| - 1]) + [Slice(body, slots[|slots| - 1])]
  }

  lemma SliceSame(body: Bytes, body': Bytes, s: Slot)
    requires |body| == |body'| && forall x :: s.off <= x < s.off + s.size && x < |body| ==> body'[x] == body[x]
    ensures Slice(body', s) == Slice(body, s)
  {
  }

  lemma TotalInserted(slots: seq<Slot>, at: nat, s: Slot)
    requires at <= |slots|
    ensures Total(slots[..at] + [s] + slots[at..]) == Total(slots) + s.size
  {
    hide Total;
    TotalConcat(slots[..at], slots[at..]);
    TotalConcat(slots[..at], [s]);
    TotalConcat(slots[..at] + [s], slots[at..]);
    TotalOne(s);
    assert slots == slots[..at] + slots[at..];
  }

  /** A cell written below all others does not touch them. */
  lemma InsertedCells(body: Bytes, body': Bytes, slots: seq<Slot>, at: nat, s: Slot, start: nat)
    requires |body| == |body'| && Placed(slots, start, |body|) && at <= |slots| && s.off + s.size == start <= |body|
    requires forall x :: start <= x < |body| ==> body'[x] == body[x]
    ensures var slots' := slots[..at] + [s] + slots[at..];
            CellsOf(body', slots') == CellsOf(body, slots)[..at] + [Slice(body', s)] + CellsOf(body, slots)[at..]
  {
    hide Slice, CellsOf, Placed;
    var left, right := slots[..at], slots[at..];
    assert slots == left + right;
    SameCells(body, body', slots, start);
    CellsConcat(body, left, right);
    CellsConcat(body', left, right);
    CellsConcat(body', left, [s]);
    CellsConcat(body', left + [s], right);
    assert CellsOf(body', [s]) == [Slice(body', s)];
    assert CellsOf(body, slots)[..at] == CellsOf(body', left) && CellsOf(body, slots)[at..] == CellsOf(body', right);
  }

  lemma CellsConcat(body: Bytes, a: seq<Slot>, b: seq<Slot>)
    ensures CellsOf(body, a + b) == CellsOf(body, a) + CellsOf(body, b)
  {
    hide Slice, CellsOf;
  }

  lemma SameCells(body: Bytes, body': Bytes, slots: seq<Slot>, start: nat)
    requires |body| == |body'| && Placed(slots, start, |body|)
    requires forall x :: start <= x < |body| ==> body'[x] == body[x]
    ensures CellsOf(body', slots) == CellsOf(body, slots)
  {
    hide Slice, CellsOf;
    forall i | 0 <= i < |slots|
      ensures CellsOf(body', slots)[i] == CellsOf(body, slots)[i]
    {
      SliceSame(body, body', slots[i]);
    }
  }

  lemma InsertedPlaced(slots: seq<Slot>, at: nat, s: Slot, start: nat, usable: nat)
    requires Placed(slots, start, usable) && at <= |slots| && s.off + s.size == start <= usable
    ensures Placed(slots[..at] + [s] + slots[at..], s.off, usable)
  {
    var slots' := slots[..at] + [s] + slots[at..];
    forall i, j | 0 <= i < j < |slots'| ensures Apart(slots'[i], slots'[j]) {
      var i0, j0 := if i < at then i else i - 1, if j < at then j else j - 1;
      if i != at && j != at { assert Apart(slots[i0], slots[j0]); }
    }
  }

  lemma RemovedCells(body: Bytes, slots: seq<Slot>, at: nat, start: nat)
    requires Placed(slots, start, |body|) && at < |slots|
    ensures var slots' := slots[..at] + slots[at + 1..];
            && Placed(slots', start, |body|) && Total(slots') + slots[at].size == Total(slots)
            && CellsOf(body, slots') == CellsOf(body, slots)[..at] + CellsOf(body, slots)[at + 1..]
  {
    hide Total, CellsOf, Slice;
    var s := slots[at];
    TotalConcat(slots[..at], [s]);
    TotalConcat(slots[..at] + [s], slots[at + 1..]);
    TotalConcat(slots[..at], slots[at + 1..]);
    TotalOne(s);
    assert slots == slots[..at] + [s] + slots[at + 1..];
  }

  /** The slots after repacking the first `n` cells: each below the one before. */
  function Packed(slots: seq<Slot>, n: nat, usable: nat): (r: seq<Slot>)
    requires n <= |slots| && Total(slots) <= usable
    ensures |r| == n
  {
    if n == 0 then [] else
    TotalPrefix(slots, n, n);
    Packed(slots, n - 1, usable) + [Slot(usable - Total(slots[..n]), slots[n - 1].size)]
  }

  lemma TotalNext(slots: seq<Slot>, n: nat)
    requires n < |slots|
    ensures Total(slots[..n + 1]) == Total(slots[..n]) + slots[n].size <= Total(slots)
  {
    TotalPrefix(slots, n + 1, n + 1);
    assert slots[..n + 1][..n] == slots[..n];
  }

  lemma PackedNext(slots: seq<Slot>, n: nat, usable: nat)
    requires n <= |slots| && Total(slots) <= usable
    ensures n == 0 ==> Packed(slots, n, usable) == [] && Total(slots[..0]) == 0
    ensures n < |slots| ==> Total(slots[..n + 1]) <= usable
                            && Packed(slots, n + 1, usable) == Packed(slots, n, usable)
                               + [Slot(usable - Total(slots[..n + 1]), slots[n].size)]
  {
    if n < |slots| { TotalNext(slots, n); }
  }

  lemma {:induction false} PackedAt(slots: seq<Slot>, n: nat, usable: nat, j: nat)
    requires j < n <= |slots| && Total(slots) <= usable
    ensures Total(slots[..j + 1]) <= usable
    ensures Packed(slots, n, usable)[j] == Slot(usable - Total(slots[..j + 1]), slots[j].size)
  {
    TotalPrefix(slots, j + 1, j + 1);
    if j < n - 1 { PackedAt(slots, n - 1, usable, j); }
  }

  lemma PackedPlaced(slots: seq<Slot>, n: nat, usable: nat)
    requires n <= |slots| && Total(slots) <= usable
    ensures Total(slots[..n]) <= usable
    ensures Placed(Packed(slots, n, usable), usable - Total(slots[..n]), usable)
  {
    hide Packed, Total;
    TotalPrefix(slots, n, n);
    var r := Packed(slots, n, usable);
    forall i | 0 <= i < n ensures usable - Total(slots[..n]) <= r[i].off && r[i].off + r[i].size <= usable {
      PackedAt(slots, n, usable, i);
      TotalPrefix(slots, i + 1, n);
      TotalNext(slots, i);
    }
    forall i, j | 0 <= i < j < n ensures Apart(r[i], r[j]) {
      PackedAt(slots, n, usable, i);
      PackedAt(slots, n, usable, j);
      TotalPrefix(slots, i + 1, j);
      TotalNext(slots, j);
    }
  }

  lemma {:induction false} PackedTotal(slots: seq<Slot>, n: nat, usable: nat)
    requires n <= |slots| && Total(slots) <= usable
    ensures Total(Packed(slots, n, usable)) == Total(slots[..n])
  {
    if n > 0 {
      PackedTotal(slots, n - 1, usable);
      TotalNext(slots, n - 1);
    }
  }

  class Node {
    const usable: nat
    const p: array<Byte>
    var slots: seq<Slot>
    var contentStart: nat
    var frag: nat

    /** Cells lie apart from each other and from the slots, and cells and fragments make up all of the body
        from contentStart on. */
    ghost predicate Valid()
      reads this
    {
      && p.Length == usable && HEADER + 2 * |slots| <= contentStart <= usable
      && Placed(slots, contentStart, usable) && Total(slots) + frag == usable - contentStart
    }

    ghost function Cells(): seq<Bytes>
      reads this, p
    {
      CellsOf(p[..], slots)
    }

    constructor (pageSize: nat)
      requires pageSize >= 512
      ensures Valid() && usable == pageSize - 4 && Cells() == [] && frag == 0 && fresh(p)
    {
      usable := pageSize - 4;
      p := new Byte[pageSize - 4](_ => 0);
      slots, contentStart, frag := [], pageSize - 4, 0;
    }

    function FreeSpace(): int reads this { contentStart - (HEADER + 2 * |slots|) }

    predicate Fits(bytes: nat) reads this { FreeSpace() >= bytes + 2 }

    predicate FitsAfterDefrag(bytes: nat) reads this { FreeSpace() + frag >= bytes + 2 }

    /** Together the two tests ask whether the cells, with the new one, can be packed into the page. */
    lemma FitsIsPacking(bytes: nat)
      requires Valid()
      ensures Fits(bytes) || FitsAfterDefrag(bytes) <==> HEADER + Total(slots) + 2 * |slots| + bytes + 2 <= usable
    {
    }

    method InsertCell(at: nat, cell: Bytes)
      requires Valid() && at <= |slots| && Fits(|cell|)
      modifies this, p
      ensures Valid() && Cells() == old(Cells())[..at] + [cell] + old(Cells())[at..]
      ensures frag == old(frag) && Total(slots) == old(Total(slots)) + |cell|
    {
      hide Placed, CellsOf, Total;
      var off := contentStart - |cell|;
      forall i | 0 <= i < |cell| { p[off + i] := cell[i]; }
      assert p[off..off + |cell|] == cell;
      InsertedCells(old(p[..]), p[..], slots, at, Slot(off, |cell|), contentStart);
      InsertedPlaced(slots, at, Slot(off, |cell|), contentStart, usable);
      TotalInserted(slots, at, Slot(off, |cell|));
      slots := slots[..at] + [Slot(off, |cell|)] + slots[at..];
      contentStart := off;
    }

    method RemoveCell(at: nat)
      requires Valid() && at < |slots|
      modifies this
      ensures Valid() && Cells() == old(Cells())[..at] + old(Cells())[at + 1..]
      ensures contentStart == old(contentStart) && frag == old(frag) + old(slots)[at].size
    {
      hide Placed, CellsOf, Total;
      RemovedCells(p[..], slots, at, contentStart);
      frag := frag + slots[at].size;
      slots := slots[..at] + slots[at + 1..];
    }

    /** Moves all cells together, leaving no fragment between them and changing none. */
    method Defragment()
      requires Valid()
      modifies this, p
      ensures Valid() && Cells() == old(Cells()) && frag == 0
    {
      hide CellsOf, Total, Packed, Slice;
      var scratch := new Byte[usable](_ => 0);
      ghost var body := p[..];
      var off, i, packed: seq<Slot> := usable, 0, [];
      PackedNext(slots, 0, usable);
      while i < |slots|
        modifies scratch
        invariant 0 <= i <= |slots| && packed == Packed(slots, i, usable) && off + Total(slots[..i]) == usable
        invariant forall j :: 0 <= j < i ==> Slice(scratch[..], packed[j]) == Slice(body, slots[j])
      {
        TotalNext(slots, i);
        PackedPlaced(slots, i, usable);
        PackedNext(slots, i, usable);
        ghost var kept := scratch[..];
        off := off - slots[i].size;
        CopyCell(scratch, off, slots[i]);
        assert p[..] == body;
        forall j | 0 <= j < i ensures Slice(scratch[..], packed[j]) == Slice(body, slots[j]) {
          SliceSame(kept, scratch[..], packed[j]);
        }
        packed := packed + [Slot(off, slots[i].size)];
        i := i + 1;
      }
      assert slots[..i] == slots;
      PackedPlaced(slots, i, usable);
      PackedTotal(slots, i, usable);
      ghost var made := scratch[..];
      forall x | off <= x < usable { p[x] := scratch[x]; }
      forall j | 0 <= j < |packed| ensures Slice(p[..], packed[j]) == Slice(body, slots[j]) {
        SliceSame(made, p[..], packed[j]);
      }
      assert CellsOf(p[..], packed) == CellsOf(body, slots);
      slots, contentStart, frag := packed, off, 0;
    }

    method CopyCell(to: array<Byte>, off: nat, s: Slot)
      requires to != p && s.off + s.size <= p.Length && off + s.size <= to.Length
      modifies to
      ensures Slice(to[..], Slot(off, s.size)) == Slice(p[..], s)
      ensures forall x :: 0 <= x < to.Length && !(off <= x < off + s.size) ==> to[x] == old(to[x])
    {
      forall x | 0 <= x < s.size { to[off + x] := p[s.off + x]; }
      assert to[..][off..off + s.size] == p[..][s.off..s.off + s.size];
    }
  }
}
