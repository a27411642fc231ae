/** The entries of leaves and the overflow chains behind them (engine/src/engine/btree.cpp). */
module TreeValues {
  import opened PageFormat
  import opened KeyOrder
  import opened Pager
  import opened TreeShape
  import opened TreeMoves

  // ----- one entry goes into a leaf, or out of it

  lemma InsertedSorted(es: seq<Entry>, slot: nat, e: Entry)
    requires SortedEntries(es) && slot <= |es|
    requires forall i :: 0 <= i < slot ==> Pos(es[i].key) < Pos(e.key)
    requires forall i :: slot <= i < |es| ==> Pos(e.key) < Pos(es[i].key)
    ensures SortedEntries(es[..slot] + [e] + es[slot..])
  {
    hide Pos;
    var r := es[..slot] + [e] + es[slot..];
    forall i, j | 0 <= i < j < |r| ensures Pos(r[i].key) < Pos(r[j].key) {
      if i < slot && j > slot { assert Pos(es[i].key) < Pos(es[j - 1].key); }
      if i > slot { assert Pos(es[i - 1].key) < Pos(es[j - 1].key); }
    }
  }

  /** A new key goes into leaf `p` at `slot`. */
  datatype EntryInsert = EntryInsert(pages: Pages, sh: Shape, root: PageNo, p: PageNo, slot: nat, e: Entry)
  {
    ghost predicate Sites() { IsLeaf(pages, sh, p) && slot <= |pages[p].entries| && e.key !in sh.home }

    ghost predicate Can() {
      && Shaped(pages, sh, root) && Sites()
      && sh.nodes[p].lo <= Pos(e.key) < sh.nodes[p].hi
      && (forall i :: 0 <= i < slot ==> Pos(pages[p].entries[i].key) < Pos(e.key))
      && (forall i :: slot <= i < |pages[p].entries| ==> Pos(e.key) < Pos(pages[p].entries[i].key))
    }

    ghost function Leaf'(): Content
      requires Sites()
    {
      var n := pages[p];
      Leaf(n.entries[..slot] + [e] + n.entries[slot..], n.prev, n.next)
    }

    ghost function Pages'(): Pages requires Sites() { pages[p := Leaf'()] }

    ghost function Shape'(): Shape
      requires Sites()
    {
      sh.(home := sh.home[e.key := p], cells := sh.cells[e.key := e.stored])
    }

    lemma AtLeaf()
      requires Can()
      ensures LeafOk(Shape'(), p, Leaf'())
    {
      hide Pos, Shaped, SortedEntries;
      NodeAt(pages, sh, root, p);
      var n := pages[p];
      InsertedSorted(n.entries, slot, e);
      forall i | 0 <= i < |Leaf'().entries| ensures EntryOk(Shape'(), p, Leaf'().entries[i]) {
        if i < slot { assert EntryOk(sh, p, n.entries[i]); }
        if i > slot { assert EntryOk(sh, p, n.entries[i - 1]); }
      }
    }

    lemma Node(q: PageNo)
      requires Can() && q in sh.nodes
      ensures NodeOk(Pages'(), Shape'(), q)
    {
      hide Pos, LeafOk, InteriorOk, Shaped;
      NodeAt(pages, sh, root, q);
      if q == p {
        AtLeaf();
      } else if pages[q].Interior? {
        InteriorFrame(sh, Shape'(), q, pages[q]);
      } else {
        LeafFrame(sh, Shape'(), q, pages[q], pages[q]);
      }
    }

    lemma KeyStays(k: Key)
      requires Can() && k in Shape'().home
      ensures KeyOk(Pages'(), Shape'(), k)
    {
      hide Pos, Shaped;
      if k == e.key {
        assert Leaf'().entries[slot].key == k;
      } else {
        var i := KeyAt(pages, sh, root, k);
        assert Pages'()[sh.home[k]].entries[if sh.home[k] == p && i >= slot then i + 1 else i].key == k;
      }
    }

    lemma Keeps()
      requires Can()
      ensures Shaped(Pages'(), Shape'(), root)
    {
      hide Pos, NodeOk, KeyOk, LeavesApart;
      forall q | q in sh.nodes ensures NodeOk(Pages'(), Shape'(), q) { Node(q); }
      forall q | q in sh.nodes && q != root ensures ParentOk(Pages'(), Shape'(), q) { assert ParentOk(pages, sh, q); }
      forall k | k in Shape'().home ensures KeyOk(Pages'(), Shape'(), k) { KeyStays(k); }
      ApartFrame(pages, sh, Pages'(), Shape'());
    }
  }

  /** The entry at `slot` of leaf `p` goes out. */
  datatype EntryRemove = EntryRemove(pages: Pages, sh: Shape, root: PageNo, p: PageNo, slot: nat)
  {
    ghost predicate Sites() { IsLeaf(pages, sh, p) && slot < |pages[p].entries| }

    ghost predicate Can() { Shaped(pages, sh, root) && Sites() }

    ghost function Key(): KeyOrder.Key requires Sites() { pages[p].entries[slot].key }

    ghost function Leaf'(): Content
      requires Sites()
    {
      var n := pages[p];
      Leaf(n.entries[..slot] + n.entries[slot + 1..], n.prev, n.next)
    }

    ghost function Pages'(): Pages requires Sites() { pages[p := Leaf'()] }

    ghost function Shape'(): Shape
      requires Sites()
    {
      sh.(home := sh.home - {Key()}, cells := sh.cells - {Key()})
    }

    /** The key is in this place and no other. */
    lemma Place()
      requires Can()
      ensures Key() in sh.home && sh.home[Key()] == p && Key() in sh.cells
      ensures sh.cells[Key()] == pages[p].entries[slot].stored
      ensures forall i :: 0 <= i < |pages[p].entries| && i != slot ==> pages[p].entries[i].key != Key()
    {
      hide Pos, Shaped;
      NodeAt(pages, sh, root, p);
      assert EntryOk(sh, p, pages[p].entries[slot]);
    }

    lemma AtLeaf()
      requires Can()
      ensures LeafOk(Shape'(), p, Leaf'())
    {
      hide Pos, Shaped;
      NodeAt(pages, sh, root, p);
      Place();
      var n := pages[p];
      forall i | 0 <= i < |Leaf'().entries| ensures EntryOk(Shape'(), p, Leaf'().entries[i]) {
        assert EntryOk(sh, p, n.entries[if i < slot then i else i + 1]);
      }
    }

    lemma Node(q: PageNo)
      requires Can() && q in sh.nodes
      ensures NodeOk(Pages'(), Shape'(), q)
    {
      hide Pos, LeafOk, InteriorOk, Shaped;
      NodeAt(pages, sh, root, q);
      Place();
      if q == p {
        AtLeaf();
      } else if pages[q].Interior? {
        InteriorFrame(sh, Shape'(), q, pages[q]);
      } else {
        LeafFrame(sh, Shape'(), q, pages[q], pages[q]);
      }
    }

    lemma KeyStays(k: KeyOrder.Key)
      requires Can() && k in Shape'().home
      ensures KeyOk(Pages'(), Shape'(), k)
    {
      hide Pos, Shaped;
      var i := KeyAt(pages, sh, root, k);
      assert Pages'()[sh.home[k]].entries[if sh.home[k] == p && i > slot then i - 1 else i].key == k;
    }

    lemma Keeps()
      requires Can()
      ensures Shaped(Pages'(), Shape'(), root)
    {
      hide Pos, NodeOk, KeyOk, LeavesApart;
      forall q | q in sh.nodes ensures NodeOk(Pages'(), Shape'(), q) { Node(q); }
      forall q | q in sh.nodes && q != root ensures ParentOk(Pages'(), Shape'(), q) { assert ParentOk(pages, sh, q); }
      forall k | k in Shape'().home ensures KeyOk(Pages'(), Shape'(), k) { KeyStays(k); }
      ApartFrame(pages, sh, Pages'(), Shape'());
    }
  }
}
