/** The B+tree's operations over the pages of a write transaction
    (engine/src/engine/btree.cpp): search, put, insert_if_absent and erase refine lookup,
    update and removal on a finite map, the root keeps its page number, and every page is
    owned once. */
module MapTree {
  import opened PageFormat
  import opened Disk
  import opened KeyOrder
  import opened Pager
  import opened TreeShape
  import opened TreeMoves
  import opened TreeShrink
  import opened TreeValues
  import opened TreeState
  import opened TreeSteps
  import opened NodeSplit
  import opened NodeFits

  ghost predicate Covers(sh: Shape, p: PageNo, key: Key) {
    p in sh.nodes && sh.nodes[p].lo <= Pos(key) < sh.nodes[p].hi
  }

  /** `slot` is the place of `key` among `es`. */
  ghost predicate LowerAt(es: seq<Entry>, key: Key, slot: nat) {
    && slot <= |es|
    && (forall i :: 0 <= i < slot ==> Pos(es[i].key) < Pos(key))
    && (forall i :: slot <= i < |es| ==> Pos(key) <= Pos(es[i].key))
  }

  predicate IsAt(es: seq<Entry>, key: Key, slot: nat) { slot < |es| && es[slot].key == key }

  /** Node::lower_bound. */
  method LowerBound(es: seq<Entry>, key: Key) returns (lo: nat)
    requires SortedEntries(es)
    ensures LowerAt(es, key, lo)
    ensures HasKey(es, key) <==> IsAt(es, key, lo)
  {
    hide Pos;
    lo := 0;
    var hi := |es|;
    while lo < hi
      invariant 0 <= lo <= hi <= |es|
      invariant forall i :: 0 <= i < lo ==> Pos(es[i].key) < Pos(key)
      invariant forall i :: hi <= i < |es| ==> Pos(key) <= Pos(es[i].key)
    {
      var mid := (lo + hi) / 2;
      ComparePos(es[mid].key, key);
      if Compare(es[mid].key, key) < 0 { lo := mid + 1; } else { hi := mid; }
    }
    if lo < |es| && es[lo].key != key {
      ComparePos(es[lo].key, key);
      assert Pos(es[lo].key) > Pos(key);
    }
  }

  /** find_leaf's step: the first separator above the key. */
  method DescendSlot(n: Content, key: Key) returns (lo: nat)
    requires n.Interior? && forall i, j :: 0 <= i < j < |n.branches| ==> Pos(n.branches[i].key) < Pos(n.branches[j].key)
    ensures lo <= |n.branches|
    ensures forall i :: 0 <= i < lo ==> Pos(n.branches[i].key) <= Pos(key)
    ensures forall i :: lo <= i < |n.branches| ==> Pos(key) < Pos(n.branches[i].key)
  {
    hide Pos;
    lo := 0;
    var hi := |n.branches|;
    while lo < hi
      invariant 0 <= lo <= hi <= |n.branches|
      invariant forall i :: 0 <= i < lo ==> Pos(n.branches[i].key) <= Pos(key)
      invariant forall i :: hi <= i < |n.branches| ==> Pos(key) < Pos(n.branches[i].key)
    {
      var mid := (lo + hi) / 2;
      ComparePos(n.branches[mid].key, key);
      if Compare(n.branches[mid].key, key) <= 0 { lo := mid + 1; } else { hi := mid; }
    }
  }

  /** The child between the separators around a key covers it. */
  lemma ChildCovers(pages: Pages, sh: Shape, root: PageNo, p: PageNo, key: Key, slot: nat)
    requires Shaped(pages, sh, root) && IsInterior(pages, sh, p) && Covers(sh, p, key) && slot <= |pages[p].branches|
    requires forall i :: 0 <= i < slot ==> Pos(pages[p].branches[i].key) <= Pos(key)
    requires forall i :: slot <= i < |pages[p].branches| ==> Pos(key) < Pos(pages[p].branches[i].key)
    ensures Covers(sh, Child(pages[p], slot), key) && Under(pages, sh, Child(pages[p], slot), p, slot)
    ensures Child(pages[p], slot) in sh.nodes && sh.nodes[Child(pages[p], slot)].level < sh.nodes[p].level
  {
    hide Pos, Shaped;
    NodeAt(pages, sh, root, p);
    assert ChildOk(sh, p, pages[p], slot);
  }

  ghost predicate Owned(live: set<PageNo>, view: Pages, t: Tree, out: Pages, gone: set<PageNo>) {
    && live == out.Keys + (t.Footprint() - gone) && out.Keys !! t.Footprint()
    && forall p :: p in out ==> p in view && view[p] == out[p]
  }

  lemma OwnedPage(live: set<PageNo>, view: Pages, t: Tree, out: Pages, p: PageNo)
    requires Owned(live, view, t, out, {})
    ensures p in t.Footprint() ==> p in live && p !in out
    ensures p !in live ==> p !in t.Footprint() && p !in out
  {
  }

  /** Pages taken into use became the tree's, and only pages of the tree were written. */
  lemma OwnedMore(live: set<PageNo>, view: Pages, t: Tree, out: Pages, live': set<PageNo>, view': Pages, t': Tree,
                  taken: set<PageNo>)
    requires Owned(live, view, t, out, {}) && live' == live + taken && taken !! live
    requires t'.Footprint() == t.Footprint() + taken
    requires forall p :: p in view && p !in t'.Footprint() ==> p in view' && view'[p] == view[p]
    ensures Owned(live', view', t', out, {})
  {
  }

  lemma RootWrites(view: Pages, root: PageNo, n: Content, r: PageNo, l: PageNo, left: Content, upper: Content,
                   top: Content)
    ensures view[r := Zeroed][l := Zeroed][l := left][r := upper][root := top]
            == view[root := n][l := left][r := upper][root := top]
  {
  }

  class BTree {
    const txn: WriteTxn
    const root: PageNo
    ghost var t: Tree

    /** Opens the tree that `tree` says is at `root`. */
    constructor (txn: WriteTxn, root: PageNo, ghost tree: Tree)
      ensures this.txn == txn && this.root == root && t == tree
    {
      this.txn, this.root, t := txn, root, tree;
    }

    function Cap(): nat requires txn.pageSize >= 512 { txn.pageSize - 12 }

    ghost predicate Valid()
      reads this, txn
    {
      && txn.pageSize >= 512 && txn.Valid()
      && Good(txn.View(), t, root, Cap()) && Full(txn.View(), t, root, 0)
      && t.Footprint() <= txn.Live()
    }

    /** The pages in use by anything else. */
    ghost function Outside(): Pages
      reads this, txn
    {
      map p | p in txn.View() && p in txn.Live() && p !in t.Footprint() :: txn.View()[p]
    }

    method FindLeaf(key: Key) returns (s: Status, path: seq<Step>, leaf: Content)
      requires txn.Valid() && Shaped(txn.View(), t.sh, root)
      ensures s == Ok && path != [] && PathTo(txn.View(), t.sh, root, path, |path| - 1)
      ensures var last := path[|path| - 1];
              && IsLeaf(txn.View(), t.sh, last.page) && leaf == txn.View()[last.page] && Covers(t.sh, last.page, key)
              && LowerAt(leaf.entries, key, last.slot)
              && (key in t.sh.home <==> IsAt(leaf.entries, key, last.slot))
    {
      hide Pos, Shaped, WriteTxn.Valid, WriteTxn.View, Under, Covers, LowerAt;
      path := [];
      var page := root;
      RootAt(txn.View(), t.sh, root);
      PosRange(key);
      RootCovers(key);
      while true
        invariant Covers(t.sh, page, key) && page in t.sh.nodes
        invariant if path == [] then page == root
                  else PathTo(txn.View(), t.sh, root, path, |path| - 1)
                       && Under(txn.View(), t.sh, page, path[|path| - 1].page, path[|path| - 1].slot)
        decreases t.sh.nodes[page].level
      {
        NodeAt(txn.View(), t.sh, root, page);
        s, leaf := txn.Read(page);
        if leaf.Leaf? {
          var slot := LowerBound(leaf.entries, key);
          CoveringLeaf(page, key);
          path := path + [Step(page, slot)];
          return;
        }
        var slot := DescendSlot(leaf, key);
        ChildCovers(txn.View(), t.sh, root, page, key, slot);
        path := path + [Step(page, slot)];
        page := Child(leaf, slot);
      }
    }

    lemma RootCovers(key: Key)
      requires root in t.sh.nodes && t.sh.nodes[root].lo == 0.0 && t.sh.nodes[root].hi == 1.0
      ensures Covers(t.sh, root, key)
    {
      PosRange(key);
    }

    lemma CoveringLeaf(p: PageNo, key: Key)
      requires Shaped(txn.View(), t.sh, root) && IsLeaf(txn.View(), t.sh, p) && Covers(t.sh, p, key)
      ensures SortedEntries(txn.View()[p].entries)
      ensures key in t.sh.home <==> HasKey(txn.View()[p].entries, key)
    {
      HomeIsCovering(txn.View(), t.sh, root, p, key);
      NodeAt(txn.View(), t.sh, root, p);
    }

    // ----- overflow chains

    /** read_overflow, with its guards against chains that end early or run on. */
    method ReadOverflow(first: PageNo, total: nat, ghost chain: seq<PageNo>, ghost v: Bytes)
      returns (s: Status, out: Bytes)
      requires txn.pageSize >= 512 && txn.Valid()
      requires ChainIs(txn.View(), chain, v, Cap()) && first == At(chain, 0) && total == |v|
      ensures s == Ok && out == v
    {
      hide WriteTxn.Valid, WriteTxn.View, ChainIs, Head, Rest;
      out := [];
      var page, remaining, hops := first, total, 0;
      ghost var rest, left, eaten := chain, v, 0;
      while remaining > 0
        invariant ChainIs(txn.View(), rest, left, Cap()) && page == At(rest, 0) && remaining == |left|
        invariant out + left == v
        invariant eaten == hops * Cap() && (remaining > 0 ==> eaten + remaining == total)
      {
        ChainStep(txn.View(), rest, left, Cap());
        HopsBound(hops, Cap(), total);
        if page == 0 { assert false; }
        hops := hops + 1;
        if hops > total / Cap() + 2 { assert false; }
        var c;
        s, c := txn.Read(page);
        var len := if Cap() < remaining then Cap() else remaining;
        out := out + c.body[..len];
        remaining := remaining - len;
        page := c.next;
        rest, left, eaten := rest[1..], Rest(left, Cap()), eaten + Cap();
      }
      s := Ok;
    }

    method FreeOverflow(first: PageNo, ghost chain: seq<PageNo>, ghost v: Bytes) returns (s: Status)
      requires txn.pageSize >= 512 && txn.Valid() && ChainIs(txn.View(), chain, v, Cap()) && first == At(chain, 0)
      requires NoRepeats(chain) && forall p :: p in chain ==> p in txn.Live()
      modifies txn
      ensures txn.Valid() && s == Ok && txn.Live() == old(txn.Live()) - Elements(chain)
      ensures forall p :: p in old(txn.View()) && p !in chain ==> p in txn.View() && txn.View()[p] == old(txn.View()[p])
    {
      hide WriteTxn.Valid, WriteTxn.Live, WriteTxn.View, ChainIs;
      var page := first;
      ghost var i, left := 0, v;
      if v == [] { ChainEmpty(txn.View(), chain, v, Cap()); }
      txn.LiveInView();
      assert 0 !in chain;
      while page != 0
        invariant i <= |chain| && page == At(chain, i) && txn.Valid() && (left == [] ==> i == |chain|)
        invariant ChainIs(txn.View(), chain[i..], left, Cap())
        invariant txn.Live() == old(txn.Live()) - Elements(chain[..i])
        invariant forall p :: p in old(txn.View()) && p !in chain[..i] ==>
                    p in txn.View() && txn.View()[p] == old(txn.View()[p])
        decreases |chain| - i
      {
        var c;
        ChainStep(txn.View(), chain[i..], left, Cap());
        s, c := txn.Read(page);
        ghost var before := txn.View();
        assert page in chain && page !in chain[..i];
        s := txn.FreePage(page);
        assert chain[i..][1..] == chain[i + 1..] && chain[..i + 1] == chain[..i] + [page];
        ChainInPages(before, chain[i + 1..], Rest(left, Cap()), Cap());
        ChainFrame(before, txn.View(), chain[i + 1..], Rest(left, Cap()), Cap());
        i, left := i + 1, Rest(left, Cap());
        page := c.next;
        if left == [] { ChainEmpty(txn.View(), chain[i..], left, Cap()); }
      }
      assert chain[..i] == chain;
      s := Ok;
    }

    method AllocatePages(n: nat) returns (s: Status, pages: seq<PageNo>)
      requires txn.Valid()
      modifies txn
      ensures txn.Valid() && s == Ok && |pages| == n && NoRepeats(pages)
      ensures forall p :: p in pages ==> p !in old(txn.Live()) && p in txn.Live() && p != 0
      ensures txn.Live() == old(txn.Live()) + Elements(pages)
      ensures forall p :: p in old(txn.Live()) ==> p in txn.View() && txn.View()[p] == old(txn.View()[p])
    {
      hide WriteTxn.Valid, WriteTxn.Live, WriteTxn.View;
      txn.LiveInView();
      pages, s := [], Ok;
      while |pages| < n
        invariant |pages| <= n && txn.Valid() && NoRepeats(pages) && s == Ok
        invariant forall p :: p in pages ==> p !in old(txn.Live()) && p in txn.Live() && p != 0
        invariant txn.Live() == old(txn.Live()) + Elements(pages)
        invariant forall p :: p in old(txn.Live()) ==> p in txn.View() && txn.View()[p] == old(txn.View()[p])
      {
        var p;
        s, p := txn.Allocate();
        assert Elements(pages + [p]) == Elements(pages) + {p};
        pages := pages + [p];
      }
    }

    /** Write_overflow: all pages first, then their bytes. */
    method WriteOverflow(value: Bytes) returns (s: Status, first: PageNo, ghost chain: seq<PageNo>)
      requires txn.pageSize >= 512 && txn.Valid()
      modifies txn
      ensures txn.Valid() && s == Ok && first == At(chain, 0)
      ensures NoRepeats(chain) && ChainIs(txn.View(), chain, value, Cap())
      ensures forall p :: p in chain ==> p !in old(txn.Live()) && p != 0
      ensures txn.Live() == old(txn.Live()) + Elements(chain)
      ensures forall p :: p in old(txn.Live()) ==> p in txn.View() && txn.View()[p] == old(txn.View()[p])
    {
      hide WriteTxn.Valid, WriteTxn.Live, WriteTxn.View, ChainIs, Head, Suffix, Padded, Elements, NoRepeats;
      var n := (|value| + Cap() - 1) / Cap();
      var pages;
      s, pages := AllocatePages(n);
      chain := pages;
      ghost var live, view := txn.Live(), txn.View();
      var i, rest := 0, value;
      SuffixStart(value, Cap());
      while i < n
        invariant i <= n && txn.Valid() && rest == Suffix(value, i, Cap()) && txn.Live() == live
        invariant forall p :: p in view && p !in pages ==> p in txn.View() && txn.View()[p] == view[p]
        invariant forall j :: 0 <= j < i ==>
          pages[j] in txn.View()
            && txn.View()[pages[j]] == Overflow(At(pages, j + 1), Padded(Head(Suffix(value, j, Cap()), Cap()), Cap()))
      {
        PaddedFull(rest, Cap());
        s := txn.Write(pages[i], Overflow(if i + 1 < n then pages[i + 1] else 0, Padded(Head(rest, Cap()), Cap())));
        Unrepeated(pages, i);
        SuffixNext(value, i, Cap());
        rest := Rest(rest, Cap());
        i := i + 1;
      }
      ChainBuilt(txn.View(), chain, value, Cap(), 0);
      assert chain[0..] == chain;
      s, first := Ok, if pages == [] then 0 else pages[0];
    }

    // ----- search

    /** Get agrees with the map on every key. */
    method Get(key: Key) returns (s: Status, value: Option<Bytes>)
      requires Valid()
      ensures s == Ok && value == if key in t.Map() then Some(t.Map()[key]) else None
    {
      hide Pos, Shaped, WriteTxn.Valid, WriteTxn.View, WriteTxn.Live, LowerAt, Covers, PathTo, ChainIs, Full;
      var path, leaf;
      s, path, leaf := FindLeaf(key);
      var slot := path[|path| - 1].slot;
      HomesAreCells(txn.View(), t.sh, root);
      if slot >= |leaf.entries| || Compare(leaf.entries[slot].key, key) != 0 {
        if slot < |leaf.entries| { ComparePos(leaf.entries[slot].key, key); }
        return Ok, None;
      }
      ComparePos(leaf.entries[slot].key, key);
      RemovedIsGood(txn.View(), t, root, Cap(), path[|path| - 1].page, slot);
      match leaf.entries[slot].stored
      case Inline(bytes) =>
        value := Some(bytes);
      case Spilled(first, total) =>
        var v;
        s, v := ReadOverflow(first, total, t.vals.chains[key], t.vals.values[key]);
        value := Some(v);
    }

    // ----- one entry out, one entry in

    /** What is in use is `out`, as it was, and the tree's own pages but for those `gone`. */
    ghost predicate Owns(tree: Tree, out: Pages, gone: set<PageNo>)
      reads txn
    {
      Owned(txn.Live(), txn.View(), tree, out, gone)
    }

    /** The entry at `slot` goes, with its overflow pages. The leaf itself is not written yet. */
    method RemoveEntry(p: PageNo, leaf: Content, slot: nat, ghost out: Pages) returns (s: Status, leaf': Content)
      requires txn.pageSize >= 512 && txn.Valid() && Good(txn.View(), t, root, Cap()) && Owns(t, out, {})
      requires IsLeaf(txn.View(), t.sh, p) && leaf == txn.View()[p] && slot < |leaf.entries|
      modifies this`t, txn
      ensures txn.Valid() && s == Ok && Owns(t, out, {})
      ensures leaf' == Leaf(leaf.entries[..slot] + leaf.entries[slot + 1..], leaf.prev, leaf.next)
      ensures Good(txn.View()[p := leaf'], t, root, Cap()) && leaf.entries[slot].key !in t.sh.home
      ensures t.sh.nodes == old(t.sh.nodes) && t.Map() == old(t.Map()) - {leaf.entries[slot].key}
      ensures forall q :: q in t.sh.nodes ==> q in txn.View() && txn.View()[q] == old(txn.View()[q])
    {
      hide Good, Removed, WriteTxn.Valid, WriteTxn.View, WriteTxn.Live, ChainIs;
      ghost var before, key := txn.View(), leaf.entries[slot].key;
      RemovedIsGood(before, t, root, Cap(), p, slot);
      ghost var chain := t.vals.chains[key];
      leaf' := Leaf(leaf.entries[..slot] + leaf.entries[slot + 1..], leaf.prev, leaf.next);
      s := Ok;
      FootprintInPages(before, t, root, Cap());
      if leaf.entries[slot].stored.Spilled? {
        assert forall q :: q in chain ==> q in Elements(chain);
        s := FreeOverflow(leaf.entries[slot].stored.first, chain, t.vals.values[key]);
      }
      ghost var tree := Removed(before, t, root, p, slot);
      FootprintInPages(before[p := leaf'], tree, root, Cap());
      GoodFrame(before[p := leaf'], txn.View()[p := leaf'], tree, root, Cap());
      t := tree;
    }

    /** A value goes into its cell, or to overflow pages if the cell would be too large. */
    method StoreValue(key: Key, value: Bytes) returns (s: Status, stored: Stored, ghost chain: seq<PageNo>)
      requires txn.pageSize >= 512 && |key| <= MaxKey(txn.pageSize) && txn.Valid()
      modifies txn
      ensures txn.Valid() && s == Ok && EntryBytes(Entry(key, stored)) <= MaxCell(txn.pageSize)
      ensures StoredOk(txn.View(), stored, chain, value, Cap()) && NoRepeats(chain)
      ensures forall p :: p in chain ==> p !in old(txn.Live()) && p != 0
      ensures txn.Live() == old(txn.Live()) + Elements(chain)
      ensures forall p :: p in old(txn.Live()) ==> p in txn.View() && txn.View()[p] == old(txn.View()[p])
    {
      hide WriteTxn.Valid, WriteTxn.View, WriteTxn.Live, ChainIs;
      txn.LiveInView();
      if 7 + |key| + |value| > MaxCell(txn.pageSize) {
        var first;
        s, first, chain := WriteOverflow(value);
        stored := Spilled(first, |value|);
      } else {
        s, stored, chain := Ok, Inline(value), [];
      }
    }

    /** A new entry at its place in the leaf. The leaf itself is not written yet. */
    method InsertEntry(p: PageNo, leaf: Content, slot: nat, key: Key, value: Bytes, ghost out: Pages)
      returns (s: Status, leaf': Content)
      requires txn.pageSize >= 512 && 1 <= |key| <= MaxKey(txn.pageSize) && |key| <= txn.longest
      requires Holds(leaf, txn.pageSize, txn.longest)
      requires txn.Valid() && p in t.sh.nodes && leaf.Leaf? && Good(txn.View()[p := leaf], t, root, Cap())
      requires Owns(t, out, {})
      requires slot <= |leaf.entries| && LowerAt(leaf.entries, key, slot) && Covers(t.sh, p, key) && key !in t.sh.home
      modifies this`t, txn
      ensures txn.Valid() && s == Ok && Owns(t, out, {})
      ensures leaf'.Leaf? && Filling(leaf'.entries, slot, txn.pageSize, txn.longest)
      ensures Good(txn.View()[p := leaf'], t, root, Cap())
      ensures t.sh.nodes == old(t.sh.nodes) && t.Map() == old(t.Map())[key := value]
      ensures forall q :: q in t.sh.nodes && q != p ==> q in txn.View() && txn.View()[q] == old(txn.View())[q]
    {
      hide Pos, Good, WriteTxn.Valid, WriteTxn.View, WriteTxn.Live, Covers, LowerAt, StoredOk, NoRepeats;
      ghost var before := txn.View();
      FootprintInPages(before[p := leaf], t, root, Cap());
      txn.LiveInView();
      var stored;
      ghost var chain;
      s, stored, chain := StoreValue(key, value);
      var e := Entry(key, stored);
      leaf' := Leaf(leaf.entries[..slot] + [e] + leaf.entries[slot..], leaf.prev, leaf.next);
      EntryAdded(leaf.entries, slot, e, leaf.prev, leaf.next, txn.pageSize, txn.longest);
      t := InsertedTree(before, txn.View(), p, leaf, slot, e, value, chain);
    }

    /** The tree after a new entry, its value stored in pages that were in no use. */
    lemma InsertedTree(before: Pages, after: Pages, p: PageNo, leaf: Content, slot: nat, e: Entry, value: Bytes,
                       chain: seq<PageNo>)
      returns (t': Tree)
      requires txn.pageSize >= 512 && p in t.sh.nodes && leaf.Leaf? && Good(before[p := leaf], t, root, Cap())
      requires slot <= |leaf.entries| && LowerAt(leaf.entries, e.key, slot) && Covers(t.sh, p, e.key)
      requires e.key !in t.sh.home
      requires StoredOk(after, e.stored, chain, value, Cap()) && NoRepeats(chain)
      requires forall q :: q in chain ==> q != 0 && q !in t.Footprint()
      requires forall q :: q in t.Footprint() ==> q in before && q in after && after[q] == before[q]
      ensures Good(after[p := Leaf(leaf.entries[..slot] + [e] + leaf.entries[slot..], leaf.prev, leaf.next)], t', root,
                   Cap())
      ensures t'.sh.nodes == t.sh.nodes && t'.Map() == t.Map()[e.key := value]
      ensures t'.Footprint() == t.Footprint() + Elements(chain)
    {
      hide Pos, Shaped, ValuesOk, ChainIs, LowerAt, Covers, NoRepeats;
      var pages := after[p := leaf];
      GoodFrame(before[p := leaf], pages, t, root, Cap());
      EntryFits(pages, p, slot, e);
      assert p in t.Footprint();
      if e.stored.Spilled? { ChainFrameAt(after, p, leaf, chain, value); }
      ExtendedIsGood(pages, t, root, Cap(), p, slot, e, value, chain);
      t' := Extended(pages, t, root, p, slot, e, value, chain);
      var leaf' := Leaf(leaf.entries[..slot] + [e] + leaf.entries[slot..], leaf.prev, leaf.next);
      assert pages[p := leaf'] == after[p := leaf'];
    }

    lemma EntryFits(pages: Pages, p: PageNo, slot: nat, e: Entry)
      requires Shaped(pages, t.sh, root) && IsLeaf(pages, t.sh, p) && LowerAt(pages[p].entries, e.key, slot)
      requires Covers(t.sh, p, e.key) && e.key !in t.sh.home
      ensures EntryInsert(pages, t.sh, root, p, slot, e).Can()
    {
      HomeIsCovering(pages, t.sh, root, p, e.key);
      forall i | slot <= i < |pages[p].entries| ensures Pos(e.key) < Pos(pages[p].entries[i].key) {
        if Pos(e.key) == Pos(pages[p].entries[i].key) { PosInjective(e.key, pages[p].entries[i].key); }
      }
    }

    lemma ChainFrameAt(pages: Pages, p: PageNo, leaf: Content, chain: seq<PageNo>, v: Bytes)
      requires txn.pageSize >= 512 && ChainIs(pages, chain, v, Cap()) && p !in chain
      ensures ChainIs(pages[p := leaf], chain, v, Cap())
    {
      ChainInPages(pages, chain, v, Cap());
      ChainFrame(pages, pages[p := leaf], chain, v, Cap());
    }

    // ----- splits

    /** insert_separator: the child at this slot of the path has split at `sep`, and `right` is its upper half. */
    method InsertSeparator(path: seq<Step>, depth: nat, sep: Key, right: PageNo, ghost out: Pages) returns (s: Status)
      requires 1 <= |sep| <= txn.longest
      requires txn.pageSize >= 512 && txn.Valid() && depth < |path| && Owns(t, out, {})
      requires path[depth].page in t.sh.nodes && path[depth].page in txn.View()
      requires txn.View()[path[depth].page].Interior?
      requires path[depth].slot <= |txn.View()[path[depth].page].branches|
      requires var pages :=
               txn.View()[path[depth].page := Inserted(txn.View()[path[depth].page], path[depth].slot, sep, right)];
               Good(pages, t, root, Cap()) && Full(pages, t, root, 0) && PathTo(pages, t.sh, root, path, depth)
      modifies this`t, txn
      ensures txn.Valid() && s == Ok && Owns(t, out, {})
      ensures Good(txn.View(), t, root, Cap()) && Full(txn.View(), t, root, 0) && t.Map() == old(t.Map())
      decreases depth
    {
      hide Pos, Good, Full, Under, WriteTxn.Valid, WriteTxn.View, WriteTxn.Live, Inserted;
      var n: Content, r: PageNo;
      s, n := txn.Read(path[depth].page);
      var n' := Inserted(n, path[depth].slot, sep, right);
      txn.Held(path[depth].page);
      SeparatorAdded(n, path[depth].slot, sep, right, txn.pageSize, txn.longest);
      if Fits(n', txn.pageSize) {
        s := txn.Write(path[depth].page, n');
        return;
      }
      var m := |n'.branches| / 2;
      NodeDivides(n'.branches, path[depth].slot, txn.pageSize, txn.longest);
      if depth == 0 {
        s := DivideRoot(n', m, out);
      } else {
        s, r := DivideInterior(path, depth, n', m, out);
        s := InsertSeparator(path, depth - 1, n'.branches[m].key, r, out);
      }
    }

    /** The root splits: both halves get new pages, so that it keeps its own. */
    method DivideRoot(n: Content, m: nat, ghost out: Pages) returns (s: Status)
      requires n.Interior? && NodesHold(n.branches, m, txn.pageSize, txn.longest)
      requires txn.pageSize >= 512 && txn.Valid() && root in t.sh.nodes && Owns(t, out, {}) && n.Interior?
      requires m < |n.branches|
      requires Good(txn.View()[root := n], t, root, Cap()) && Full(txn.View()[root := n], t, root, 0)
      modifies this`t, txn
      ensures txn.Valid() && s == Ok && Owns(t, out, {})
      ensures Good(txn.View(), t, root, Cap()) && Full(txn.View(), t, root, 0) && t.Map() == old(t.Map())
    {
      hide Pos, Good, Full, WriteTxn.Valid, WriteTxn.View, WriteTxn.Live, Owned;
      ghost var pages: Pages, view, live := txn.View()[root := n], txn.View(), txn.Live();
      FootprintInPages(pages, t, root, Cap());
      OwnedPage(live, view, t, out, root);
      var left, upper := Interior(n.branches[..m], n.branches[m].child), Interior(n.branches[m + 1..], n.right);
      var r: PageNo, l: PageNo;
      s, r := txn.Allocate();
      s, l := txn.Allocate();
      OwnedPage(live, view, t, out, r);
      OwnedPage(live, view, t, out, l);
      ghost var t' := SplitRoot(pages, t, root, Cap(), m, r, l);
      s := txn.Write(l, left);
      s := txn.Write(r, upper);
      TopHolds(n.branches[m].key, l, r, txn.pageSize, txn.longest);
      s := txn.Write(root, Interior([Branch(n.branches[m].key, l)], r));
      RootWrites(view, root, n, r, l, left, upper, Interior([Branch(n.branches[m].key, l)], r));
      OwnedMore(live, view, t, out, txn.Live(), txn.View(), t', {r, l});
      t := t';
    }

    /** Another interior node splits, and its parent is yet to be told. */
    method DivideInterior(path: seq<Step>, depth: nat, n: Content, m: nat, ghost out: Pages)
      returns (s: Status, r: PageNo)
      requires n.Interior? && NodesHold(n.branches, m, txn.pageSize, txn.longest)
      requires txn.pageSize >= 512 && txn.Valid() && 0 < depth < |path| && Owns(t, out, {}) && n.Interior?
      requires m < |n.branches|
      requires path[depth].page in t.sh.nodes
      requires var pages := txn.View()[path[depth].page := n];
               Good(pages, t, root, Cap()) && Full(pages, t, root, 0) && PathTo(pages, t.sh, root, path, depth)
      modifies this`t, txn
      ensures txn.Valid() && s == Ok && Owns(t, out, {}) && t.Map() == old(t.Map())
      ensures var up, slot := path[depth - 1].page, path[depth - 1].slot;
              && up in txn.View() && txn.View()[up].Interior? && slot <= |txn.View()[up].branches| && up in t.sh.nodes
              && var pages := txn.View()[up := Inserted(txn.View()[up], slot, n.branches[m].key, r)];
                 Good(pages, t, root, Cap()) && Full(pages, t, root, 0) && PathTo(pages, t.sh, root, path, depth - 1)
    {
      hide Pos, Good, Full, Under, WriteTxn.Valid, WriteTxn.View, WriteTxn.Live, Inserted, Owned;
      ghost var page: PageNo, up := path[depth].page, path[depth - 1];
      ghost var pages: Pages, view, live := txn.View()[page := n], txn.View(), txn.Live();
      FootprintInPages(pages, t, root, Cap());
      OwnedPage(live, view, t, out, page);
      var left, upper := Interior(n.branches[..m], n.branches[m].child), Interior(n.branches[m + 1..], n.right);
      s, r := txn.Allocate();
      OwnedPage(live, view, t, out, r);
      ghost var t' := SplitInterior(pages, t, root, Cap(), path, depth, m, r);
      s := txn.Write(path[depth].page, left);
      s := txn.Write(r, upper);
      OwnedMore(live, view, t, out, txn.Live(), txn.View(), t', {r});
      t := t';
      assert txn.View()[up.page := Inserted(txn.View()[up.page], up.slot, n.branches[m].key, r)]
          == pages[page := left][r := upper][up.page := Inserted(pages[up.page], up.slot, n.branches[m].key, r)];
    }

    /** Points the leaf at `next`, if there is one, back at `r`. */
    method RelinkNext(next: PageNo, r: PageNo) returns (s: Status)
      requires txn.Valid() && (next != 0 ==> next in txn.Live() && next in txn.View() && txn.View()[next].Leaf?)
      modifies txn
      ensures txn.Valid() && s == Ok && txn.Live() == old(txn.Live())
      ensures txn.View() == if next == 0 then old(txn.View())
              else old(txn.View())[next := old(txn.View())[next].(prev := r)]
    {
      hide WriteTxn.Valid, WriteTxn.View, WriteTxn.Live;
      s := Ok;
      if next != 0 {
        var n;
        s, n := txn.Read(next);
        txn.Held(next);
        s := txn.Write(next, n.(prev := r));
      }
    }

    method DivideRootLeaf(leaf: Content, at: nat, ghost out: Pages) returns (s: Status)
      requires leaf.Leaf? && LeavesHold(leaf.entries, at, txn.pageSize, txn.longest)
      requires txn.pageSize >= 512 && txn.Valid() && root in t.sh.nodes && Owns(t, out, {}) && leaf.Leaf?
      requires 0 < at < |leaf.entries|
      requires Good(txn.View()[root := leaf], t, root, Cap()) && Full(txn.View()[root := leaf], t, root, 0)
      modifies this`t, txn
      ensures txn.Valid() && s == Ok && Owns(t, out, {})
      ensures Good(txn.View(), t, root, Cap()) && Full(txn.View(), t, root, 0) && t.Map() == old(t.Map())
    {
      hide Pos, Good, Full, WriteTxn.Valid, WriteTxn.View, WriteTxn.Live, Owned;
      ghost var pages: Pages, view, live := txn.View()[root := leaf], txn.View(), txn.Live();
      OwnedPage(live, view, t, out, root);
      var r: PageNo, l: PageNo;
      s, r := txn.Allocate();
      s, l := txn.Allocate();
      OwnedPage(live, view, t, out, r);
      OwnedPage(live, view, t, out, l);
      ghost var t' := SplitRootLeaf(pages, t, root, Cap(), at, r, l);
      var left, upper, top := Leaf(leaf.entries[..at], leaf.prev, r), Leaf(leaf.entries[at..], l, leaf.next),
        Interior([Branch(leaf.entries[at].key, l)], r);
      s := txn.Write(l, left);
      s := txn.Write(r, upper);
      s := RelinkNext(leaf.next, r);
      TopHolds(leaf.entries[at].key, l, r, txn.pageSize, txn.longest);
      s := txn.Write(root, top);
      RootWrites(view, root, leaf, r, l, left, upper, top);
      OwnedMore(live, view, t, out, txn.Live(), txn.View(), t', {r, l});
      t := t';
    }

    method DivideLeaf(path: seq<Step>, leaf: Content, at: nat, ghost out: Pages) returns (s: Status, r: PageNo)
      requires leaf.Leaf? && LeavesHold(leaf.entries, at, txn.pageSize, txn.longest)
      requires txn.pageSize >= 512 && txn.Valid() && |path| > 1 && Owns(t, out, {}) && leaf.Leaf?
      requires 0 < at < |leaf.entries|
      requires path[|path| - 1].page in t.sh.nodes
      requires var pages := txn.View()[path[|path| - 1].page := leaf];
               Good(pages, t, root, Cap()) && Full(pages, t, root, 0) && PathTo(pages, t.sh, root, path, |path| - 1)
      modifies this`t, txn
      ensures txn.Valid() && s == Ok && Owns(t, out, {}) && t.Map() == old(t.Map())
      ensures var up, slot := path[|path| - 2].page, path[|path| - 2].slot;
              && up in txn.View() && txn.View()[up].Interior? && slot <= |txn.View()[up].branches| && up in t.sh.nodes
              && var pages := txn.View()[up := Inserted(txn.View()[up], slot, leaf.entries[at].key, r)];
                 Good(pages, t, root, Cap()) && Full(pages, t, root, 0) && PathTo(pages, t.sh, root, path, |path| - 2)
    {
      hide Pos, Good, Full, Under, WriteTxn.Valid, WriteTxn.View, WriteTxn.Live, Inserted, Owned;
      var p := path[|path| - 1].page;
      ghost var up := path[|path| - 2];
      ghost var pages: Pages, view, live := txn.View()[p := leaf], txn.View(), txn.Live();
      OwnedPage(live, view, t, out, p);
      FootprintInPages(pages, t, root, Cap());
      NextIsLeaf(pages, t, root, Cap(), p);
      OwnedPage(live, view, t, out, leaf.next);
      s, r := txn.Allocate();
      OwnedPage(live, view, t, out, r);
      ghost var t' := SplitLeaf(pages, t, root, Cap(), path, |path| - 1, at, r);
      s := txn.Write(p, Leaf(leaf.entries[..at], leaf.prev, r));
      s := txn.Write(r, Leaf(leaf.entries[at..], p, leaf.next));
      s := RelinkNext(leaf.next, r);
      LeafWrites(view, p, leaf, at, r);
      OwnedMore(live, view, t, out, txn.Live(), txn.View(), t', {r});
      t := t';
    }

    /** The leaf is written if it fits, or else divided by size. */
    method PlaceLeaf(path: seq<Step>, leaf: Content, slot: nat, ghost out: Pages) returns (s: Status)
      requires txn.pageSize >= 512 && txn.Valid() && path != [] && Owns(t, out, {}) && leaf.Leaf?
      requires Filling(leaf.entries, slot, txn.pageSize, txn.longest) && path[|path| - 1].page in t.sh.nodes
      requires var pages := txn.View()[path[|path| - 1].page := leaf];
               Good(pages, t, root, Cap()) && Full(pages, t, root, 0) && PathTo(pages, t.sh, root, path, |path| - 1)
      modifies this`t, txn
      ensures txn.Valid() && s == Ok && Owns(t, out, {})
      ensures Good(txn.View(), t, root, Cap()) && Full(txn.View(), t, root, 0) && t.Map() == old(t.Map())
    {
      hide Pos, Good, Full, Under, WriteTxn.Valid, WriteTxn.View, WriteTxn.Live, Inserted, Owned;
      var p := path[|path| - 1].page;
      if Fits(leaf, txn.pageSize) {
        OwnedPage(txn.Live(), txn.View(), t, out, p);
        ghost var live, view := txn.Live(), txn.View();
        s := txn.Write(p, leaf);
        OwnedMore(live, view, t, out, txn.Live(), txn.View(), t, {});
        return;
      }
      TwoEntries(leaf.entries, slot, txn.pageSize, txn.longest);
      var at := LeafSplitPoint(EntrySizes(leaf.entries), txn.pageSize - 28);
      LeafDivides(leaf.entries, slot, at, txn.pageSize, txn.longest);
      if |path| == 1 {
        s := DivideRootLeaf(leaf, at, out);
      } else {
        var r;
        s, r := DivideLeaf(path, leaf, at, out);
        s := InsertSeparator(path, |path| - 2, leaf.entries[at].key, r, out);
      }
    }

    /** insert_into_leaf. */
    method InsertIntoLeaf(path: seq<Step>, leaf: Content, key: Key, value: Bytes, slot: nat, replace: bool)
      returns (s: Status)
      requires Valid() && 1 <= |key| <= MaxKey(txn.pageSize) && |key| <= txn.longest && path != []
      requires PathTo(txn.View(), t.sh, root, path, |path| - 1)
      requires var p := path[|path| - 1].page;
               && IsLeaf(txn.View(), t.sh, p) && leaf == txn.View()[p] && Covers(t.sh, p, key)
               && LowerAt(leaf.entries, key, slot)
               && (replace <==> IsAt(leaf.entries, key, slot)) && (replace <==> key in t.sh.home)
      modifies this`t, txn
      ensures Valid() && s == Ok && t.Map() == old(t.Map())[key := value] && Outside() == old(Outside())
    {
      hide Pos, Good, Full, WriteTxn.Valid, WriteTxn.View, WriteTxn.Live, Owned, LowerAt, Covers;
      ghost var out := Outside();
      OutsideOwned();
      var p, leaf' := path[|path| - 1].page, leaf;
      LowerWithin(leaf.entries, key, slot);
      ghost var before, was := txn.View(), t;
      FootprintInPages(before, t, root, Cap());
      txn.Held(p);
      if replace {
        EntryGone(leaf.entries, slot, leaf.prev, leaf.next, txn.pageSize, txn.longest);
        s, leaf' := RemoveEntry(p, leaf, slot, out);
        LowerRemoved(leaf.entries, key, slot);
      }
      assert before[p := leaf] == before;
      assert Covers(t.sh, p, key) by { CoversSame(was.sh, t.sh, p, key); }
      s, leaf' := InsertEntry(p, leaf', slot, key, value, out);
      PathSame(before, was.sh, root, txn.View()[p := leaf'], t.sh, path, p);
      FullSame(before, was, p, leaf');
      s := PlaceLeaf(path, leaf', slot, out);
      OwnedOutside(out);
    }

    lemma OutsideOwned()
      requires Valid()
      ensures Owns(t, Outside(), {})
    {
      txn.LiveInView();
    }

    lemma OwnedOutside(out: Pages)
      requires Owns(t, out, {}) && txn.Valid()
      ensures out == Outside() && t.Footprint() <= txn.Live()
    {
    }

    lemma FullSame(before: Pages, was: Tree, p: PageNo, leaf: Content)
      requires was.sh.nodes == t.sh.nodes && Full(before, was, root, 0) && leaf.Leaf? && leaf.entries != []
      requires forall q :: q in t.sh.nodes && q != p ==> q in before && q in txn.View() && txn.View()[q] == before[q]
      ensures Full(txn.View()[p := leaf], t, root, 0)
    {
    }

    // ----- put

    predicate GoodKey(key: Key) requires txn.pageSize >= 512 { 1 <= |key| <= MaxKey(txn.pageSize) }

    /** Inserts or replaces. */
    method Put(key: Key, value: Bytes) returns (s: Status)
      requires Valid() && (GoodKey(key) ==> |key| <= txn.longest)
      modifies this`t, txn
      ensures Valid() && Outside() == old(Outside())
      ensures s == if GoodKey(key) then Ok else Invalid
      ensures t.Map() == if s == Ok then old(t.Map())[key := value] else old(t.Map())
    {
      hide Pos, Shaped, Valid, Outside, WriteTxn.Valid, WriteTxn.View, LowerAt, Covers, PathTo;
      GoodShape();
      if key == [] || |key| > MaxKey(txn.pageSize) { return Invalid; }
      var path, leaf;
      s, path, leaf := FindLeaf(key);
      var slot := path[|path| - 1].slot;
      if slot < |leaf.entries| { ComparePos(leaf.entries[slot].key, key); }
      var exists_ := slot < |leaf.entries| && Compare(leaf.entries[slot].key, key) == 0;
      s := InsertIntoLeaf(path, leaf, key, value, slot, exists_);
    }

    /** Inserts only if absent. */
    method InsertIfAbsent(key: Key, value: Bytes) returns (s: Status, inserted: bool)
      requires Valid() && (GoodKey(key) ==> |key| <= txn.longest)
      modifies this`t, txn
      ensures Valid() && Outside() == old(Outside())
      ensures s == if GoodKey(key) then Ok else Invalid
      ensures inserted <==> s == Ok && key !in old(t.Map())
      ensures t.Map() == if inserted then old(t.Map())[key := value] else old(t.Map())
    {
      hide Pos, Shaped, Valid, Outside, WriteTxn.Valid, WriteTxn.View, LowerAt, Covers, PathTo;
      GoodShape();
      inserted := false;
      if key == [] || |key| > MaxKey(txn.pageSize) { return Invalid, false; }
      var path, leaf;
      s, path, leaf := FindLeaf(key);
      var slot := path[|path| - 1].slot;
      if slot < |leaf.entries| { ComparePos(leaf.entries[slot].key, key); }
      if slot < |leaf.entries| && Compare(leaf.entries[slot].key, key) == 0 { return Ok, false; }
      inserted := true;
      s := InsertIntoLeaf(path, leaf, key, value, slot, false);
    }

    lemma GoodShape()
      requires Valid()
      ensures txn.pageSize >= 512 && txn.Valid() && Shaped(txn.View(), t.sh, root) && t.sh.home.Keys == t.Map().Keys
    {
      HomesAreCells(txn.View(), t.sh, root);
    }

    // ----- erase

    /** remove_child: the leaf `x` under this slot of the path is gone. `pages` is the tree with it still there. */
    method RemoveChild(path: seq<Step>, depth: nat, ghost x: PageNo, ghost pages: Pages, ghost out: Pages)
      returns (s: Status)
      requires txn.pageSize >= 512 && txn.Valid() && depth < |path| && Owns(t, out, {x})
      requires Good(pages, t, root, Cap()) && Full(pages, t, root, x) && PathTo(pages, t.sh, root, path, depth)
      requires Dangling(txn.View(), pages, t, x, path[depth].page, path[depth].slot)
      modifies this`t, txn
      ensures txn.Valid() && s == Ok && Owns(t, out, {})
      ensures Good(txn.View(), t, root, Cap()) && Full(txn.View(), t, root, 0) && t.Map() == old(t.Map())
      decreases depth
    {
      hide Pos, Good, Full, Under, WriteTxn.Valid, WriteTxn.View, WriteTxn.Live, Owned, Dangling;
      var page: PageNo, slot := path[depth].page, path[depth].slot;
      DanglingNode(txn.View(), pages, t, root, Cap(), x, page, slot);
      var n: Content, n': Content;
      s, n := txn.Read(page);
      if slot < |n.branches| {
        n' := Interior(n.branches[..slot] + n.branches[slot + 1..], n.right);
      } else if n.branches == [] {
        if depth == 0 {
          s := EmptyRoot(x, pages, out);
          return;
        }
        ghost var live, view := txn.Live(), txn.View();
        ghost var t' := CollapseInto(pages, t, root, Cap(), path, depth);
        OwnedGone(live, view, t, out, x, page);
        ghost var up, head := path[depth - 1], txn.freeHead;
        s := txn.FreePage(page);
        DanglingUp(view, head, pages, t, t', root, Cap(), x, page, slot, up.page, up.slot);
        OwnedLess(live, view, t, out, {x}, txn.Live(), txn.View(), t', {x}, {page});
        t := t';
        s := RemoveChild(path, depth - 1, x, pages[up.page := WithChild(pages[up.page], up.slot, x)], out);
        return;
      } else {
        n' := Interior(n.branches[..|n.branches| - 1], n.branches[|n.branches| - 1].child);
      }
      if n'.branches != [] {
        s := DropChild(path, depth, n', x, pages, out);
      } else if depth == 0 {
        s := PullRoot(path, n', x, pages, out);
      } else {
        s := CollapseNode(path, depth, n', x, pages, out);
      }
    }

    /** The only child of the root is gone: the root is an empty leaf again. */
    method EmptyRoot(ghost x: PageNo, ghost pages: Pages, ghost out: Pages) returns (s: Status)
      requires txn.pageSize >= 512 && txn.Valid() && Owns(t, out, {x}) && Good(pages, t, root, Cap())
      requires Full(pages, t, root, x)
      requires Dangling(txn.View(), pages, t, x, root, 0) && pages[root].branches == []
      modifies this`t, txn
      ensures txn.Valid() && s == Ok && Owns(t, out, {})
      ensures Good(txn.View(), t, root, Cap()) && Full(txn.View(), t, root, 0) && t.Map() == old(t.Map())
    {
      hide Pos, Good, Full, Under, WriteTxn.Valid, WriteTxn.View, WriteTxn.Live, Owned;
      ghost var live, view := txn.Live(), txn.View();
      DanglingNode(view, pages, t, root, Cap(), x, root, 0);
      OwnedGone(live, view, t, out, x, root);
      ghost var t' := RootCollapse(pages, t, root, Cap());
      NextIsLeaf(pages[root := pages[x]], t', root, Cap(), root);
      EmptyHolds(txn.pageSize, txn.longest);
      s := txn.Write(root, Leaf([], 0, 0));
      assert pages[x] == Leaf([], 0, 0);
      FrameOver(pages[root := pages[x]], txn.View(), t', root, Cap());
      OwnedLess(live, view, t, out, {x}, txn.Live(), txn.View(), t', {}, {});
      t := t';
    }

    /** What the last step of an erase starts from: `n'` is the parent without the leaf. */
    ghost predicate Parting(path: seq<Step>, depth: nat, n': Content, x: PageNo, pages: Pages, out: Pages)
      reads this, txn
    {
      && txn.pageSize >= 512 && txn.Valid() && depth < |path| && Owns(t, out, {x})
      && Good(pages, t, root, Cap()) && Full(pages, t, root, x) && PathTo(pages, t.sh, root, path, depth)
      && Dangling(txn.View(), pages, t, x, path[depth].page, path[depth].slot)
      && pages[path[depth].page].branches != [] && n' == Without(pages[path[depth].page], path[depth].slot)
    }

    method DropChild(path: seq<Step>, depth: nat, n': Content, ghost x: PageNo, ghost pages: Pages, ghost out: Pages)
      returns (s: Status)
      requires Parting(path, depth, n', x, pages, out)
      modifies this`t, txn
      ensures txn.Valid() && s == Ok && Owns(t, out, {})
      ensures Good(txn.View(), t, root, Cap()) && Full(txn.View(), t, root, 0) && t.Map() == old(t.Map())
    {
      hide Pos, Good, Full, Under, WriteTxn.Valid, WriteTxn.View, WriteTxn.Live, Owned, Without;
      ghost var live, view := txn.Live(), txn.View();
      var page := path[depth].page;
      DanglingNode(view, pages, t, root, Cap(), x, page, path[depth].slot);
      OwnedGone(live, view, t, out, x, page);
      ghost var t' := TakeOut(pages, t, root, Cap(), x, path, depth);
      txn.Held(page);
      BranchGone(view[page], path[depth].slot, txn.pageSize, txn.longest);
      s := txn.Write(page, n');
      FrameOver(Unlinked(pages, pages[x])[page := n'], txn.View(), t', root, Cap());
      OwnedLess(live, view, t, out, {x}, txn.Live(), txn.View(), t', {}, {});
      t := t';
    }

    /** The root is left with one child: it takes the child's content. */
    method PullRoot(path: seq<Step>, n': Content, ghost x: PageNo, ghost pages: Pages, ghost out: Pages)
      returns (s: Status)
      requires Parting(path, 0, n', x, pages, out) && n'.branches == []
      modifies this`t, txn
      ensures txn.Valid() && s == Ok && Owns(t, out, {})
      ensures Good(txn.View(), t, root, Cap()) && Full(txn.View(), t, root, 0) && t.Map() == old(t.Map())
    {
      hide Pos, Good, Full, Under, WriteTxn.Valid, WriteTxn.View, WriteTxn.Live, Owned, Without;
      ghost var live, view := txn.Live(), txn.View();
      DanglingNode(view, pages, t, root, Cap(), x, root, path[0].slot);
      OwnedGone(live, view, t, out, x, root);
      ghost var t1 := TakeOut(pages, t, root, Cap(), x, path, 0);
      ghost var pages1: Pages := Unlinked(pages, pages[x])[root := n'];
      ghost var t' := RootCollapse(pages1, t1, root, Cap());
      var only: PageNo, c: Content := n'.right, n';
      OwnedGone(live, view, t, out, x, only);
      s, c := txn.Read(only);
      txn.Held(only);
      s := txn.Write(root, c);
      s := txn.FreePage(only);
      FrameOver(pages1[root := pages1[only]], txn.View(), t', root, Cap());
      OwnedLess(live, view, t, out, {x}, txn.Live(), txn.View(), t', {}, {only});
      t := t';
    }

    /** Another node is left with one child, which takes its place under the node above. */
    method CollapseNode(path: seq<Step>, depth: nat, n': Content, ghost x: PageNo, ghost pages: Pages, ghost out: Pages)
      returns (s: Status)
      requires depth > 0 && Parting(path, depth, n', x, pages, out) && n'.branches == []
      modifies this`t, txn
      ensures txn.Valid() && s == Ok && Owns(t, out, {})
      ensures Good(txn.View(), t, root, Cap()) && Full(txn.View(), t, root, 0) && t.Map() == old(t.Map())
    {
      hide Pos, Good, Full, Under, WriteTxn.Valid, WriteTxn.View, WriteTxn.Live, Owned, Without, PathTo;
      ghost var live, view := txn.Live(), txn.View();
      var page: PageNo, up := path[depth].page, path[depth - 1];
      DanglingNode(view, pages, t, root, Cap(), x, page, path[depth].slot);
      OwnedGone(live, view, t, out, x, page);
      ghost var t1 := TakeOut(pages, t, root, Cap(), x, path, depth);
      ghost var pages1: Pages := Unlinked(pages, pages[x])[page := n'];
      ghost var t' := CollapseInto(pages1, t1, root, Cap(), path, depth);
      OwnedGone(live, view, t, out, x, up.page);
      var g;
      s, g := txn.Read(up.page);
      var g' := if up.slot < |g.branches|
        then Interior(g.branches[up.slot := g.branches[up.slot].(child := n'.right)], g.right)
                else Interior(g.branches, n'.right);
      txn.Held(up.page);
      ChildReplaced(g, up.slot, n'.right, txn.pageSize, txn.longest);
      s := txn.Write(up.page, g');
      s := txn.FreePage(page);
      CollapseWrites(view, pages, pages1, t, t', x, page, up.page, path[depth].slot, up.slot, n', txn.View());
      FrameOver(pages1[up.page := WithChild(pages1[up.page], up.slot, n'.right)], txn.View(), t', root, Cap());
      OwnedLess(live, view, t, out, {x}, txn.Live(), txn.View(), t', {}, {page});
      t := t';
    }

    /** The neighbours of an empty leaf are linked to each other, and its page is freed. */
    method UnlinkLeaf(p: PageNo, leaf: Content) returns (s: Status)
      requires txn.Valid() && leaf.Leaf? && p in txn.Live() && leaf.prev != p && leaf.next != p
      requires (leaf.prev != 0 ==> leaf.prev != leaf.next)
      requires leaf.prev != 0 ==> leaf.prev in txn.Live() && leaf.prev in txn.View() && txn.View()[leaf.prev].Leaf?
      requires leaf.next != 0 ==> leaf.next in txn.Live() && leaf.next in txn.View() && txn.View()[leaf.next].Leaf?
      modifies txn
      ensures txn.Valid() && s == Ok && txn.Live() == old(txn.Live()) - {p}
      ensures txn.View() == Unlinked(old(txn.View()), leaf)[p := Free(old(txn.freeHead))]
    {
      hide WriteTxn.Valid, WriteTxn.View, WriteTxn.Live;
      var n: Content;
      if leaf.prev != 0 {
        s, n := txn.Read(leaf.prev);
        txn.Held(leaf.prev);
        s := txn.Write(leaf.prev, Leaf(n.entries, n.prev, leaf.next));
      }
      if leaf.next != 0 {
        s, n := txn.Read(leaf.next);
        txn.Held(leaf.next);
        s := txn.Write(leaf.next, Leaf(n.entries, leaf.prev, n.next));
      }
      s := txn.FreePage(p);
    }

    /** Takes the empty leaf at the end of the path out of the tree. */
    method RemoveLeaf(path: seq<Step>, leaf: Content, ghost out: Pages) returns (s: Status)
      requires txn.pageSize >= 512 && txn.Valid() && |path| > 1 && Owns(t, out, {}) && leaf.Leaf? && leaf.entries == []
      requires var p := path[|path| - 1].page;
               var pages := txn.View()[p := leaf];
               && p in t.sh.nodes && Good(pages, t, root, Cap()) && Full(pages, t, root, p)
               && PathTo(pages, t.sh, root, path, |path| - 1)
      modifies this`t, txn
      ensures txn.Valid() && s == Ok && Owns(t, out, {})
      ensures Good(txn.View(), t, root, Cap()) && Full(txn.View(), t, root, 0) && t.Map() == old(t.Map())
    {
      hide Pos, Good, Full, WriteTxn.Valid, WriteTxn.View, WriteTxn.Live, Owned;
      var p := path[|path| - 1].page;
      ghost var pages: Pages, view, live, head := txn.View()[p := leaf], txn.View(), txn.Live(), txn.freeHead;
      FootprintInPages(pages, t, root, Cap());
      NextIsLeaf(pages, t, root, Cap(), p);
      txn.LiveInView();
      OwnedPage(live, view, t, out, p);
      OwnedPage(live, view, t, out, leaf.next);
      OwnedPage(live, view, t, out, leaf.prev);
      s := UnlinkLeaf(p, leaf);
      ghost var up := path[|path| - 2];
      assert Under(pages, t.sh, path[|path| - 2 + 1].page, path[|path| - 2].page, path[|path| - 2].slot);
      DanglingStart(view, head, pages, t, root, Cap(), leaf, p, up.page, up.slot);
      OwnedLessOne(live, view, t, out, txn.Live(), txn.View(), p);
      s := RemoveChild(path, |path| - 2, p, pages, out);
    }

    /** Removes a key, if it is there. */
    method Erase(key: Key) returns (s: Status, existed: bool)
      requires Valid()
      modifies this`t, txn
      ensures Valid() && s == Ok && Outside() == old(Outside())
      ensures existed <==> key in old(t.Map())
      ensures t.Map() == old(t.Map()) - {key}
    {
      hide Pos, Shaped, Valid, Outside, WriteTxn.Valid, WriteTxn.View, LowerAt, Covers, PathTo;
      GoodShape();
      var path, leaf;
      s, path, leaf := FindLeaf(key);
      var slot := path[|path| - 1].slot;
      if slot < |leaf.entries| { ComparePos(leaf.entries[slot].key, key); }
      if slot >= |leaf.entries| || Compare(leaf.entries[slot].key, key) != 0 {
        return Ok, false;
      }
      existed := true;
      s := EraseAt(path, leaf, slot);
    }

    method EraseAt(path: seq<Step>, leaf: Content, slot: nat) returns (s: Status)
      requires Valid() && path != [] && PathTo(txn.View(), t.sh, root, path, |path| - 1)
      requires var p := path[|path| - 1].page;
               IsLeaf(txn.View(), t.sh, p) && leaf == txn.View()[p] && slot < |leaf.entries|
      modifies this`t, txn
      ensures Valid() && s == Ok && t.Map() == old(t.Map()) - {leaf.entries[slot].key} && Outside() == old(Outside())
    {
      hide Pos, Good, Full, WriteTxn.Valid, WriteTxn.View, WriteTxn.Live, Owned, Under;
      ghost var out := Outside();
      OutsideOwned();
      var p, leaf' := path[|path| - 1].page, leaf;
      ghost var before, was := txn.View(), t;
      FootprintInPages(before, t, root, Cap());
      txn.Held(p);
      EntryGone(leaf.entries, slot, leaf.prev, leaf.next, txn.pageSize, txn.longest);
      s, leaf' := RemoveEntry(p, leaf, slot, out);
      PathSame(before, was.sh, root, txn.View()[p := leaf'], t.sh, path, p);
      FullBut(before, was, p, leaf');
      if leaf'.entries != [] || |path| == 1 {
        ghost var live, view := txn.Live(), txn.View();
        OwnedPage(live, view, t, out, p);
        s := txn.Write(p, leaf');
        OwnedMore(live, view, t, out, txn.Live(), txn.View(), t, {});
      } else {
        s := RemoveLeaf(path, leaf', out);
      }
      OwnedOutside(out);
    }

    lemma FullBut(before: Pages, was: Tree, p: PageNo, leaf: Content)
      requires was.sh.nodes == t.sh.nodes && 0 !in t.sh.nodes && Full(before, was, root, 0) && leaf.Leaf?
      requires forall q :: q in t.sh.nodes && q != p ==> q in before && q in txn.View() && txn.View()[q] == before[q]
      ensures Full(txn.View()[p := leaf], t, root, p)
      ensures leaf.entries != [] || p == root ==> Full(txn.View()[p := leaf], t, root, 0)
    {
      forall q | IsLeaf(txn.View()[p := leaf], t.sh, q) && q != root && q != p ensures txn.View()[q].entries != [] {
        assert IsLeaf(before, was.sh, q);
      }
    }

    // ----- create and destroy

    /** A new tree is one empty leaf. */
    static method Create(txn: WriteTxn) returns (s: Status, root: PageNo, ghost t: Tree)
      requires txn.pageSize >= 512 && txn.Valid()
      modifies txn
      ensures txn.Valid() && s == Ok && root !in old(txn.Live()) && txn.Live() == old(txn.Live()) + {root}
      ensures Good(txn.View(), t, root, txn.pageSize - 12) && Full(txn.View(), t, root, 0)
      ensures t.Map() == map[] && t.Footprint() == {root}
      ensures forall p :: p in old(txn.Live()) ==> p in txn.View() && txn.View()[p] == old(txn.View()[p])
    {
      hide WriteTxn.Valid, WriteTxn.View, WriteTxn.Live;
      txn.LiveInView();
      s, root := txn.Allocate();
      EmptyHolds(txn.pageSize, txn.longest);
      s := txn.Write(root, Leaf([], 0, 0));
      t := Tree(Shape(map[root := Info(0.0, 1.0, 0, 0)], map[], map[], map[]), Vals(map[], map[], map[]));
      assert NodeOk(txn.View(), t.sh, root);
    }

    /** The overflow pages of one entry. */
    method CollectChain(first: PageNo, total: nat, pages: seq<PageNo>, ghost chain: seq<PageNo>, ghost v: Bytes)
      returns (s: Status, pages': seq<PageNo>)
      requires txn.pageSize >= 512 && txn.Valid() && ChainIs(txn.View(), chain, v, Cap()) && first == At(chain, 0)
      requires total == |v|
      requires NoRepeats(pages)
      ensures s == Ok && NoRepeats(pages') && Elements(pages') == Elements(pages) + Elements(chain)
    {
      hide WriteTxn.Valid, WriteTxn.View, ChainIs, Rest;
      pages', s := pages, Ok;
      var page, remaining := first, total;
      ghost var i, left := 0, v;
      assert chain[..0] == [] && chain[0..] == chain;
      while remaining > 0 && page != 0
        invariant i <= |chain| && page == At(chain, i) && remaining == |left|
        invariant ChainIs(txn.View(), chain[i..], left, Cap())
        invariant s == Ok && NoRepeats(pages') && Elements(pages') == Elements(pages) + Elements(chain[..i])
        decreases |chain| - i
      {
        ChainStep(txn.View(), chain[i..], left, Cap());
        assert chain[i..][1..] == chain[i + 1..] && chain[..i + 1] == chain[..i] + [page];
        ElementsMore(pages', page);
        ElementsMore(chain[..i], page);
        if page !in pages' { pages' := pages' + [page]; }
        var c;
        s, c := txn.Read(page);
        remaining := remaining - if Cap() < remaining then Cap() else remaining;
        i, left := i + 1, Rest(left, Cap());
        page := c.next;
      }
      ChainDone(txn.View(), chain, i, left, Cap());
      assert chain[..i] == chain;
    }

    /** check_node's traversal: every page reached, once. */
    method CollectNode(page: PageNo, pages: seq<PageNo>) returns (s: Status, pages': seq<PageNo>)
      requires Valid() && page in t.sh.nodes && NoRepeats(pages) && Elements(pages) <= t.Footprint()
      ensures s == Ok && NoRepeats(pages') && Elements(pages) <= Elements(pages') <= t.Footprint() && page in pages'
      ensures forall q :: q in t.sh.nodes && q in pages' && q !in pages ==> Closed(txn.View(), t, Elements(pages'), q)
      decreases t.sh.nodes[page].level
    {
      hide Pos, Shaped, WriteTxn.Valid, WriteTxn.View, WriteTxn.Live, ChainIs, Full;
      if page in pages { return Ok, pages; }
      GoodShape();
      NodeAt(txn.View(), t.sh, root, page);
      pages' := pages + [page];
      ElementsMore(pages, page);
      var n;
      s, n := txn.Read(page);
      if n.Leaf? {
        s, pages' := CollectLeaf(page, n, pages');
      } else {
        s, pages' := CollectChildren(page, n, pages');
      }
    }

    method CollectLeaf(page: PageNo, n: Content, pages: seq<PageNo>) returns (s: Status, pages': seq<PageNo>)
      requires Valid() && IsLeaf(txn.View(), t.sh, page) && n == txn.View()[page] && NoRepeats(pages)
      requires Elements(pages) <= t.Footprint()
      requires page in pages
      ensures s == Ok && NoRepeats(pages') && Elements(pages) <= Elements(pages') <= Elements(pages) + t.vals.spill.Keys
      ensures Closed(txn.View(), t, Elements(pages'), page)
    {
      hide Pos, Shaped, WriteTxn.Valid, WriteTxn.View, WriteTxn.Live, ChainIs, Full, StoredOk;
      pages', s := pages, Ok;
      var i := 0;
      while i < |n.entries|
        invariant i <= |n.entries| && s == Ok && NoRepeats(pages')
        invariant Elements(pages) <= Elements(pages') <= Elements(pages) + t.vals.spill.Keys
        invariant forall j :: 0 <= j < i ==> EntryClosed(t, Elements(pages'), n.entries[j].key)
      {
        ghost var key := n.entries[i].key;
        RemovedIsGood(txn.View(), t, root, Cap(), page, i);
        var stored := n.entries[i].stored;
        StoredChain(txn.View(), stored, t.vals.chains[key], t.vals.values[key], Cap());
        if stored.Spilled? {
          s, pages' := CollectChain(stored.first, stored.total, pages', t.vals.chains[key], t.vals.values[key]);
        }
        i := i + 1;
      }
    }

    method CollectChildren(page: PageNo, n: Content, pages: seq<PageNo>) returns (s: Status, pages': seq<PageNo>)
      requires Valid() && IsInterior(txn.View(), t.sh, page) && n == txn.View()[page] && NoRepeats(pages)
      requires Elements(pages) <= t.Footprint()
      requires page in pages
      ensures s == Ok && NoRepeats(pages') && Elements(pages) <= Elements(pages') <= t.Footprint()
      ensures Closed(txn.View(), t, Elements(pages'), page)
      ensures forall q :: q in t.sh.nodes && q in pages' && q !in pages ==> Closed(txn.View(), t, Elements(pages'), q)
      decreases t.sh.nodes[page].level, 0
    {
      hide Pos, Shaped, WriteTxn.Valid, WriteTxn.View, WriteTxn.Live, ChainIs, Full;
      GoodShape();
      NodeAt(txn.View(), t.sh, root, page);
      pages', s := pages, Ok;
      var i := 0;
      while i <= |n.branches|
        invariant i <= |n.branches| + 1 && s == Ok && NoRepeats(pages')
        invariant Elements(pages) <= Elements(pages') <= t.Footprint()
        invariant forall j: nat :: j < i ==> Child(n, j) in pages'
        invariant forall q :: q in t.sh.nodes && q in pages' && q !in pages ==>
                    Closed(txn.View(), t, Elements(pages'), q)
      {
        assert ChildOk(t.sh, page, n, i);
        ghost var before := pages';
        s, pages' := CollectNode(Child(n, i), pages');
        forall q | q in t.sh.nodes && q in before && q !in pages ensures Closed(txn.View(), t, Elements(pages'), q) {
          ClosedMore(txn.View(), t, Elements(before), Elements(pages'), q);
        }
        i := i + 1;
      }
    }

    /** Frees every page of the tree, the root included, and no other. */
    method Destroy() returns (s: Status)
      requires Valid()
      modifies this`t, txn
      ensures txn.Valid() && s == Ok && txn.Live() == old(txn.Live()) - old(t.Footprint())
      ensures forall p :: p in old(txn.Live()) && p !in old(t.Footprint()) ==>
                p in txn.View() && txn.View()[p] == old(txn.View()[p])
    {
      hide Pos, Good, WriteTxn.Valid, WriteTxn.View, WriteTxn.Live, Full, Shaped, Closed, NoRepeats;
      GoodShape();
      RootAt(txn.View(), t.sh, root);
      txn.LiveInView();
      var pages;
      assert NoRepeats([]) by { NoneRepeats(); }
      s, pages := CollectNode(root, []);
      AllFound(txn.View(), t, root, Cap(), Elements(pages));
      assert forall p :: p in pages ==> p in Elements(pages);
      var i := 0;
      while i < |pages|
        invariant i <= |pages| && txn.Valid() && t == old(t)
        invariant txn.Live() == old(txn.Live()) - Elements(pages[..i])
        invariant forall p :: p in old(txn.View()) && p !in pages[..i] ==>
                    p in txn.View() && txn.View()[p] == old(txn.View()[p])
      {
        Unrepeated(pages, i);
        assert pages[i] !in pages[..i] && pages[..i + 1] == pages[..i] + [pages[i]];
        ElementsMore(pages[..i], pages[i]);
        s := txn.FreePage(pages[i]);
        i := i + 1;
      }
      assert pages[..i] == pages;
      s := Ok;
    }
  }

  lemma NoneRepeats()
    ensures NoRepeats([])
  {
  }

  lemma {:induction false} LevelBound(nodes: map<PageNo, Info>) returns (bound: nat)
    ensures forall p :: p in nodes ==> nodes[p].level <= bound
  {
    if nodes == map[] {
      bound := 0;
    } else {
      var p :| p in nodes;
      bound := LevelBound(nodes - {p});
      if bound < nodes[p].level { bound := nodes[p].level; }
      forall q | q in nodes ensures nodes[q].level <= bound {
        if q != p { assert q in nodes - {p}; }
      }
    }
  }

  /** Every node is found: its parent was, and that node is closed. */
  lemma {:induction false} NodeFound(pages: Pages, t: Tree, root: PageNo, found: set<PageNo>, q: PageNo, bound: nat)
    requires Shaped(pages, t.sh, root) && root in found && q in t.sh.nodes
    requires forall p :: p in t.sh.nodes && p in found ==> Closed(pages, t, found, p)
    requires forall p :: p in t.sh.nodes ==> t.sh.nodes[p].level <= bound
    ensures q in found
    decreases bound - t.sh.nodes[q].level
  {
    hide Shaped;
    if q != root {
      var i := ParentAt(pages, t.sh, root, q);
      LevelBelow(pages, t.sh, root, q);
      NodeFound(pages, t, root, found, t.sh.nodes[q].parent, bound);
      assert Closed(pages, t, found, t.sh.nodes[q].parent);
    }
  }

  lemma AllFound(pages: Pages, t: Tree, root: PageNo, cap: nat, found: set<PageNo>)
    requires cap > 0 && Good(pages, t, root, cap) && root in found && found <= t.Footprint()
    requires forall p :: p in t.sh.nodes && p in found ==> Closed(pages, t, found, p)
    ensures found == t.Footprint()
  {
    hide Shaped, StoredOk;
    var bound := LevelBound(t.sh.nodes);
    forall q | q in t.sh.nodes ensures q in found { NodeFound(pages, t, root, found, q, bound); }
    forall q | q in t.vals.spill ensures q in found {
      var k := t.vals.spill[q];
      assert SpillOk(t.sh, t.vals, q);
      HomesAreCells(pages, t.sh, root);
      var i := KeyAt(pages, t.sh, root, k);
      assert Closed(pages, t, found, t.sh.home[k]);
      assert EntryClosed(t, found, k);
    }
  }

  ghost predicate EntryClosed(t: Tree, found: set<PageNo>, k: Key) {
    k in t.vals.chains && Elements(t.vals.chains[k]) <= found
  }

  /** Whatever the node points at has been found too. */
  ghost predicate Closed(pages: Pages, t: Tree, found: set<PageNo>, q: PageNo) {
    q in pages && match pages[q]
    case Leaf(es, _, _) => forall i :: 0 <= i < |es| ==> EntryClosed(t, found, es[i].key)
    case Interior(bs, _) => forall i: nat :: i <= |bs| ==> Child(pages[q], i) in found
    case _ => true
  }

  lemma ClosedMore(pages: Pages, t: Tree, found: set<PageNo>, found': set<PageNo>, q: PageNo)
    requires Closed(pages, t, found, q) && found <= found'
    ensures Closed(pages, t, found', q)
  {
    if pages[q].Leaf? {
      forall i | 0 <= i < |pages[q].entries| ensures EntryClosed(t, found', pages[q].entries[i].key) {
        assert EntryClosed(t, found, pages[q].entries[i].key);
      }
    }
  }

  lemma StoredChain(pages: Pages, s: Stored, chain: seq<PageNo>, v: Bytes, cap: nat)
    requires cap > 0 && StoredOk(pages, s, chain, v, cap)
    ensures s.Inline? ==> chain == []
    ensures s.Spilled? ==> s.total == |v| && s.first == At(chain, 0) && ChainIs(pages, chain, v, cap)
  {
  }

  /** A chain ends with its value. */
  lemma ChainDone(pages: Pages, chain: seq<PageNo>, i: nat, left: Bytes, cap: nat)
    requires cap > 0 && i <= |chain| && ChainIs(pages, chain[i..], left, cap) && (left == [] || At(chain, i) == 0)
    ensures i == |chain|
  {
  }

  lemma ElementsMore(list: seq<PageNo>, p: PageNo)
    ensures Elements(list + [p]) == Elements(list) + {p}
  {
  }

  lemma OwnedLessOne(live: set<PageNo>, view: Pages, t: Tree, out: Pages, live': set<PageNo>, view': Pages, x: PageNo)
    requires Owned(live, view, t, out, {}) && live' == live - {x} && x in t.Footprint()
    requires forall p :: p in view && p !in t.Footprint() ==> p in view' && view'[p] == view[p]
    ensures Owned(live', view', t, out, {x})
  {
  }

  lemma DanglingStart(view: Pages, head: PageNo, pages: Pages, t: Tree, root: PageNo, cap: nat, leaf: Content,
                      x: PageNo, g: PageNo, slot: nat)
    requires cap > 0 && Good(pages, t, root, cap) && leaf.Leaf? && leaf.entries == [] && pages == view[x := leaf]
    requires x in t.sh.nodes && Under(pages, t.sh, x, g, slot) && t.Footprint() <= view.Keys
    requires leaf.next != 0 ==> IsLeaf(pages, t.sh, leaf.next) && leaf.next != x
    requires leaf.prev != 0 ==> IsLeaf(pages, t.sh, leaf.prev) && leaf.prev != x
    ensures Dangling(Unlinked(view, leaf)[x := Free(head)], pages, t, x, g, slot)
  {
    hide Pos, Shaped, ValuesOk;
    LevelsDiffer(pages, t.sh, root, x, g, slot);
    var n := pages[g];
    assert WithChild(n, slot, x) == n;
    FootprintInPages(pages, t, root, cap);
  }

  /** The pages while an empty leaf `x`, at `slot` of `g`, is being taken out: its page is freed, its neighbours
      point past it, and `g` may still name it in its place. */
  ghost predicate Dangling(view: Pages, pages: Pages, t: Tree, x: PageNo, g: PageNo, slot: nat) {
    && IsLeaf(pages, t.sh, x) && pages[x].entries == [] && Under(pages, t.sh, x, g, slot)
    && (pages[x].next != 0 ==> IsLeaf(pages, t.sh, pages[x].next))
    && (pages[x].prev != 0 ==> IsLeaf(pages, t.sh, pages[x].prev))
    && g in view && view[g].Interior? && slot <= |view[g].branches| && WithChild(view[g], slot, x) == pages[g]
    && forall q :: q in t.Footprint() && q != x && q != g ==>
         q in pages && q in view && view[q] == Unlinked(pages, pages[x])[q]
  }

  lemma DanglingNode(view: Pages, pages: Pages, t: Tree, root: PageNo, cap: nat, x: PageNo, g: PageNo, slot: nat)
    requires cap > 0 && Good(pages, t, root, cap) && Dangling(view, pages, t, x, g, slot)
    ensures g in view && view[g].Interior? && slot <= |view[g].branches| && g in t.sh.nodes && g != x && x != root
    ensures x in t.sh.nodes
    ensures IsInterior(pages, t.sh, g) && |view[g].branches| == |pages[g].branches|
    ensures t.Footprint() <= pages.Keys && t.sh.nodes.Keys !! t.vals.spill.Keys
    ensures view[g].branches == [] ==> pages[g].right == x && slot == 0
    ensures view[g].branches != [] ==> Without(view[g], slot) == Without(pages[g], slot)
  {
    hide Pos, Shaped, ValuesOk;
    LevelsDiffer(pages, t.sh, root, x, g, slot);
    FootprintInPages(pages, t, root, cap);
  }

  /** The pages of the collapsed tree are those that were written, or as they were. */
  lemma CollapseWrites(view: Pages, pages: Pages, pages1: Pages, t: Tree, t': Tree, x: PageNo, page: PageNo, up: PageNo,
                       slot: nat, upSlot: nat, n': Content, view': Pages)
    requires Dangling(view, pages, t, x, page, slot) && n'.Interior? && pages1 == Unlinked(pages, pages[x])[page := n']
    requires t'.Footprint() <= t.Footprint() - {x, page} && up in t.Footprint() && up != x && up != page
    requires up in pages1 && pages1[up].Interior? && upSlot <= |pages1[up].branches| && page in view'
    requires view[up].Interior? && upSlot <= |view[up].branches|
    requires view' == view[up := WithChild(view[up], upSlot, n'.right)][page := view'[page]]
    ensures forall q :: q in t'.Footprint() ==>
      q in pages1 && q in view' && view'[q] == pages1[up := WithChild(pages1[up], upSlot, n'.right)][q]
  {
    hide Pos, Under, WithChild;
  }

  /** Nothing else of the tree was touched. */
  lemma FrameOver(pages: Pages, view: Pages, t: Tree, root: PageNo, cap: nat)
    requires cap > 0 && Good(pages, t, root, cap) && Full(pages, t, root, 0)
    requires forall q :: q in t.Footprint() ==> q in pages && q in view && view[q] == pages[q]
    ensures Good(view, t, root, cap) && Full(view, t, root, 0)
  {
    GoodFrame(pages, view, t, root, cap);
  }

  lemma OwnedGone(live: set<PageNo>, view: Pages, t: Tree, out: Pages, x: PageNo, p: PageNo)
    requires Owned(live, view, t, out, {x}) && x in t.Footprint() && p in t.Footprint() && p != x
    ensures p in live && p !in out && x !in live
  {
  }

  /** Pages given up are no longer the tree's. */
  lemma OwnedLess(live: set<PageNo>, view: Pages, t: Tree, out: Pages, gone: set<PageNo>,
                  live': set<PageNo>, view': Pages, t': Tree, gone': set<PageNo>, freed: set<PageNo>)
    requires Owned(live, view, t, out, gone) && live' == live - freed && freed <= t.Footprint()
    requires t'.Footprint() <= t.Footprint() && t'.Footprint() - gone' == t.Footprint() - gone - freed
    requires forall p :: p in view && p !in t.Footprint() ==> p in view' && view'[p] == view[p]
    ensures Owned(live', view', t', out, gone')
  {
  }

  /** A node with nothing left under it is skipped: the leaf hangs under the next one up instead. */
  lemma DanglingUp(view: Pages, head: PageNo, pages: Pages, t: Tree, t': Tree, root: PageNo, cap: nat,
                   x: PageNo, g: PageNo, slot: nat, up: PageNo, slot': nat)
    requires cap > 0 && Good(pages, t, root, cap) && Dangling(view, pages, t, x, g, slot) && pages[g].branches == []
    requires pages[g].right == x
    requires IsInterior(pages, t.sh, up) && slot' <= |pages[up].branches| && up != g && up != x
    requires t'.vals == t.vals && t'.sh.nodes.Keys == t.sh.nodes.Keys - {g}
    requires var pages' := pages[up := WithChild(pages[up], slot', x)]; Under(pages', t'.sh, x, up, slot')
    ensures Dangling(view[g := Free(head)], pages[up := WithChild(pages[up], slot', x)], t', x, up, slot')
  {
    hide Pos, Good;
    FootprintInPages(pages, t, root, cap);
    assert up in t.Footprint() && view[up] == pages[up];
  }

  lemma LowerWithin(es: seq<Entry>, key: Key, slot: nat)
    requires LowerAt(es, key, slot)
    ensures slot <= |es|
  {
  }

  lemma LowerRemoved(es: seq<Entry>, key: Key, slot: nat)
    requires LowerAt(es, key, slot) && slot < |es|
    ensures LowerAt(es[..slot] + es[slot + 1..], key, slot)
  {
  }

  lemma CoversSame(sh: Shape, sh': Shape, p: PageNo, key: Key)
    requires Covers(sh, p, key) && sh'.nodes == sh.nodes
    ensures Covers(sh', p, key)
  {
  }

  /** A path above a leaf is not touched by rewriting the leaf. */
  lemma PathSame(pages: Pages, sh: Shape, root: PageNo, pages': Pages, sh': Shape, path: seq<Step>, p: PageNo)
    requires path != [] && PathTo(pages, sh, root, path, |path| - 1) && sh'.nodes == sh.nodes && p in pages
    requires pages[p].Leaf?
    requires forall q :: q in sh.nodes && q != p ==> q in pages && q in pages' && pages'[q] == pages[q]
    ensures PathTo(pages', sh', root, path, |path| - 1)
  {
    forall i | 0 <= i < |path| - 1 ensures Under(pages', sh', path[i + 1].page, path[i].page, path[i].slot) {
      assert Under(pages, sh, path[i + 1].page, path[i].page, path[i].slot);
    }
  }

  lemma LeafWrites(view: Pages, p: PageNo, n: Content, at: nat, r: PageNo)
    requires n.Leaf? && at <= |n.entries| && n.next != p && n.next != r
    requires (n.next != 0 ==> n.next in view && view[n.next].Leaf?)
    ensures var written :=
            view[r := Zeroed][p := Leaf(n.entries[..at], n.prev, r)][r := Leaf(n.entries[at..], p, n.next)];
            Halved(view[p := n], n, at, p, r) == if n.next == 0 then written
              else written[n.next := written[n.next].(prev := r)]
  {
  }

  lemma NodesInPages(pages: Pages, sh: Shape, root: PageNo)
    requires Shaped(pages, sh, root)
    ensures sh.nodes.Keys <= pages.Keys
  {
    forall q | q in sh.nodes ensures q in pages { NodeAt(pages, sh, root, q); }
  }

  lemma FootprintInPages(pages: Pages, t: Tree, root: PageNo, cap: nat)
    requires cap > 0 && Good(pages, t, root, cap)
    ensures t.Footprint() <= pages.Keys && 0 !in t.Footprint() && t.sh.nodes.Keys !! t.vals.spill.Keys
  {
    NodesInPages(pages, t.sh, root);
    RootAt(pages, t.sh, root);
    forall q | q in t.vals.spill
      ensures q in pages && q != 0 && q !in t.sh.nodes
    {
      SpillApart(pages, t, root, cap, q);
    }
  }

  lemma Unrepeated(pages: seq<PageNo>, i: nat)
    requires NoRepeats(pages) && i < |pages|
    ensures forall j :: 0 <= j < |pages| && j != i ==> pages[j] != pages[i]
  {
  }
}
