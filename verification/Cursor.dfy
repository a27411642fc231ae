/** Cursors over the chain of leaves (BTree::Cursor in engine/src/engine/btree.cpp). */
module TreeCursor {
  import opened PageFormat
  import opened Disk
  import opened KeyOrder
  import opened Pager
  import opened TreeShape
  import opened TreeMoves
  import opened TreeState
  import opened TreeSteps
  import opened MapTree

  // ----- where a cursor stands

  /** At or past `b`; past it if `strict`. */
  ghost predicate Beyond(k: Key, b: real, strict: bool) { if strict then Pos(k) > b else Pos(k) >= b }

  /** The keys beyond `b` are those of leaf `p` from `slot` on, and those after the leaf. */
  ghost predicate Ahead(pages: Pages, sh: Shape, p: PageNo, slot: nat, b: real, strict: bool) {
    && IsLeaf(pages, sh, p) && slot <= |pages[p].entries|
    && (forall i :: 0 <= i < |pages[p].entries| ==> (Beyond(pages[p].entries[i].key, b, strict) <==> slot <= i))
    && (forall k :: k in sh.home && sh.home[k] != p ==> (Beyond(k, b, strict) <==> Pos(k) >= sh.nodes[p].hi))
  }

  /** The keys below `b` are those of leaf `p` before `slot`, and those before the leaf. */
  ghost predicate Behind(pages: Pages, sh: Shape, p: PageNo, slot: nat, b: real) {
    && IsLeaf(pages, sh, p) && slot <= |pages[p].entries|
    && (forall i :: 0 <= i < |pages[p].entries| ==> (Pos(pages[p].entries[i].key) < b <==> i < slot))
    && (forall k :: k in sh.home && sh.home[k] != p ==> (Pos(k) < b <==> Pos(k) < sh.nodes[p].lo))
  }

  /** A key of another leaf is before or after this one. */
  lemma OtherLeaf(pages: Pages, sh: Shape, root: PageNo, p: PageNo, k: Key)
    requires Shaped(pages, sh, root) && IsLeaf(pages, sh, p) && k in sh.home
    ensures sh.home[k] != p ==> Pos(k) < sh.nodes[p].lo || Pos(k) >= sh.nodes[p].hi
    ensures sh.home[k] == p ==> sh.nodes[p].lo <= Pos(k) < sh.nodes[p].hi && HasKey(pages[p].entries, k)
    ensures 0.0 <= sh.nodes[p].lo < sh.nodes[p].hi <= 1.0
  {
    hide Pos;
    NodeAt(pages, sh, root, p);
    var i := KeyAt(pages, sh, root, k);
    NodeAt(pages, sh, root, sh.home[k]);
    assert EntryOk(sh, sh.home[k], pages[sh.home[k]].entries[i]);
  }

  lemma AheadNext(pages: Pages, sh: Shape, root: PageNo, p: PageNo, b: real, strict: bool)
    requires Shaped(pages, sh, root) && IsLeaf(pages, sh, p) && Ahead(pages, sh, p, |pages[p].entries|, b, strict)
    ensures pages[p].next == 0 ==> forall k :: k in sh.home ==> !Beyond(k, b, strict)
    ensures pages[p].next != 0 ==> Ahead(pages, sh, pages[p].next, 0, b, strict)
  {
    hide Pos, Shaped, Beyond;
    NodeAt(pages, sh, root, p);
    var q := pages[p].next;
    forall k | k in sh.home
      ensures q == 0 ==> !Beyond(k, b, strict)
      ensures q != 0 && sh.home[k] != q ==> (Beyond(k, b, strict) <==> Pos(k) >= sh.nodes[q].hi)
    {
      OtherLeaf(pages, sh, root, p, k);
      PosRange(k);
      if q != 0 { OtherLeaf(pages, sh, root, q, k); }
    }
    if q != 0 {
      NodeAt(pages, sh, root, q);
      forall i | 0 <= i < |pages[q].entries| ensures Beyond(pages[q].entries[i].key, b, strict) {
        assert EntryOk(sh, q, pages[q].entries[i]);
      }
    }
  }

  lemma BehindPrev(pages: Pages, sh: Shape, root: PageNo, p: PageNo, b: real)
    requires Shaped(pages, sh, root) && Behind(pages, sh, p, 0, b)
    ensures pages[p].prev == 0 ==> forall k :: k in sh.home ==> Pos(k) >= b
    ensures pages[p].prev != 0 ==> IsLeaf(pages, sh, pages[p].prev)
                                   && Behind(pages, sh, pages[p].prev, |pages[pages[p].prev].entries|, b)
  {
    hide Pos, Shaped;
    NodeAt(pages, sh, root, p);
    var q := pages[p].prev;
    forall k | k in sh.home
      ensures q == 0 ==> Pos(k) >= b
      ensures q != 0 && sh.home[k] != q ==> (Pos(k) < b <==> Pos(k) < sh.nodes[q].lo)
    {
      OtherLeaf(pages, sh, root, p, k);
      PosRange(k);
      if q != 0 { OtherLeaf(pages, sh, root, q, k); }
    }
    if q != 0 {
      NodeAt(pages, sh, root, q);
      forall i | 0 <= i < |pages[q].entries| ensures Pos(pages[q].entries[i].key) < b {
        assert EntryOk(sh, q, pages[q].entries[i]);
      }
    }
  }

  /** The first key at or after `b` in this position is the least one beyond it. */
  lemma AheadIsLeast(pages: Pages, sh: Shape, root: PageNo, p: PageNo, slot: nat, b: real, strict: bool)
    requires Shaped(pages, sh, root) && Ahead(pages, sh, p, slot, b, strict) && slot < |pages[p].entries|
    ensures var key := pages[p].entries[slot].key;
            && key in sh.home && Beyond(key, b, strict)
            && forall k :: k in sh.home && Beyond(k, b, strict) ==> Pos(key) <= Pos(k)
  {
    hide Pos, Shaped, Beyond;
    NodeAt(pages, sh, root, p);
    var es := pages[p].entries;
    assert EntryOk(sh, p, es[slot]);
    forall k | k in sh.home && Beyond(k, b, strict) ensures Pos(es[slot].key) <= Pos(k) {
      OtherLeaf(pages, sh, root, p, k);
      if sh.home[k] == p {
        var i :| 0 <= i < |es| && es[i].key == k;
        assert Beyond(es[i].key, b, strict);
      }
    }
  }

  lemma BehindIsGreatest(pages: Pages, sh: Shape, root: PageNo, p: PageNo, slot: nat, b: real)
    requires Shaped(pages, sh, root) && Behind(pages, sh, p, slot, b) && slot > 0
    ensures var key := pages[p].entries[slot - 1].key;
            && key in sh.home && Pos(key) < b
            && forall k :: k in sh.home && Pos(k) < b ==> Pos(k) <= Pos(key)
  {
    hide Pos, Shaped;
    NodeAt(pages, sh, root, p);
    var es := pages[p].entries;
    assert EntryOk(sh, p, es[slot - 1]);
    forall k | k in sh.home && Pos(k) < b ensures Pos(k) <= Pos(es[slot - 1].key) {
      OtherLeaf(pages, sh, root, p, k);
      if sh.home[k] == p {
        var i :| 0 <= i < |es| && es[i].key == k;
        assert Pos(es[i].key) < b;
      }
    }
  }

  /** Standing on an entry: what is past it, and what is before it. */
  lemma OnEntry(pages: Pages, sh: Shape, root: PageNo, p: PageNo, slot: nat)
    requires Shaped(pages, sh, root) && IsLeaf(pages, sh, p) && slot < |pages[p].entries|
    ensures Ahead(pages, sh, p, slot + 1, Pos(pages[p].entries[slot].key), true)
    ensures Behind(pages, sh, p, slot, Pos(pages[p].entries[slot].key))
  {
    hide Pos, Shaped;
    NodeAt(pages, sh, root, p);
    assert EntryOk(sh, p, pages[p].entries[slot]);
    forall k | k in sh.home && sh.home[k] != p
      ensures Beyond(k, Pos(pages[p].entries[slot].key), true) <==> Pos(k) >= sh.nodes[p].hi
      ensures Pos(k) < Pos(pages[p].entries[slot].key) <==> Pos(k) < sh.nodes[p].lo
    {
      OtherLeaf(pages, sh, root, p, k);
    }
  }

  /** After a search. */
  lemma OnSearch(pages: Pages, sh: Shape, root: PageNo, p: PageNo, slot: nat, key: Key)
    requires Shaped(pages, sh, root) && IsLeaf(pages, sh, p) && Covers(sh, p, key)
    requires LowerAt(pages[p].entries, key, slot)
    ensures Ahead(pages, sh, p, slot, Pos(key), false)
  {
    hide Pos, Shaped;
    forall k | k in sh.home && sh.home[k] != p ensures Beyond(k, Pos(key), false) <==> Pos(k) >= sh.nodes[p].hi {
      OtherLeaf(pages, sh, root, p, k);
    }
  }

  /** At the ends of the chain. */
  lemma OnFirst(pages: Pages, sh: Shape, root: PageNo, p: PageNo)
    requires Shaped(pages, sh, root) && IsLeaf(pages, sh, p)
    ensures sh.nodes[p].lo == 0.0 ==> Ahead(pages, sh, p, 0, 0.0, false)
    ensures sh.nodes[p].hi == 1.0 ==> Behind(pages, sh, p, |pages[p].entries|, 1.0)
  {
    hide Pos, Shaped;
    forall k | k in sh.home && sh.home[k] != p
      ensures sh.nodes[p].lo == 0.0 ==> (Beyond(k, 0.0, false) <==> Pos(k) >= sh.nodes[p].hi)
      ensures sh.nodes[p].hi == 1.0 ==> (Pos(k) < 1.0 <==> Pos(k) < sh.nodes[p].lo)
    {
      OtherLeaf(pages, sh, root, p, k);
      PosRange(k);
    }
    forall i | 0 <= i < |pages[p].entries|
      ensures 0.0 <= Pos(pages[p].entries[i].key) < 1.0
    {
      PosRange(pages[p].entries[i].key);
    }
  }

  /** `key` is the least key of `m` beyond `b`, if `found`; otherwise there is none. */
  ghost predicate LeastBeyond(m: map<Key, Bytes>, b: real, strict: bool, found: bool, key: Key) {
    if found then key in m && Beyond(key, b, strict) && forall k :: k in m && Beyond(k, b, strict) ==>
        Pos(key) <= Pos(k)
    else forall k :: k in m ==> !Beyond(k, b, strict)
  }

  ghost predicate GreatestBelow(m: map<Key, Bytes>, b: real, found: bool, key: Key) {
    if found then key in m && Pos(key) < b && forall k :: k in m && Pos(k) < b ==> Pos(k) <= Pos(key)
    else forall k :: k in m ==> Pos(k) >= b
  }

  class Cursor {
    const tree: BTree
    var leaf: PageNo
    var slot: nat
    var page: Content
    var key: Key
    var valid: bool

    constructor (tree: BTree)
      ensures this.tree == tree && !valid
    {
      this.tree := tree;
      leaf, slot, page, key, valid := 0, 0, Zeroed, [], false;
    }

    /** The cursor stands on an entry of the tree. */
    ghost predicate OnKey()
      reads this, tree, tree.txn
    {
      && IsLeaf(tree.txn.View(), tree.t.sh, leaf) && page == tree.txn.View()[leaf]
      && slot < |page.entries| && key == page.entries[slot].key
    }

    ghost predicate Valid()
      reads this, tree, tree.txn
    {
      tree.Valid() && (valid ==> OnKey())
    }

    /** Moves on to the first entry at or after the slot, in this leaf or a later one. */
    method LoadSlot(ghost b: real, ghost strict: bool) returns (s: Status)
      requires tree.Valid() && Ahead(tree.txn.View(), tree.t.sh, leaf, slot, b, strict) && page == tree.txn.View()[leaf]
      modifies this
      ensures s == Ok && Valid() && LeastBeyond(tree.t.Map(), b, strict, valid, key)
    {
      hide Pos, Shaped, Ahead, Beyond, WriteTxn.Valid, WriteTxn.View, WriteTxn.Live;
      tree.GoodShape();
      ghost var view := tree.txn.View();
      AheadWithin(view, tree.t.sh, leaf, slot, b, strict);
      while slot >= |page.entries|
        invariant IsLeaf(view, tree.t.sh, leaf) && page == view[leaf] && slot <= |page.entries|
        invariant Ahead(view, tree.t.sh, leaf, slot, b, strict)
        decreases slot >= |page.entries|
      {
        AheadNext(view, tree.t.sh, tree.root, leaf, b, strict);
        if page.next == 0 {
          valid := false;
          return Ok;
        }
        NextIsLeaf(view, tree.t, tree.root, tree.Cap(), leaf);
        NextIsFull(view, leaf);
        leaf, slot := page.next, 0;
        s, page := tree.txn.Read(leaf);
      }
      AheadIsLeast(view, tree.t.sh, tree.root, leaf, slot, b, strict);
      key, valid, s := page.entries[slot].key, true, Ok;
    }

    lemma NextIsFull(view: Pages, p: PageNo)
      requires tree.Valid() && view == tree.txn.View() && IsLeaf(view, tree.t.sh, p)
      ensures view[p].next != 0 && IsLeaf(view, tree.t.sh, view[p].next) ==> view[view[p].next].entries != []
      ensures view[p].prev != 0 && IsLeaf(view, tree.t.sh, view[p].prev) ==> view[view[p].prev].entries != []
    {
      hide Pos;
      RootAt(view, tree.t.sh, tree.root);
      NodeAt(view, tree.t.sh, tree.root, p);
    }

    /** Moves to the least key that is not before `from`. */
    method Seek(from: Key) returns (s: Status)
      requires tree.Valid()
      modifies this
      ensures s == Ok && Valid() && LeastBeyond(tree.t.Map(), Pos(from), false, valid, key)
    {
      hide Pos, Shaped, Ahead, LowerAt, Covers, WriteTxn.Valid, WriteTxn.View, WriteTxn.Live, Good, Full;
      tree.GoodShape();
      var path;
      s, path, page := tree.FindLeaf(from);
      leaf, slot := path[|path| - 1].page, path[|path| - 1].slot;
      OnSearch(tree.txn.View(), tree.t.sh, tree.root, leaf, slot, from);
      s := LoadSlot(Pos(from), false);
    }

    method SeekFirst() returns (s: Status)
      requires tree.Valid()
      modifies this
      ensures s == Ok && Valid() && LeastBeyond(tree.t.Map(), 0.0, false, valid, key)
    {
      hide Pos, Shaped, Ahead, Behind, WriteTxn.Valid, WriteTxn.View, WriteTxn.Live, Good, Full;
      tree.GoodShape();
      ghost var view := tree.txn.View();
      var p, n := tree.root, Zeroed;
      RootAt(view, tree.t.sh, tree.root);
      while true
        invariant p in tree.t.sh.nodes && tree.t.sh.nodes[p].lo == 0.0
        decreases tree.t.sh.nodes[p].level
      {
        NodeAt(view, tree.t.sh, tree.root, p);
        s, n := tree.txn.Read(p);
        if n.Leaf? { break; }
        assert ChildOk(tree.t.sh, p, n, 0);
        p := if |n.branches| > 0 then n.branches[0].child else n.right;
      }
      page, leaf, slot := n, p, 0;
      OnFirst(view, tree.t.sh, tree.root, leaf);
      s := LoadSlot(0.0, false);
    }

    method SeekLast() returns (s: Status)
      requires tree.Valid()
      modifies this
      ensures s == Ok && Valid() && GreatestBelow(tree.t.Map(), 1.0, valid, key)
    {
      hide Pos, Shaped, Ahead, Behind, WriteTxn.Valid, WriteTxn.View, WriteTxn.Live, Good, Full;
      tree.GoodShape();
      ghost var view := tree.txn.View();
      var p, n := tree.root, Zeroed;
      RootAt(view, tree.t.sh, tree.root);
      while true
        invariant p in tree.t.sh.nodes && tree.t.sh.nodes[p].hi == 1.0
        decreases tree.t.sh.nodes[p].level
      {
        NodeAt(view, tree.t.sh, tree.root, p);
        s, n := tree.txn.Read(p);
        if n.Leaf? { break; }
        assert ChildOk(tree.t.sh, p, n, |n.branches|);
        p := n.right;
      }
      page, leaf := n, p;
      OnFirst(view, tree.t.sh, tree.root, leaf);
      if |n.entries| == 0 {
        EmptyTree(view, leaf);
        valid := false;
        return;
      }
      slot := |n.entries| - 1;
      BehindIsGreatest(view, tree.t.sh, tree.root, leaf, slot + 1, 1.0);
      key, valid := n.entries[slot].key, true;
    }

    /** Only the root is ever empty, and then it is the whole tree. */
    lemma EmptyTree(view: Pages, p: PageNo)
      requires tree.Valid() && view == tree.txn.View() && IsLeaf(view, tree.t.sh, p) && view[p].entries == []
      ensures tree.t.Map() == map[]
    {
      hide Pos;
      tree.GoodShape();
      RootAt(view, tree.t.sh, tree.root);
      NodeAt(view, tree.t.sh, tree.root, tree.root);
      forall k | k in tree.t.sh.home ensures false {
        OtherLeaf(view, tree.t.sh, tree.root, p, k);
        PosRange(k);
      }
    }

    method Next() returns (s: Status)
      requires Valid()
      modifies this
      ensures s == Ok && Valid() && (!old(valid) ==> !valid)
      ensures old(valid) ==> LeastBeyond(tree.t.Map(), Pos(old(key)), true, valid, key)
    {
      hide Pos, Shaped, Ahead, Behind, WriteTxn.Valid, WriteTxn.View, WriteTxn.Live, Good, Full;
      if !valid { return Ok; }
      tree.GoodShape();
      OnEntry(tree.txn.View(), tree.t.sh, tree.root, leaf, slot);
      slot := slot + 1;
      s := LoadSlot(Pos(key), true);
    }

    method Prev() returns (s: Status)
      requires Valid()
      modifies this
      ensures s == Ok && Valid() && (!old(valid) ==> !valid)
      ensures old(valid) ==> GreatestBelow(tree.t.Map(), Pos(old(key)), valid, key)
    {
      hide Pos, Shaped, Ahead, Behind, WriteTxn.Valid, WriteTxn.View, WriteTxn.Live, Good, Full;
      if !valid { return Ok; }
      tree.GoodShape();
      ghost var view, b := tree.txn.View(), Pos(key);
      OnEntry(view, tree.t.sh, tree.root, leaf, slot);
      while slot == 0
        invariant IsLeaf(view, tree.t.sh, leaf) && page == view[leaf] && slot <= |page.entries|
        invariant Behind(view, tree.t.sh, leaf, slot, b) && valid
        decreases slot == 0
      {
        BehindPrev(view, tree.t.sh, tree.root, leaf, b);
        if page.prev == 0 {
          valid := false;
          return Ok;
        }
        NextIsFull(view, leaf);
        leaf := page.prev;
        s, page := tree.txn.Read(leaf);
        slot := |page.entries|;
      }
      BehindIsGreatest(view, tree.t.sh, tree.root, leaf, slot, b);
      slot := slot - 1;
      key, s := page.entries[slot].key, Ok;
    }

    /** The value under the cursor, from the cell or its overflow pages. */
    method Value() returns (s: Status, value: Bytes)
      requires Valid()
      ensures s == if valid then Ok else Invalid
      ensures valid ==> key in tree.t.Map() && value == tree.t.Map()[key]
    {
      hide Pos, Shaped, WriteTxn.Valid, WriteTxn.View, WriteTxn.Live, ChainIs, Full;
      if !valid { return Invalid, []; }
      RemovedIsGood(tree.txn.View(), tree.t, tree.root, tree.Cap(), leaf, slot);
      s := Ok;
      match page.entries[slot].stored
      case Inline(bytes) => value := bytes;
      case Spilled(first, total) =>
        s, value := tree.ReadOverflow(first, total, tree.t.vals.chains[key], tree.t.vals.values[key]);
    }
  }

  // ----- whole walks

  type Pair = (Key, Bytes)

  ghost predicate Ascending(ps: seq<Pair>) { forall i, j :: 0 <= i < j < |ps| ==> Pos(ps[i].0) < Pos(ps[j].0) }

  ghost predicate Descending(ps: seq<Pair>) { forall i, j :: 0 <= i < j < |ps| ==> Pos(ps[i].0) > Pos(ps[j].0) }

  /** Exactly the entries of `m` whose keys are at or after `b`. */
  ghost predicate Lists(ps: seq<Pair>, m: map<Key, Bytes>, b: real) {
    && (forall i :: 0 <= i < |ps| ==> ps[i].0 in m && m[ps[i].0] == ps[i].1 && Pos(ps[i].0) >= b)
    && (forall k :: k in m && Pos(k) >= b ==> Has(ps, k))
  }

  ghost predicate Has(ps: seq<Pair>, k: Key) { exists i :: 0 <= i < |ps| && ps[i].0 == k }

  /** Going forward from `b`: the entries listed, and those left, from the cursor's key on. */
  ghost predicate Visited(ps: seq<Pair>, m: map<Key, Bytes>, b: real, left: set<Key>, found: bool, key: Key) {
    && Ascending(ps) && (forall i :: 0 <= i < |ps| ==> Listed(ps[i], m, b) && (found ==> Pos(ps[i].0) < Pos(key)))
    && (forall k :: k in m && Pos(k) >= b ==> Has(ps, k) || k in left)
    && (forall k :: k in left ==> k in m && Pos(k) >= b && found && Pos(key) <= Pos(k))
    && (found ==> key in left)
  }

  ghost predicate Listed(p: Pair, m: map<Key, Bytes>, b: real) { p.0 in m && m[p.0] == p.1 && Pos(p.0) >= b }

  lemma VisitFirst(m: map<Key, Bytes>, b: real, found: bool, key: Key)
    requires LeastBeyond(m, b, false, found, key)
    ensures Visited([], m, b, KeysFrom(m, b), found, key)
  {
    hide Pos;
    forall k | k in KeysFrom(m, b) ensures found && Pos(key) <= Pos(k) { assert Beyond(k, b, false); }
    assert found ==> Beyond(key, b, false);
  }

  ghost function KeysFrom(m: map<Key, Bytes>, b: real): set<Key> { set k | k in m && Pos(k) >= b }

  lemma VisitNext(ps: seq<Pair>, m: map<Key, Bytes>, b: real, left: set<Key>, key: Key, found': bool, key': Key)
    requires Visited(ps, m, b, left, true, key) && LeastBeyond(m, Pos(key), true, found', key')
    ensures Visited(ps + [(key, m[key])], m, b, left - {key}, found', key')
  {
    hide Pos, Has;
    HasMore(ps, (key, m[key]));
    forall k | k in left - {key} ensures found' && Pos(key') <= Pos(k) {
      if Pos(k) == Pos(key) { PosInjective(k, key); }
      assert Beyond(k, Pos(key), true);
    }
    if found' { NotListed(ps, m, b, left, key, key'); }
    ListedMore(ps, m, b, left, key, found', key');
  }

  lemma ListedMore(ps: seq<Pair>, m: map<Key, Bytes>, b: real, left: set<Key>, key: Key, found': bool, key': Key)
    requires Visited(ps, m, b, left, true, key) && (found' ==> Pos(key) < Pos(key'))
    ensures var ps' := ps + [(key, m[key])];
            Ascending(ps') && forall i :: 0 <= i < |ps'| ==>
                Listed(ps'[i], m, b) && (found' ==> Pos(ps'[i].0) < Pos(key'))
  {
    hide Pos, Has;
  }

  /** A key after the cursor's is not among those listed, so it is left. */
  lemma NotListed(ps: seq<Pair>, m: map<Key, Bytes>, b: real, left: set<Key>, key: Key, k: Key)
    requires Visited(ps, m, b, left, true, key) && k in m && Pos(k) > Pos(key)
    ensures k in left
  {
    hide Pos;
  }

  /** for_each, from a key on or from the start: every entry once, in key order. */
  method Forward(tree: BTree, from: Option<Key>) returns (ps: seq<Pair>)
    requires tree.Valid()
    ensures Ascending(ps) && Lists(ps, tree.t.Map(), if from.Some? then Pos(from.value) else 0.0)
  {
    hide Pos, BTree.Valid, Cursor.OnKey, Visited, LeastBeyond, Ascending, Lists;
    ghost var m, b := tree.t.Map(), if from.Some? then Pos(from.value) else 0.0;
    var c := new Cursor(tree);
    var s;
    if from.Some? { s := c.Seek(from.value); } else { s := c.SeekFirst(); }
    ps := [];
    ghost var left := KeysFrom(m, b);
    VisitFirst(m, b, c.valid, c.key);
    while c.valid
      invariant fresh(c) && c.tree == tree && c.Valid() && Visited(ps, m, b, left, c.valid, c.key)
      decreases left
    {
      var v;
      s, v := c.Value();
      ghost var key := c.key;
      KeyLeft(ps, m, b, left, key);
      ps := ps + [(c.key, v)];
      s := c.Next();
      VisitNext(ps[..|ps| - 1], m, b, left, key, c.valid, c.key);
      left := left - {key};
    }
    VisitedAll(ps, m, b, left, c.key);
  }

  lemma KeyLeft(ps: seq<Pair>, m: map<Key, Bytes>, b: real, left: set<Key>, key: Key)
    requires Visited(ps, m, b, left, true, key)
    ensures key in left
  {
  }

  lemma VisitedAll(ps: seq<Pair>, m: map<Key, Bytes>, b: real, left: set<Key>, key: Key)
    requires Visited(ps, m, b, left, false, key)
    ensures Ascending(ps) && Lists(ps, m, b)
  {
    hide Pos;
    assert left == {};
  }

  lemma HasMore(ps: seq<Pair>, p: Pair)
    ensures Has(ps + [p], p.0) && forall k :: Has(ps, k) ==> Has(ps + [p], k)
  {
    assert (ps + [p])[|ps|] == p;
    forall k | Has(ps, k) ensures Has(ps + [p], k) {
      var i :| 0 <= i < |ps| && ps[i].0 == k;
      assert (ps + [p])[i].0 == k;
    }
  }

  lemma InUnit(m: map<Key, Bytes>)
    ensures forall k :: k in m ==> 0.0 <= Pos(k) < 1.0
  {
    forall k | k in m ensures 0.0 <= Pos(k) < 1.0 { PosRange(k); }
  }

  /** The whole tree from its last entry back. */
  method Backward(tree: BTree) returns (ps: seq<Pair>)
    requires tree.Valid()
    ensures Descending(ps) && Lists(ps, tree.t.Map(), 0.0)
  {
    hide Pos, BTree.Valid, Cursor.OnKey;
    ghost var m := tree.t.Map();
    var c := new Cursor(tree);
    var s := c.SeekLast();
    ps := [];
    ghost var left := m.Keys;
    InUnit(m);
    while c.valid
      invariant fresh(c) && c.tree == tree && c.Valid() && Descending(ps)
      invariant forall i :: 0 <= i < |ps| ==> ps[i].0 in m && m[ps[i].0] == ps[i].1 && Pos(ps[i].0) >= 0.0
      invariant forall k :: k in m ==> Has(ps, k) || k in left
      invariant forall k :: k in left ==> k in m && c.valid && Pos(c.key) >= Pos(k)
      invariant c.valid ==> c.key in left && forall i :: 0 <= i < |ps| ==> Pos(ps[i].0) > Pos(c.key)
      decreases left
    {
      var v;
      s, v := c.Value();
      ghost var key, before := c.key, ps;
      ps := ps + [(c.key, v)];
      left := left - {c.key};
      s := c.Prev();
      HasMore(before, (key, v));
      forall k | k in left ensures c.valid && Pos(c.key) >= Pos(k) {
        if Pos(k) == Pos(key) { PosInjective(k, key); }
      }
    }
  }

  function Reversed(ps: seq<Pair>): (r: seq<Pair>)
    ensures |r| == |ps| && forall i :: 0 <= i < |ps| ==> r[i] == ps[|ps| - 1 - i]
  {
    if ps == [] then [] else [ps[|ps| - 1]] + Reversed(ps[..|ps| - 1])
  }

  /** There is one ascending listing of a map. */
  lemma {:induction false} AscendingUnique(a: seq<Pair>, c: seq<Pair>, m: map<Key, Bytes>, b: real, n: nat)
    requires Ascending(a) && Ascending(c) && Lists(a, m, b) && Lists(c, m, b) && n <= |a| && n <= |c|
    ensures a[..n] == c[..n]
  {
    hide Ascending, Lists;
    if n > 0 {
      AscendingUnique(a, c, m, b, n - 1);
      SameNext(a, c, m, b, n - 1);
      assert a[..n] == a[..n - 1] + [a[n - 1]] && c[..n] == c[..n - 1] + [c[n - 1]];
    }
  }

  lemma SameNext(a: seq<Pair>, c: seq<Pair>, m: map<Key, Bytes>, b: real, n: nat)
    requires Ascending(a) && Ascending(c) && Lists(a, m, b) && Lists(c, m, b) && n < |a| && n < |c| && a[..n] == c[..n]
    ensures a[n] == c[n]
  {
    hide Pos;
    NoLater(a, c, m, b, n);
    NoLater(c, a, m, b, n);
    PosInjective(a[n].0, c[n].0);
  }

  lemma NoLater(a: seq<Pair>, c: seq<Pair>, m: map<Key, Bytes>, b: real, n: nat)
    requires Ascending(a) && Ascending(c) && Lists(a, m, b) && Lists(c, m, b) && n < |a| && n < |c| && a[..n] == c[..n]
    ensures Pos(c[n].0) <= Pos(a[n].0)
  {
    hide Pos;
    assert Has(c, a[n].0);
    var i :| 0 <= i < |c| && c[i].0 == a[n].0;
    IndexAfter(a, c, n, i);
  }

  lemma IndexAfter(a: seq<Pair>, c: seq<Pair>, n: nat, i: nat)
    requires Ascending(a) && n < |a| && n <= |c| && a[..n] == c[..n] && i < |c| && c[i].0 == a[n].0
    ensures i >= n
  {
    hide Pos;
    assert forall k :: 0 <= k < n ==> c[k] == a[..n][k];
  }

  /** What comes after a shared prefix is not in it. */
  lemma NotBefore(a: seq<Pair>, c: seq<Pair>)
    requires Ascending(a) && |c| <= |a| && a[..|c|] == c
    ensures |c| < |a| ==> !Has(c, a[|c|].0)
  {
    hide Pos;
    assert forall i :: 0 <= i < |c| ==> c[i] == a[..|c|][i];
  }

  lemma AscendingSame(a: seq<Pair>, c: seq<Pair>, m: map<Key, Bytes>, b: real)
    requires Ascending(a) && Ascending(c) && Lists(a, m, b) && Lists(c, m, b)
    ensures a == c
  {
    hide Pos, Has;
    if |c| <= |a| {
      AscendingUnique(a, c, m, b, |c|);
      assert c[..|c|] == c;
      NotBefore(a, c);
    } else {
      AscendingUnique(a, c, m, b, |a|);
      assert a[..|a|] == a;
      NotBefore(c, a);
    }
  }

  lemma ReversedLists(down: seq<Pair>, m: map<Key, Bytes>)
    requires Descending(down) && Lists(down, m, 0.0)
    ensures Ascending(Reversed(down)) && Lists(Reversed(down), m, 0.0)
  {
    hide Pos, Reversed;
    var r := Reversed(down);
    forall k | k in m && Pos(k) >= 0.0 ensures Has(r, k) {
      assert Has(down, k);
      var i :| 0 <= i < |down| && down[i].0 == k;
      assert r[|down| - 1 - i].0 == k;
    }
  }

  /** The backward walk is the forward walk reversed. */
  lemma BackwardIsReversed(up: seq<Pair>, down: seq<Pair>, m: map<Key, Bytes>)
    requires Ascending(up) && Lists(up, m, 0.0) && Descending(down) && Lists(down, m, 0.0)
    ensures down == Reversed(up)
  {
    hide Ascending, Descending, Lists, Reversed;
    ReversedLists(down, m);
    AscendingSame(up, Reversed(down), m, 0.0);
    assert Reversed(Reversed(down)) == down;
  }

  lemma AheadWithin(pages: Pages, sh: Shape, p: PageNo, slot: nat, b: real, strict: bool)
    requires Ahead(pages, sh, p, slot, b, strict)
    ensures IsLeaf(pages, sh, p) && slot <= |pages[p].entries|
  {
  }
}
