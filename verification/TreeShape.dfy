/** The structure of a B+tree over pages (engine/src/engine/btree.cpp), and what each
    rearrangement of it keeps.

    A `Shape` is the bookkeeping that the pages leave implicit: for every node the
    interval of key positions it answers for, its parent and its level; for every
    separator the node that holds it; for every key the leaf it lives in, its cell, its
    value and its overflow pages. `Shaped` ties the pages to a shape node by node. */
module TreeShape {
  import opened PageFormat
  import opened KeyOrder
  import opened Pager

  /** Keys at or above `lo` and below `hi` belong under this node. */
  datatype Info = Info(lo: real, hi: real, level: nat, parent: PageNo)

  datatype Shape = Shape(
    nodes: map<PageNo, Info>,
    seps: map<real, PageNo>,
    home: map<Key, PageNo>,
    cells: map<Key, Stored>)

  function Child(n: Content, i: nat): PageNo
    requires n.Interior? && i <= |n.branches|
  {
    if i < |n.branches| then n.branches[i].child else n.right
  }

  predicate IsChild(n: Content, c: PageNo)
    requires n.Interior?
  {
    exists i: nat :: i <= |n.branches| && Child(n, i) == c
  }

  ghost function LoAt(n: Content, info: Info, i: nat): real
    requires n.Interior? && i <= |n.branches|
  {
    if i == 0 then info.lo else Pos(n.branches[i - 1].key)
  }

  ghost function HiAt(n: Content, info: Info, i: nat): real
    requires n.Interior? && i <= |n.branches|
  {
    if i == |n.branches| then info.hi else Pos(n.branches[i].key)
  }

  /** The interval is the parent's, cut at the separators around it. */
  ghost predicate ChildOk(sh: Shape, p: PageNo, n: Content, i: nat)
    requires n.Interior? && i <= |n.branches| && p in sh.nodes
  {
    var c := Child(n, i);
    && c in sh.nodes && sh.nodes[c].parent == p && sh.nodes[c].level < sh.nodes[p].level
    && sh.nodes[c].lo == LoAt(n, sh.nodes[p], i) && sh.nodes[c].hi == HiAt(n, sh.nodes[p], i)
  }

  ghost predicate SepOk(sh: Shape, p: PageNo, t: real)
    requires p in sh.nodes
  {
    sh.nodes[p].lo < t < sh.nodes[p].hi && t in sh.seps && sh.seps[t] == p
  }

  ghost predicate InteriorOk(sh: Shape, p: PageNo, n: Content)
    requires n.Interior? && p in sh.nodes
  {
    && (forall i, j :: 0 <= i < j < |n.branches| ==> Pos(n.branches[i].key) < Pos(n.branches[j].key))
    && (forall i :: 0 <= i < |n.branches| ==> SepOk(sh, p, Pos(n.branches[i].key)))
    && (forall i: nat :: i <= |n.branches| ==> ChildOk(sh, p, n, i))
  }

  ghost predicate EntryOk(sh: Shape, p: PageNo, e: Entry)
    requires p in sh.nodes
  {
    && sh.nodes[p].lo <= Pos(e.key) < sh.nodes[p].hi
    && e.key in sh.cells && sh.cells[e.key] == e.stored
    && e.key in sh.home && sh.home[e.key] == p
  }

  ghost predicate SortedEntries(es: seq<Entry>) {
    forall i, j :: 0 <= i < j < |es| ==> Pos(es[i].key) < Pos(es[j].key)
  }

  ghost predicate LeafOk(sh: Shape, p: PageNo, n: Content)
    requires n.Leaf? && p in sh.nodes
  {
    SortedEntries(n.entries) && forall i :: 0 <= i < |n.entries| ==> EntryOk(sh, p, n.entries[i])
  }

  /** A leaf is linked to the leaves whose intervals meet its own. */
  ghost predicate LinkOk(pages: Pages, sh: Shape, p: PageNo, n: Content)
    requires n.Leaf? && p in sh.nodes
  {
    && (n.next == 0 <==> sh.nodes[p].hi == 1.0)
    && (n.prev == 0 <==> sh.nodes[p].lo == 0.0)
    && (n.next != 0 ==> IsLeaf(pages, sh, n.next) && sh.nodes[n.next].lo == sh.nodes[p].hi && pages[n.next].prev == p)
    && (n.prev != 0 ==> IsLeaf(pages, sh, n.prev) && sh.nodes[n.prev].hi == sh.nodes[p].lo && pages[n.prev].next == p)
  }

  predicate IsLeaf(pages: Pages, sh: Shape, p: PageNo) { p in sh.nodes && p in pages && pages[p].Leaf? }

  predicate IsInterior(pages: Pages, sh: Shape, p: PageNo) { p in sh.nodes && p in pages && pages[p].Interior? }

  ghost predicate NodeOk(pages: Pages, sh: Shape, p: PageNo)
    requires p in sh.nodes
  {
    && p != 0 && p in pages && 0.0 <= sh.nodes[p].lo < sh.nodes[p].hi <= 1.0
    && match pages[p]
       case Leaf(_, _, _) => LeafOk(sh, p, pages[p]) && LinkOk(pages, sh, p, pages[p])
       case Interior(_, _) => InteriorOk(sh, p, pages[p])
       case _ => false
  }

  /** Every node but the root hangs under its parent. */
  predicate ParentOk(pages: Pages, sh: Shape, p: PageNo)
    requires p in sh.nodes
  {
    var q := sh.nodes[p].parent;
    IsInterior(pages, sh, q) && IsChild(pages[q], p)
  }

  ghost predicate Apart(a: Info, b: Info) { a.hi <= b.lo || b.hi <= a.lo }

  predicate HasKey(es: seq<Entry>, k: Key) { exists i :: 0 <= i < |es| && es[i].key == k }

  ghost predicate KeyOk(pages: Pages, sh: Shape, k: Key)
    requires k in sh.home
  {
    IsLeaf(pages, sh, sh.home[k]) && HasKey(pages[sh.home[k]].entries, k)
  }

  ghost predicate Shaped(pages: Pages, sh: Shape, root: PageNo) {
    && root in sh.nodes && sh.nodes[root].lo == 0.0 && sh.nodes[root].hi == 1.0 && sh.nodes[root].parent == 0
    && (forall p :: p in sh.nodes ==> NodeOk(pages, sh, p))
    && (forall p :: p in sh.nodes && p != root ==> ParentOk(pages, sh, p))
    && LeavesApart(pages, sh)
    && (forall k :: k in sh.home ==> KeyOk(pages, sh, k))
    && sh.home.Keys == sh.cells.Keys
  }

  /** Leaves do not overlap each other, nor contain a separator. */
  ghost predicate LeavesApart(pages: Pages, sh: Shape) {
    && (forall p, q :: IsLeaf(pages, sh, p) && IsLeaf(pages, sh, q) && p != q ==> Apart(sh.nodes[p], sh.nodes[q]))
    && (forall p, t :: IsLeaf(pages, sh, p) && t in sh.seps ==> t <= sh.nodes[p].lo || sh.nodes[p].hi <= t)
  }

  // ----- descent

  /** A key that is in the tree is in the leaf whose interval holds its position. */
  lemma HomeIsCovering(pages: Pages, sh: Shape, root: PageNo, p: PageNo, k: Key)
    requires Shaped(pages, sh, root) && IsLeaf(pages, sh, p) && sh.nodes[p].lo <= Pos(k) < sh.nodes[p].hi
    ensures k in sh.home ==> sh.home[k] == p
    ensures k in sh.home <==> HasKey(pages[p].entries, k)
  {
    hide Pos, InteriorOk, LinkOk, ParentOk;
    assert NodeOk(pages, sh, p);
    if k in sh.home {
      var q := sh.home[k];
      assert KeyOk(pages, sh, k) && NodeOk(pages, sh, q);
      var i :| 0 <= i < |pages[q].entries| && pages[q].entries[i].key == k;
      assert EntryOk(sh, q, pages[q].entries[i]);
    }
    if HasKey(pages[p].entries, k) {
      var i :| 0 <= i < |pages[p].entries| && pages[p].entries[i].key == k;
      assert EntryOk(sh, p, pages[p].entries[i]);
    }
  }
}
