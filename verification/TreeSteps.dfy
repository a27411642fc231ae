/** The rearrangements applied along the path of a search, with what they do to the map. */
module TreeSteps {
  import opened PageFormat
  import opened KeyOrder
  import opened Pager
  import opened TreeShape
  import opened TreeMoves
  import opened TreeShrink
  import opened TreeState

  /** For an interior node: the slot descended through. For the leaf: the first key not below. */
  datatype Step = Step(page: PageNo, slot: nat)

  ghost predicate PathTo(pages: Pages, sh: Shape, root: PageNo, path: seq<Step>, d: nat) {
    && d < |path| && path[0].page == root
    && forall i :: 0 <= i < d ==> Under(pages, sh, path[i + 1].page, path[i].page, path[i].slot)
  }

  /** Nodes of a path are on different levels. */
  lemma {:induction false} PathLevels(pages: Pages, sh: Shape, root: PageNo, path: seq<Step>, d: nat, i: nat)
    requires Shaped(pages, sh, root) && PathTo(pages, sh, root, path, d) && i <= d
    ensures path[i].page in sh.nodes && path[d].page in sh.nodes
    ensures i < d ==> sh.nodes[path[i].page].level > sh.nodes[path[d].page].level
    decreases d
  {
    hide Shaped;
    RootAt(pages, sh, root);
    if d > 0 {
      PathLevels(pages, sh, root, path, d - 1, if i < d then i else 0);
      assert Under(pages, sh, path[d - 1 + 1].page, path[d - 1].page, path[d - 1].slot);
      if path[d].page != root { LevelBelow(pages, sh, root, path[d].page); }
    }
  }

  // ----- an interior node splits

  /** Under its parent: what is left to do is the separator in the parent. */
  lemma SplitInterior(pages: Pages, t: Tree, root: PageNo, cap: nat, path: seq<Step>, d: nat, m: nat, r: PageNo)
    returns (t': Tree)
    requires cap > 0 && Good(pages, t, root, cap) && PathTo(pages, t.sh, root, path, d) && d > 0
    requires IsInterior(pages, t.sh, path[d].page) && m < |pages[path[d].page].branches| && r != 0
    requires r !in t.Footprint()
    ensures var p, up, slot := path[d].page, path[d - 1].page, path[d - 1].slot;
            var n := pages[p];
            && up != p && p != root && IsInterior(pages, t.sh, up) && slot <= |pages[up].branches|
            && var pages' :=
               pages[p := Interior(n.branches[..m], n.branches[m].child)][r := Interior(n.branches[m + 1..], n.right)]
                                  [up := Inserted(pages[up], slot, n.branches[m].key, r)];
               && Good(pages', t', root, cap) && PathTo(pages', t'.sh, root, path, d - 1)
               && (Full(pages, t, root, 0) ==> Full(pages', t', root, 0))
    ensures t'.vals == t.vals && t'.sh.nodes.Keys == t.sh.nodes.Keys + {r}
  {
    hide Shaped, ValuesOk, Pos;
    var p, up, slot := path[d].page, path[d - 1].page, path[d - 1].slot;
    assert Under(pages, t.sh, path[d - 1 + 1].page, path[d - 1].page, path[d - 1].slot);
    PathLevels(pages, t.sh, root, path, d, d - 1);
    PathLevels(pages, t.sh, root, path, d, 0);
    var x := InteriorSplit(pages, t.sh, root, p, m, r, up, slot);
    x.Keeps();
    forall q | q in t.vals.spill ensures q !in x.Shape'().nodes && q in x.Pages'() && x.Pages'()[q] == pages[q] {
      SpillApart(pages, t, root, cap, q);
    }
    MoveGood(pages, t, x.Pages'(), x.Shape'(), root, cap);
    t' := Tree(x.Shape'(), t.vals);
    forall i | 0 <= i < d - 1 ensures Under(x.Pages'(), t'.sh, path[i + 1].page, path[i].page, path[i].slot) {
      assert Under(pages, t.sh, path[i + 1].page, path[i].page, path[i].slot);
      PathLevels(pages, t.sh, root, path, d, i);
      PathLevels(pages, t.sh, root, path, d, i + 1);
      PathLevels(pages, t.sh, root, path, d - 1, i);
    }
  }

  /** The root: its content goes down to `l` first, and that is split. */
  lemma SplitRoot(pages: Pages, t: Tree, root: PageNo, cap: nat, m: nat, r: PageNo, l: PageNo) returns (t': Tree)
    requires cap > 0 && Good(pages, t, root, cap)
    requires IsInterior(pages, t.sh, root) && m < |pages[root].branches|
    requires r != 0 && r !in t.Footprint() && l != 0 && l !in t.Footprint() && l != r
    ensures var n := pages[root];
            var pages' := pages[l := Interior(n.branches[..m], n.branches[m].child)][r :=
                                                                                     Interior(n.branches[m + 1..],
                                                                                              n.right)]
                               [root := Interior([Branch(n.branches[m].key, l)], r)];
            && Good(pages', t', root, cap)
            && (Full(pages, t, root, 0) ==> Full(pages', t', root, 0))
    ensures t'.vals == t.vals && t'.sh.nodes.Keys == t.sh.nodes.Keys + {r, l}
  {
    hide Shaped, ValuesOk, Pos;
    var n := pages[root];
    var x := PushDown(pages, t.sh, root, l);
    x.Keeps();
    var pages1, t1 := x.Pages'(), Tree(x.Shape'(), t.vals);
    forall q | q in t.vals.spill ensures q !in t1.sh.nodes && q in pages1 && pages1[q] == pages[q] {
      SpillApart(pages, t, root, cap, q);
    }
    MoveGood(pages, t, pages1, t1.sh, root, cap);
    var path := [Step(root, 0), Step(l, 0)];
    assert Under(pages1, t1.sh, l, root, 0);
    t' := SplitInterior(pages1, t1, root, cap, path, 1, m, r);
    assert Inserted(pages1[root], 0, n.branches[m].key, r) == Interior([Branch(n.branches[m].key, l)], r);
    assert pages1[l := Interior(n.branches[..m], n.branches[m].child)][r := Interior(n.branches[m + 1..], n.right)]
                 [root := Interior([Branch(n.branches[m].key, l)], r)]
        == pages[l := Interior(n.branches[..m], n.branches[m].child)][r := Interior(n.branches[m + 1..], n.right)]
                [root := Interior([Branch(n.branches[m].key, l)], r)];
  }

  // ----- a leaf splits

  /** The halves of leaf content `n` on pages `l` and `r`, and the leaf after them pointing back. */
  function Halved(pages: Pages, n: Content, at: nat, l: PageNo, r: PageNo): Pages
    requires n.Leaf? && at <= |n.entries|
    requires n.next != 0 ==> n.next in pages && pages[n.next].Leaf?
  {
    var base := if n.next == 0 then pages else pages[n.next := pages[n.next].(prev := r)];
    base[l := Leaf(n.entries[..at], n.prev, r)][r := Leaf(n.entries[at..], l, n.next)]
  }

  lemma NextIsLeaf(pages: Pages, t: Tree, root: PageNo, cap: nat, p: PageNo)
    requires cap > 0 && Good(pages, t, root, cap) && IsLeaf(pages, t.sh, p)
    ensures pages[p].next != 0 ==> IsLeaf(pages, t.sh, pages[p].next) && pages[p].next != p
    ensures pages[p].prev != 0 ==> IsLeaf(pages, t.sh, pages[p].prev) && pages[p].prev != p
    ensures p == root ==> pages[p].next == 0 && pages[p].prev == 0
    ensures pages[p].prev != 0 ==> pages[p].prev != pages[p].next
  {
    hide Shaped, ValuesOk, Pos;
    RootAt(pages, t.sh, root);
    NodeAt(pages, t.sh, root, p);
    if pages[p].next != 0 { NodeAt(pages, t.sh, root, pages[p].next); }
    if pages[p].prev != 0 { NodeAt(pages, t.sh, root, pages[p].prev); }
  }

  lemma SplitLeaf(pages: Pages, t: Tree, root: PageNo, cap: nat, path: seq<Step>, d: nat, at: nat, r: PageNo)
    returns (t': Tree)
    requires cap > 0 && Good(pages, t, root, cap) && PathTo(pages, t.sh, root, path, d) && d > 0
    requires IsLeaf(pages, t.sh, path[d].page) && 0 < at < |pages[path[d].page].entries| && r != 0
    requires r !in t.Footprint()
    requires pages[path[d].page].next != 0 ==> IsLeaf(pages, t.sh, pages[path[d].page].next)
    ensures var p, up, slot := path[d].page, path[d - 1].page, path[d - 1].slot;
            && IsInterior(pages, t.sh, up) && slot <= |pages[up].branches| && p != root
            && var pages' :=
               Halved(pages, pages[p], at, p, r)[up := Inserted(pages[up], slot, pages[p].entries[at].key, r)];
               && Good(pages', t', root, cap) && PathTo(pages', t'.sh, root, path, d - 1)
               && (Full(pages, t, root, 0) ==> Full(pages', t', root, 0))
    ensures t'.vals == t.vals && t'.sh.nodes.Keys == t.sh.nodes.Keys + {r}
  {
    hide Shaped, ValuesOk, Pos;
    var p, up, slot := path[d].page, path[d - 1].page, path[d - 1].slot;
    assert Under(pages, t.sh, path[d - 1 + 1].page, path[d - 1].page, path[d - 1].slot);
    PathLevels(pages, t.sh, root, path, d, d - 1);
    PathLevels(pages, t.sh, root, path, d, 0);
    var x := LeafSplit(pages, t.sh, root, p, at, r, up, slot);
    x.Keeps();
    forall q | q in t.vals.spill ensures q !in x.Shape'().nodes && q in x.Pages'() && x.Pages'()[q] == pages[q] {
      SpillApart(pages, t, root, cap, q);
    }
    MoveGood(pages, t, x.Pages'(), x.Shape'(), root, cap);
    t' := Tree(x.Shape'(), t.vals);
    forall i | 0 <= i < d - 1 ensures Under(x.Pages'(), t'.sh, path[i + 1].page, path[i].page, path[i].slot) {
      assert Under(pages, t.sh, path[i + 1].page, path[i].page, path[i].slot);
      PathLevels(pages, t.sh, root, path, d, i);
      PathLevels(pages, t.sh, root, path, d, i + 1);
      PathLevels(pages, t.sh, root, path, d - 1, i);
    }
    assert x.Pages'()
      == Halved(pages, pages[p], at, p, r)[up := Inserted(pages[up], slot, pages[p].entries[at].key, r)];
  }

  lemma SplitRootLeaf(pages: Pages, t: Tree, root: PageNo, cap: nat, at: nat, r: PageNo, l: PageNo) returns (t': Tree)
    requires cap > 0 && Good(pages, t, root, cap) && IsLeaf(pages, t.sh, root) && 0 < at < |pages[root].entries|
    requires r != 0 && r !in t.Footprint() && l != 0 && l !in t.Footprint() && l != r
    ensures pages[root].next == 0
    ensures var pages' :=
            Halved(pages, pages[root], at, l, r)[root := Interior([Branch(pages[root].entries[at].key, l)], r)];
            Good(pages', t', root, cap) && (Full(pages, t, root, 0) ==> Full(pages', t', root, 0))
    ensures t'.vals == t.vals && t'.sh.nodes.Keys == t.sh.nodes.Keys + {r, l}
  {
    hide Shaped, ValuesOk, Pos;
    NextIsLeaf(pages, t, root, cap, root);
    var n := pages[root];
    var x := PushDown(pages, t.sh, root, l);
    x.Keeps();
    var pages1, t1 := x.Pages'(), Tree(x.Shape'(), t.vals);
    forall q | q in t.vals.spill ensures q !in t1.sh.nodes && q in pages1 && pages1[q] == pages[q] {
      SpillApart(pages, t, root, cap, q);
    }
    MoveGood(pages, t, pages1, t1.sh, root, cap);
    var path := [Step(root, 0), Step(l, 0)];
    assert Under(pages1, t1.sh, l, root, 0);
    t' := SplitLeaf(pages1, t1, root, cap, path, 1, at, r);
    var up := Interior([Branch(n.entries[at].key, l)], r);
    assert Inserted(pages1[root], 0, n.entries[at].key, r) == up;
    assert Halved(pages1, n, at, l, r)[root := up] == Halved(pages, n, at, l, r)[root := up];
  }

  // ----- an empty leaf goes

  /** The leaves before and after leaf content `n` point at each other. */
  function Unlinked(pages: Pages, n: Content): Pages
    requires n.Leaf?
    requires n.next != 0 ==> n.next in pages && pages[n.next].Leaf?
    requires n.prev != 0 ==> n.prev in pages && pages[n.prev].Leaf?
  {
    var linked := if n.prev == 0 then pages
      else pages[n.prev := Leaf(pages[n.prev].entries, pages[n.prev].prev, n.next)];
    if n.next == 0 then linked else linked[n.next := Leaf(pages[n.next].entries, n.prev, pages[n.next].next)]
  }

  lemma TakeOut(pages: Pages, t: Tree, root: PageNo, cap: nat, x: PageNo, path: seq<Step>, d: nat) returns (t': Tree)
    requires cap > 0 && Good(pages, t, root, cap) && PathTo(pages, t.sh, root, path, d) && Full(pages, t, root, x)
    requires IsLeaf(pages, t.sh, x) && pages[x].entries == [] && Under(pages, t.sh, x, path[d].page, path[d].slot)
    requires pages[path[d].page].branches != []
    requires pages[x].next != 0 ==> IsLeaf(pages, t.sh, pages[x].next)
    requires pages[x].prev != 0 ==> IsLeaf(pages, t.sh, pages[x].prev)
    ensures var up := path[d].page;
            var pages' := Unlinked(pages, pages[x])[up := Without(pages[up], path[d].slot)];
            Good(pages', t', root, cap) && PathTo(pages', t'.sh, root, path, d) && Full(pages', t', root, 0)
              && IsInterior(pages', t'.sh, up)
    ensures t'.vals == t.vals && t'.sh.nodes.Keys == t.sh.nodes.Keys - {x}
  {
    hide Shaped, ValuesOk, Pos;
    var up, slot := path[d].page, path[d].slot;
    RootAt(pages, t.sh, root);
    LevelsDiffer(pages, t.sh, root, x, up, slot);
    var y := LeafRemoval(pages, t.sh, root, x, up, slot);
    y.Keeps();
    forall q | q in t.vals.spill ensures q !in y.Shape'().nodes && q in y.Pages'() && y.Pages'()[q] == pages[q] {
      SpillApart(pages, t, root, cap, q);
    }
    MoveGood(pages, t, y.Pages'(), y.Shape'(), root, cap);
    t' := Tree(y.Shape'(), t.vals);
    forall i | 0 <= i < d ensures Under(y.Pages'(), t'.sh, path[i + 1].page, path[i].page, path[i].slot) {
      assert Under(pages, t.sh, path[i + 1].page, path[i].page, path[i].slot);
      PathLevels(pages, t.sh, root, path, d, i);
    }
    assert y.Pages'() == Unlinked(pages, pages[x])[up := Without(pages[up], slot)];
  }

  lemma LevelsDiffer(pages: Pages, sh: Shape, root: PageNo, x: PageNo, up: PageNo, slot: nat)
    requires Shaped(pages, sh, root) && Under(pages, sh, x, up, slot)
    ensures x != up && x != root
  {
    hide Shaped, Pos;
    RootAt(pages, sh, root);
    NodeAt(pages, sh, root, up);
    assert ChildOk(sh, up, pages[up], slot);
  }

  /** A node on the path with one child is replaced by it. */
  lemma CollapseInto(pages: Pages, t: Tree, root: PageNo, cap: nat, path: seq<Step>, d: nat) returns (t': Tree)
    requires cap > 0 && Good(pages, t, root, cap) && PathTo(pages, t.sh, root, path, d) && d > 0
    requires IsInterior(pages, t.sh, path[d].page) && pages[path[d].page].branches == []
    ensures var p, up, slot := path[d].page, path[d - 1].page, path[d - 1].slot;
            && IsInterior(pages, t.sh, up) && slot <= |pages[up].branches| && p != root && p != up
            && var pages' := pages[up := WithChild(pages[up], slot, pages[p].right)];
               && Good(pages', t', root, cap) && PathTo(pages', t'.sh, root, path, d - 1)
               && Under(pages', t'.sh, pages[p].right, up, slot) && pages[p].right != up
               && (forall x :: Full(pages, t, root, x) ==> Full(pages', t', root, x))
    ensures t'.vals == t.vals && t'.sh.nodes.Keys == t.sh.nodes.Keys - {path[d].page}
  {
    hide Shaped, ValuesOk, Pos;
    var p, up, slot := path[d].page, path[d - 1].page, path[d - 1].slot;
    assert Under(pages, t.sh, path[d - 1 + 1].page, path[d - 1].page, path[d - 1].slot);
    NodeAt(pages, t.sh, root, p);
    assert ChildOk(t.sh, p, pages[p], 0);
    LevelsDiffer(pages, t.sh, root, p, up, slot);
    var y := Collapse(pages, t.sh, root, p, up, slot);
    y.Edge();
    y.Keeps();
    forall q | q in t.vals.spill ensures q !in y.Shape'().nodes && q in y.Pages'() && y.Pages'()[q] == pages[q] {
      SpillApart(pages, t, root, cap, q);
    }
    MoveGood(pages, t, y.Pages'(), y.Shape'(), root, cap);
    t' := Tree(y.Shape'(), t.vals);
    forall i | 0 <= i < d - 1 ensures Under(y.Pages'(), t'.sh, path[i + 1].page, path[i].page, path[i].slot) {
      assert Under(pages, t.sh, path[i + 1].page, path[i].page, path[i].slot);
      PathLevels(pages, t.sh, root, path, d, i);
      PathLevels(pages, t.sh, root, path, d, i + 1);
      PathLevels(pages, t.sh, root, path, d - 1, i);
    }
  }

  /** The root with one child takes its content. */
  lemma RootCollapse(pages: Pages, t: Tree, root: PageNo, cap: nat) returns (t': Tree)
    requires cap > 0 && Good(pages, t, root, cap) && IsInterior(pages, t.sh, root) && pages[root].branches == []
    ensures var only := pages[root].right;
            && only in t.sh.nodes && only in pages && only != root
            && var pages' := pages[root := pages[only]];
               Good(pages', t', root, cap)
                 && (forall x :: Full(pages, t, root, x) ==>
                       Full(pages', t', root, x) && (x == only ==> Full(pages', t', root, 0)))
    ensures t'.vals == t.vals && t'.sh.nodes.Keys == t.sh.nodes.Keys - {pages[root].right}
  {
    hide Shaped, ValuesOk, Pos;
    NodeAt(pages, t.sh, root, root);
    assert ChildOk(t.sh, root, pages[root], 0);
    NodeAt(pages, t.sh, root, pages[root].right);
    var y := PullUp(pages, t.sh, root);
    y.Edge();
    y.Keeps();
    forall q | q in t.vals.spill ensures q !in y.Shape'().nodes && q in y.Pages'() && y.Pages'()[q] == pages[q] {
      SpillApart(pages, t, root, cap, q);
    }
    MoveGood(pages, t, y.Pages'(), y.Shape'(), root, cap);
    t' := Tree(y.Shape'(), t.vals);
  }
}
