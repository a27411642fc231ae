/** The rearrangements of erasing (erase and remove_child in engine/src/engine/btree.cpp),
    and the root pushed down or pulled up. */
module TreeShrink {
  import opened PageFormat
  import opened KeyOrder
  import opened Pager
  import opened TreeShape
  import opened TreeMoves

  // ----- a child goes out

  /** remove_child's edit: the child at `slot` is dropped with a separator next to it. */
  function Without(n: Content, slot: nat): (r: Content)
    requires n.Interior? && slot <= |n.branches| && n.branches != []
    ensures r.Interior? && |r.branches| == |n.branches| - 1
  {
    if slot < |n.branches| then
      Interior(n.branches[..slot] + n.branches[slot + 1..], n.right)
    else
      Interior(n.branches[..|n.branches| - 1], n.branches[|n.branches| - 1].child)
  }

  lemma WithoutAt(n: Content, slot: nat)
    requires n.Interior? && slot <= |n.branches| && n.branches != []
    ensures var r := Without(n, slot);
            forall i :: 0 <= i < |r.branches| ==>
                r.branches[i].key == if i < slot then n.branches[i].key else n.branches[i + 1].key
    ensures forall i: nat :: i < |n.branches| ==> Child(Without(n, slot), i) == Child(n, if i < slot then i else i + 1)
  {
    var r := Without(n, slot);
    forall i: nat | i < |n.branches| ensures Child(r, i) == Child(n, if i < slot then i else i + 1) {
      if i < |r.branches| { assert r.branches[i] == if i < slot then n.branches[i] else n.branches[i + 1]; }
    }
  }

  /** Empty leaf `x`, at `slot` of its parent `up`, is taken out of the tree and of the chain of leaves. Its
      interval passes to the nodes that began where it ended, or, if it was the last child, to those that
      ended where it began. */
  datatype LeafRemoval = LeafRemoval(pages: Pages, sh: Shape, root: PageNo, x: PageNo, up: PageNo, slot: nat)
  {
    ghost predicate Sites() {
      && IsLeaf(pages, sh, x) && x != root && pages[x].entries == []
      && Under(pages, sh, x, up, slot) && pages[up].branches != []
      && (pages[x].next != 0 ==> IsLeaf(pages, sh, pages[x].next))
      && (pages[x].prev != 0 ==> IsLeaf(pages, sh, pages[x].prev))
    }

    ghost predicate Can() { Shaped(pages, sh, root) && Sites() }

    ghost predicate Upward() requires Sites() { slot < |pages[up].branches| }

    ghost function Gone(): real requires Sites() { if Upward() then sh.nodes[x].hi else sh.nodes[x].lo }

    ghost function Span(i: Info): Info
      requires Sites()
    {
      if Upward() then (if i.lo == Gone() then i.(lo := sh.nodes[x].lo) else i)
      else (if i.hi == Gone() then i.(hi := sh.nodes[x].hi) else i)
    }

    ghost function Pages'(): Pages
      requires Sites()
    {
      var n := pages[x];
      var linked := if n.prev == 0 then pages
        else pages[n.prev := Leaf(pages[n.prev].entries, pages[n.prev].prev, n.next)];
      var unlinked := if n.next == 0 then linked
        else linked[n.next := Leaf(pages[n.next].entries, n.prev, pages[n.next].next)];
      unlinked[up := Without(pages[up], slot)]
    }

    ghost function Shape'(): Shape
      requires Sites()
    {
      Shape(map q | q in sh.nodes.Keys - {x} :: Span(sh.nodes[q]), map t | t in sh.seps && t != Gone() ::
              sh.seps[t], sh.home, sh.cells)
    }

    /** Where the leaf meets its neighbour is a separator, and only its parent has it. */
    lemma Edge()
      requires Can()
      ensures var n := pages[up];
              && Gone() == Pos(n.branches[if Upward() then slot else slot - 1].key)
              && Gone() in sh.seps && sh.seps[Gone()] == up
              && LoAt(n, sh.nodes[up], slot) == sh.nodes[x].lo && HiAt(n, sh.nodes[up], slot) == sh.nodes[x].hi
      ensures 0.0 <= sh.nodes[x].lo < sh.nodes[x].hi <= 1.0 && 0.0 <= sh.nodes[up].lo < Gone() < sh.nodes[up].hi <= 1.0
      ensures x != up
    {
      hide Pos, Shaped;
      NodeAt(pages, sh, root, x);
      NodeAt(pages, sh, root, up);
      assert ChildOk(sh, up, pages[up], slot);
      assert SepOk(sh, up, Pos(pages[up].branches[if Upward() then slot else slot - 1].key));
    }

    lemma AtInterior(q: PageNo)
      requires Can() && IsInterior(pages, sh, q) && q != up
      ensures InteriorOk(Shape'(), q, pages[q])
    {
      hide Pos, Shaped;
      Edge();
      NodeAt(pages, sh, root, q);
      var n, sh' := pages[q], Shape'();
      forall i: nat | i <= |n.branches| ensures ChildOk(sh', q, n, i) {
        assert ChildOk(sh, q, n, i);
        if i > 0 { assert SepOk(sh, q, Pos(n.branches[i - 1].key)); }
        if i < |n.branches| { assert SepOk(sh, q, Pos(n.branches[i].key)); }
      }
      forall i | 0 <= i < |n.branches|
        ensures SepOk(sh', q, Pos(n.branches[i].key))
      {
        assert SepOk(sh, q, Pos(n.branches[i].key));
      }
    }

    lemma UpChild(i: nat)
      requires Can() && i < |pages[up].branches|
      ensures ChildOk(Shape'(), up, Without(pages[up], slot), i)
    {
      hide Pos, Shaped;
      Edge();
      NodeAt(pages, sh, root, up);
      WithoutAt(pages[up], slot);
      assert ChildOk(sh, up, pages[up], if i < slot then i else i + 1);
      assert ChildOk(sh, up, pages[up], slot);
      if i > 0 { assert SepOk(sh, up, Pos(pages[up].branches[i - 1].key)); }
      assert SepOk(sh, up, Pos(pages[up].branches[i].key));
      if i + 1 < |pages[up].branches| { assert SepOk(sh, up, Pos(pages[up].branches[i + 1].key)); }
    }

    lemma AtUp()
      requires Can()
      ensures InteriorOk(Shape'(), up, Without(pages[up], slot))
    {
      hide Pos, Shaped, ChildOk;
      Edge();
      NodeAt(pages, sh, root, up);
      WithoutAt(pages[up], slot);
      var n, n' := pages[up], Without(pages[up], slot);
      forall i: nat | i <= |n'.branches| ensures ChildOk(Shape'(), up, n', i) { UpChild(i); }
      forall i | 0 <= i < |n'.branches| ensures SepOk(Shape'(), up, Pos(n'.branches[i].key)) {
        assert SepOk(sh, up, Pos(n.branches[i].key)) && SepOk(sh, up, Pos(n.branches[i + 1].key));
      }
    }

    lemma LeafSpans(q: PageNo)
      requires Can() && IsLeaf(pages, sh, q) && q != x
      ensures LeafOk(Shape'(), q, pages[q])
      ensures var i, i' := sh.nodes[q], Shape'().nodes[q];
              && i'.lo == (if Upward() && pages[x].next == q then sh.nodes[x].lo else i.lo)
              && i'.hi == (if !Upward() && pages[x].prev == q then sh.nodes[x].hi else i.hi)
    {
      hide Pos, LeafOk, NodeOk, ParentOk, KeyOk;
      Edge();
      assert NodeOk(pages, sh, q) && NodeOk(pages, sh, x);
      LeafNode(pages, sh, q);
      LeafNode(pages, sh, x);
      assert Apart(sh.nodes[q], sh.nodes[x]);
      var y := if Upward() then pages[x].next else pages[x].prev;
      if y != q {
        assert NodeOk(pages, sh, y);
        LeafNode(pages, sh, y);
        assert Apart(sh.nodes[q], sh.nodes[y]);
      }
      LeafFrame(sh, Shape'(), q, pages[q], pages[q]);
    }

    lemma AtLeaf(q: PageNo)
      requires Can() && IsLeaf(pages, sh, q) && q != x
      ensures Pages'()[q].Leaf? && LeafOk(Shape'(), q, Pages'()[q]) && LinkOk(Pages'(), Shape'(), q, Pages'()[q])
    {
      hide Pos, LeafOk, Shaped, Span;
      Edge();
      LeafSpans(q);
      NodeAt(pages, sh, root, q);
      NodeAt(pages, sh, root, x);
      var n := pages[q];
      if n.next != 0 && n.next != x { LeafSpans(n.next); }
      if n.prev != 0 && n.prev != x { LeafSpans(n.prev); }
      if pages[x].next != 0 && pages[x].next != q { LeafSpans(pages[x].next); }
      if pages[x].prev != 0 && pages[x].prev != q { LeafSpans(pages[x].prev); }
      LeafFrame(Shape'(), Shape'(), q, pages[q], Pages'()[q]);
    }

    lemma Node(q: PageNo)
      requires Can() && q in Shape'().nodes
      ensures NodeOk(Pages'(), Shape'(), q)
    {
      hide Pos, LeafOk, InteriorOk, LinkOk, Shaped;
      Edge();
      NodeAt(pages, sh, root, q);
      if q == up { AtUp(); } else if pages[q].Interior? { AtInterior(q); } else { AtLeaf(q); }
    }

    lemma Parent(q: PageNo)
      requires Can() && q != root && q in Shape'().nodes
      ensures ParentOk(Pages'(), Shape'(), q)
    {
      hide Pos, NodeOk, Shaped;
      Edge();
      WithoutAt(pages[up], slot);
      var above := sh.nodes[q].parent;
      var i := ParentAt(pages, sh, root, q);
      if above == up {
        assert Child(Pages'()[up], if i < slot then i else i - 1) == q;
      } else {
        assert Child(Pages'()[above], i) == q;
      }
    }

    lemma LeavesStayApart()
      requires Can()
      ensures LeavesApart(Pages'(), Shape'())
    {
      hide Pos, NodeOk, ParentOk, KeyOk, Span;
      Edge();
      var pages', sh' := Pages'(), Shape'();
      forall a, b | IsLeaf(pages', sh', a) && IsLeaf(pages', sh', b) && a != b
        ensures Apart(sh'.nodes[a], sh'.nodes[b])
      {
        LeafSpans(a);
        LeafSpans(b);
        assert Apart(sh.nodes[a], sh.nodes[b]) && Apart(sh.nodes[a], sh.nodes[x]) && Apart(sh.nodes[b], sh.nodes[x]);
        LeafRange(a);
        LeafRange(b);
      }
      forall a, t | IsLeaf(pages', sh', a) && t in sh'.seps ensures t <= sh'.nodes[a].lo || sh'.nodes[a].hi <= t {
        LeafSpans(a);
        LeafRange(a);
      }
    }

    lemma LeafRange(q: PageNo)
      requires Can() && IsLeaf(pages, sh, q)
      ensures sh.nodes[q].lo < sh.nodes[q].hi
      ensures pages[x].next == q ==> sh.nodes[q].lo == sh.nodes[x].hi
      ensures pages[x].prev == q ==> sh.nodes[q].hi == sh.nodes[x].lo
    {
      hide Pos, LeafOk;
      assert NodeOk(pages, sh, q) && NodeOk(pages, sh, x);
    }

    lemma KeyStays(k: Key)
      requires Can() && k in sh.home
      ensures KeyOk(Pages'(), Shape'(), k)
    {
      hide Pos, Shaped;
      var i := KeyAt(pages, sh, root, k);
      assert Pages'()[sh.home[k]].entries[i].key == k;
    }

    lemma Keeps()
      requires Can()
      ensures Shaped(Pages'(), Shape'(), root)
    {
      hide Pos, NodeOk, ParentOk, KeyOk, LeavesApart;
      RootAt(pages, sh, root);
      Edge();
      forall q | q in Shape'().nodes ensures NodeOk(Pages'(), Shape'(), q) { Node(q); }
      forall q | q in Shape'().nodes && q != root ensures ParentOk(Pages'(), Shape'(), q) { Parent(q); }
      forall k | k in Shape'().home ensures KeyOk(Pages'(), Shape'(), k) { KeyStays(k); }
      LeavesStayApart();
    }
  }

  lemma LeafNode(pages: Pages, sh: Shape, q: PageNo)
    requires IsLeaf(pages, sh, q) && NodeOk(pages, sh, q)
    ensures LeafOk(sh, q, pages[q]) && LinkOk(pages, sh, q, pages[q]) && q != 0
    ensures 0.0 <= sh.nodes[q].lo < sh.nodes[q].hi <= 1.0
  {
  }

  // ----- a node with one child collapses into it

  function WithChild(n: Content, slot: nat, c: PageNo): (r: Content)
    requires n.Interior? && slot <= |n.branches|
    ensures r.Interior? && |r.branches| == |n.branches|
    ensures forall i :: 0 <= i < |n.branches| ==> r.branches[i].key == n.branches[i].key
    ensures forall i: nat :: i <= |n.branches| ==> Child(r, i) == if i == slot then c else Child(n, i)
  {
    if slot < |n.branches| then Interior(n.branches[slot := n.branches[slot].(child := c)], n.right)
      else Interior(n.branches, c)
  }

  /** Interior node `p`, at `slot` of its parent `up`, has only its rightmost child, which takes its place. */
  datatype Collapse = Collapse(pages: Pages, sh: Shape, root: PageNo, p: PageNo, up: PageNo, slot: nat)
  {
    ghost predicate Sites() {
      && IsInterior(pages, sh, p) && p != root && pages[p].branches == [] && pages[p].right in sh.nodes
      && Under(pages, sh, p, up, slot)
    }

    ghost predicate Can() { Shaped(pages, sh, root) && Sites() }

    ghost function Only(): PageNo requires Sites() { pages[p].right }

    ghost function Pages'(): Pages requires Sites() { pages[up := WithChild(pages[up], slot, Only())] }

    ghost function Shape'(): Shape
      requires Sites()
    {
      sh.(nodes := map q | q in sh.nodes.Keys - {p} :: if q == Only() then sh.nodes[q].(parent := up) else sh.nodes[q])
    }

    lemma Edge()
      requires Can()
      ensures sh.nodes[Only()].parent == p && SameEnds(sh.nodes[Only()], sh.nodes[p])
      ensures sh.nodes[Only()].level < sh.nodes[p].level < sh.nodes[up].level && Only() != root
    {
      hide Pos, Shaped;
      RootAt(pages, sh, root);
      NodeAt(pages, sh, root, p);
      NodeAt(pages, sh, root, up);
      assert ChildOk(sh, p, pages[p], 0) && ChildOk(sh, up, pages[up], slot);
    }

    lemma Node(q: PageNo)
      requires Can() && q in Shape'().nodes
      ensures NodeOk(Pages'(), Shape'(), q)
    {
      hide Pos, LeafOk, Shaped;
      Edge();
      NodeAt(pages, sh, root, q);
      if q == up {
        var n, n', sh' := pages[up], Pages'()[up], Shape'();
        forall i: nat | i <= |n'.branches| ensures ChildOk(sh', up, n', i) {
          assert ChildOk(sh, up, n, i) && ChildOk(sh, up, n, slot);
          if i != slot { assert Child(n, i) != p by { ChildrenDiffer(sh, up, n, i, slot); } }
        }
        forall i | 0 <= i < |n'.branches|
          ensures SepOk(sh', up, Pos(n'.branches[i].key))
        {
          assert SepOk(sh, up, Pos(n.branches[i].key));
        }
      } else if pages[q].Interior? {
        InteriorFrame(sh, Shape'(), q, pages[q]);
      } else {
        LeafFrame(sh, Shape'(), q, pages[q], pages[q]);
      }
    }

    lemma Parent(q: PageNo)
      requires Can() && q != root && q in Shape'().nodes
      ensures ParentOk(Pages'(), Shape'(), q)
    {
      hide Pos, NodeOk, Shaped;
      Edge();
      if q == Only() {
        assert Child(Pages'()[up], slot) == q;
      } else {
        var i := ParentAt(pages, sh, root, q);
        assert Child(Pages'()[sh.nodes[q].parent], i) == q;
      }
    }

    lemma KeyStays(k: Key)
      requires Can() && k in sh.home
      ensures KeyOk(Pages'(), Shape'(), k)
    {
      hide Pos, Shaped;
      var i := KeyAt(pages, sh, root, k);
    }

    lemma Keeps()
      requires Can()
      ensures Shaped(Pages'(), Shape'(), root)
    {
      hide Pos, NodeOk, ParentOk, KeyOk, LeavesApart;
      RootAt(pages, sh, root);
      Edge();
      forall q | q in Shape'().nodes ensures NodeOk(Pages'(), Shape'(), q) { Node(q); }
      forall q | q in Shape'().nodes && q != root ensures ParentOk(Pages'(), Shape'(), q) { Parent(q); }
      forall k | k in Shape'().home ensures KeyOk(Pages'(), Shape'(), k) { KeyStays(k); }
      ApartFrame(pages, sh, Pages'(), Shape'());
    }
  }

  ghost predicate SameEnds(a: Info, b: Info) { a.lo == b.lo && a.hi == b.hi }

  lemma ChildrenDiffer(sh: Shape, up: PageNo, n: Content, i: nat, j: nat)
    requires n.Interior? && up in sh.nodes && InteriorOk(sh, up, n) && i <= |n.branches| && j <= |n.branches| && i != j
    requires sh.nodes[up].lo < sh.nodes[up].hi
    ensures Child(n, i) != Child(n, j)
  {
    hide Pos;
    var a, b := if i < j then i else j, if i < j then j else i;
    assert ChildOk(sh, up, n, a) && ChildOk(sh, up, n, b);
    if a > 0 { assert SepOk(sh, up, Pos(n.branches[a - 1].key)); }
    assert SepOk(sh, up, Pos(n.branches[b - 1].key)) && SepOk(sh, up, Pos(n.branches[a].key));
    assert LoAt(n, sh.nodes[up], a) < LoAt(n, sh.nodes[up], b);
  }

  // ----- the root keeps its page

  /** The root has only its rightmost child, whose content moves into the root's page. */
  datatype PullUp = PullUp(pages: Pages, sh: Shape, root: PageNo)
  {
    ghost predicate Sites() {
      && IsInterior(pages, sh, root) && pages[root].branches == [] && pages[root].right != root
      && pages[root].right in sh.nodes && pages[root].right in pages
    }

    ghost predicate Can() { Shaped(pages, sh, root) && Sites() }

    ghost function Only(): PageNo requires Sites() { pages[root].right }

    ghost function To(p: PageNo): PageNo requires Sites() { if p == Only() then root else p }

    ghost function Pages'(): Pages requires Sites() { pages[root := pages[Only()]] }

    ghost function Shape'(): Shape
      requires Sites()
    {
      Shape(map q | q in sh.nodes.Keys - {Only()} :: sh.nodes[q].(parent := To(sh.nodes[q].parent)),
            map t | t in sh.seps :: To(sh.seps[t]),
            map k | k in sh.home :: To(sh.home[k]),
            sh.cells)
    }

    lemma Edge()
      requires Can()
      ensures sh.nodes[Only()].parent == root && SameEnds(sh.nodes[Only()], sh.nodes[root])
      ensures sh.nodes[Only()].level < sh.nodes[root].level && Only() != root && root != 0 && Only() != 0
      ensures sh.nodes[root].lo == 0.0 && sh.nodes[root].hi == 1.0 && sh.nodes[root].parent == 0
    {
      hide Pos, Shaped;
      RootAt(pages, sh, root);
      NodeAt(pages, sh, root, root);
      assert ChildOk(sh, root, pages[root], 0);
    }

    lemma AtRoot()
      requires Can()
      ensures NodeOk(Pages'(), Shape'(), root)
    {
      hide Pos, Shaped;
      Edge();
      NodeAt(pages, sh, root, Only());
      NodeAt(pages, sh, root, root);
      var n, sh' := pages[Only()], Shape'();
      if n.Leaf? {
        forall i | 0 <= i < |n.entries|
          ensures EntryOk(sh', root, n.entries[i])
        {
          assert EntryOk(sh, Only(), n.entries[i]);
        }
      } else {
        forall i: nat | i <= |n.branches| ensures ChildOk(sh', root, n, i) { assert ChildOk(sh, Only(), n, i); }
        forall i | 0 <= i < |n.branches|
          ensures SepOk(sh', root, Pos(n.branches[i].key))
        {
          assert SepOk(sh, Only(), Pos(n.branches[i].key));
        }
      }
    }

    lemma Node(q: PageNo)
      requires Can() && q in Shape'().nodes && q != root
      ensures NodeOk(Pages'(), Shape'(), q)
    {
      hide Pos, LeafOk, Shaped, InteriorOk;
      Edge();
      NodeAt(pages, sh, root, q);
      NodeAt(pages, sh, root, Only());
      if pages[q].Interior? {
        InteriorFrame(sh, Shape'(), q, pages[q]);
      } else {
        LeafFrame(sh, Shape'(), q, pages[q], pages[q]);
      }
    }

    lemma Parent(q: PageNo)
      requires Can() && q != root && q in Shape'().nodes
      ensures ParentOk(Pages'(), Shape'(), q)
    {
      hide Pos, NodeOk, Shaped;
      Edge();
      var above := sh.nodes[q].parent;
      var i := ParentAt(pages, sh, root, q);
      assert Child(Pages'()[To(above)], i) == q;
    }

    lemma KeyStays(k: Key)
      requires Can() && k in sh.home
      ensures KeyOk(Pages'(), Shape'(), k)
    {
      hide Pos, Shaped;
      Edge();
      var i := KeyAt(pages, sh, root, k);
      assert Pages'()[To(sh.home[k])].entries[i].key == k;
    }

    lemma LeavesStayApart()
      requires Can()
      ensures LeavesApart(Pages'(), Shape'())
    {
      hide Pos, NodeOk, ParentOk, KeyOk;
      Edge();
      var pages', sh' := Pages'(), Shape'();
      forall a, b | IsLeaf(pages', sh', a) && IsLeaf(pages', sh', b) && a != b
        ensures Apart(sh'.nodes[a], sh'.nodes[b])
      {
        var a0, b0 := if a == root then Only() else a, if b == root then Only() else b;
        assert IsLeaf(pages, sh, a0) && IsLeaf(pages, sh, b0) && Apart(sh.nodes[a0], sh.nodes[b0]);
      }
      forall a, t | IsLeaf(pages', sh', a) && t in sh'.seps ensures t <= sh'.nodes[a].lo || sh'.nodes[a].hi <= t {
        assert IsLeaf(pages, sh, if a == root then Only() else a);
      }
    }

    lemma Keeps()
      requires Can()
      ensures Shaped(Pages'(), Shape'(), root)
    {
      hide Pos, NodeOk, ParentOk, KeyOk, LeavesApart;
      Edge();
      AtRoot();
      forall q | q in Shape'().nodes ensures NodeOk(Pages'(), Shape'(), q) { if q != root { Node(q); } }
      forall q | q in Shape'().nodes && q != root ensures ParentOk(Pages'(), Shape'(), q) { Parent(q); }
      forall k | k in Shape'().home ensures KeyOk(Pages'(), Shape'(), k) { KeyStays(k); }
      LeavesStayApart();
    }
  }

  /** The content of the root moves to page `l`, and the root becomes a node with that one child. */
  datatype PushDown = PushDown(pages: Pages, sh: Shape, root: PageNo, l: PageNo)
  {
    ghost predicate Sites() { root in sh.nodes && root in pages && FreshPage(sh, l) }

    ghost predicate Can() { Shaped(pages, sh, root) && Sites() }

    ghost function To(p: PageNo): PageNo { if p == root then l else p }

    ghost function Pages'(): Pages requires Sites() { pages[l := pages[root]][root := Interior([], l)] }

    ghost function Shape'(): Shape
      requires Sites()
    {
      Shape(map q | q in sh.nodes.Keys + {l} ::
              if q == root then sh.nodes[root].(level := sh.nodes[root].level + 1)
              else if q == l then sh.nodes[root].(parent := root)
              else sh.nodes[q].(parent := To(sh.nodes[q].parent)),
            map t | t in sh.seps :: To(sh.seps[t]),
            map k | k in sh.home :: To(sh.home[k]),
            sh.cells)
    }

    lemma AtMoved()
      requires Can()
      ensures NodeOk(Pages'(), Shape'(), l) && NodeOk(Pages'(), Shape'(), root)
    {
      hide Pos, Shaped;
      RootAt(pages, sh, root);
      NodeAt(pages, sh, root, root);
      var n, sh' := pages[root], Shape'();
      if n.Leaf? {
        forall i | 0 <= i < |n.entries|
          ensures EntryOk(sh', l, n.entries[i])
        {
          assert EntryOk(sh, root, n.entries[i]);
        }
      } else {
        forall i: nat | i <= |n.branches| ensures ChildOk(sh', l, n, i) { assert ChildOk(sh, root, n, i); }
        forall i | 0 <= i < |n.branches|
          ensures SepOk(sh', l, Pos(n.branches[i].key))
        {
          assert SepOk(sh, root, Pos(n.branches[i].key));
        }
      }
      assert ChildOk(sh', root, Interior([], l), 0);
    }

    lemma Node(q: PageNo)
      requires Can() && q in sh.nodes && q != root
      ensures NodeOk(Pages'(), Shape'(), q)
    {
      hide Pos, LeafOk, Shaped, InteriorOk;
      RootAt(pages, sh, root);
      NodeAt(pages, sh, root, q);
      NodeAt(pages, sh, root, root);
      if pages[q].Interior? {
        InteriorFrame(sh, Shape'(), q, pages[q]);
      } else {
        LeafFrame(sh, Shape'(), q, pages[q], pages[q]);
      }
    }

    lemma Parent(q: PageNo)
      requires Can() && q != root && q in Shape'().nodes
      ensures ParentOk(Pages'(), Shape'(), q)
    {
      hide Pos, NodeOk, Shaped;
      if q == l {
        assert Child(Pages'()[root], 0) == l;
      } else {
        var i := ParentAt(pages, sh, root, q);
        assert Child(Pages'()[To(sh.nodes[q].parent)], i) == q;
      }
    }

    lemma KeyStays(k: Key)
      requires Can() && k in sh.home
      ensures KeyOk(Pages'(), Shape'(), k)
    {
      hide Pos, Shaped;
      var i := KeyAt(pages, sh, root, k);
      assert Pages'()[To(sh.home[k])].entries[i].key == k;
    }

    lemma LeavesStayApart()
      requires Can()
      ensures LeavesApart(Pages'(), Shape'())
    {
      hide Pos, NodeOk, ParentOk, KeyOk;
      var pages', sh' := Pages'(), Shape'();
      forall a, b | IsLeaf(pages', sh', a) && IsLeaf(pages', sh', b) && a != b
        ensures Apart(sh'.nodes[a], sh'.nodes[b])
      {
        var a0, b0 := if a == l then root else a, if b == l then root else b;
        assert IsLeaf(pages, sh, a0) && IsLeaf(pages, sh, b0) && Apart(sh.nodes[a0], sh.nodes[b0]);
      }
      forall a, t | IsLeaf(pages', sh', a) && t in sh'.seps ensures t <= sh'.nodes[a].lo || sh'.nodes[a].hi <= t {
        assert IsLeaf(pages, sh, if a == l then root else a);
      }
    }

    lemma Keeps()
      requires Can()
      ensures Shaped(Pages'(), Shape'(), root)
    {
      hide Pos, NodeOk, ParentOk, KeyOk, LeavesApart;
      RootAt(pages, sh, root);
      AtMoved();
      forall q | q in Shape'().nodes ensures NodeOk(Pages'(), Shape'(), q) { if q != root && q != l { Node(q); } }
      forall q | q in Shape'().nodes && q != root ensures ParentOk(Pages'(), Shape'(), q) { Parent(q); }
      forall k | k in Shape'().home ensures KeyOk(Pages'(), Shape'(), k) { KeyStays(k); }
      LeavesStayApart();
    }
  }
}
