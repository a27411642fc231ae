/** The rearrangements of the tree: a leaf rewritten, a node split under its parent, an
    empty leaf taken out, a node collapsed into its only child, and the root pushed down
    or pulled up. Each is a value that says what is rearranged, with the pages and the
    shape afterwards; `Keeps` says that the tree is still well shaped. */
module TreeMoves {
  import opened PageFormat
  import opened KeyOrder
  import opened Pager
  import opened TreeShape

  // ----- facts of a well shaped tree, one node at a time

  lemma NodeAt(pages: Pages, sh: Shape, root: PageNo, q: PageNo)
    requires Shaped(pages, sh, root) && q in sh.nodes
    ensures NodeOk(pages, sh, q)
  {
  }

  lemma RootAt(pages: Pages, sh: Shape, root: PageNo)
    requires Shaped(pages, sh, root)
    ensures root in sh.nodes && sh.nodes[root].lo == 0.0 && sh.nodes[root].hi == 1.0 && sh.nodes[root].parent == 0
    ensures 0 !in sh.nodes
  {
    if 0 in sh.nodes { NodeAt(pages, sh, root, 0); }
  }

  /** `p` is the child of `up` at `slot`. */
  ghost predicate Under(pages: Pages, sh: Shape, p: PageNo, up: PageNo, slot: nat) {
    && p in sh.nodes && sh.nodes[p].parent == up && IsInterior(pages, sh, up)
    && slot <= |pages[up].branches| && Child(pages[up], slot) == p
  }

  lemma ParentAt(pages: Pages, sh: Shape, root: PageNo, q: PageNo) returns (i: nat)
    requires Shaped(pages, sh, root) && q in sh.nodes && q != root
    ensures Under(pages, sh, q, sh.nodes[q].parent, i)
  {
    hide NodeOk;
    assert ParentOk(pages, sh, q);
    i :| i <= |pages[sh.nodes[q].parent].branches| && Child(pages[sh.nodes[q].parent], i) == q;
  }

  lemma LevelBelow(pages: Pages, sh: Shape, root: PageNo, q: PageNo)
    requires Shaped(pages, sh, root) && q in sh.nodes && q != root
    ensures sh.nodes[q].parent in sh.nodes && sh.nodes[q].level < sh.nodes[sh.nodes[q].parent].level
  {
    hide Pos, Shaped;
    var i := ParentAt(pages, sh, root, q);
    NodeAt(pages, sh, root, sh.nodes[q].parent);
    assert ChildOk(sh, sh.nodes[q].parent, pages[sh.nodes[q].parent], i);
  }

  lemma KeyAt(pages: Pages, sh: Shape, root: PageNo, k: Key) returns (i: nat)
    requires Shaped(pages, sh, root) && k in sh.home
    ensures IsLeaf(pages, sh, sh.home[k]) && i < |pages[sh.home[k]].entries| && pages[sh.home[k]].entries[i].key == k
  {
    hide NodeOk, ParentOk;
    assert KeyOk(pages, sh, k);
    i :| 0 <= i < |pages[sh.home[k]].entries| && pages[sh.home[k]].entries[i].key == k;
  }

  ghost predicate SameSpan(a: Info, b: Info) { a.lo == b.lo && a.hi == b.hi && a.level == b.level }

  /** An interior node whose children and separators are untouched. */
  lemma InteriorFrame(sh: Shape, sh': Shape, q: PageNo, n: Content)
    requires n.Interior? && q in sh.nodes && InteriorOk(sh, q, n) && q in sh'.nodes
    requires SameSpan(sh.nodes[q], sh'.nodes[q])
    requires forall c :: c in sh.nodes && sh.nodes[c].parent == q ==> c in sh'.nodes && sh'.nodes[c] == sh.nodes[c]
    requires forall t :: t in sh.seps && sh.seps[t] == q ==> t in sh'.seps && sh'.seps[t] == q
    ensures InteriorOk(sh', q, n)
  {
    hide Pos;
    forall i: nat | i <= |n.branches| ensures ChildOk(sh', q, n, i) { assert ChildOk(sh, q, n, i); }
  }

  /** A leaf whose entries are untouched. */
  lemma LeafFrame(sh: Shape, sh': Shape, q: PageNo, n: Content, n': Content)
    requires n.Leaf? && q in sh.nodes && LeafOk(sh, q, n)
    requires q in sh'.nodes && sh'.nodes[q].lo <= sh.nodes[q].lo && sh'.nodes[q].hi >= sh.nodes[q].hi
    requires n'.Leaf? && n'.entries == n.entries
    requires forall k :: k in sh.home && sh.home[k] == q && k in sh.cells ==>
      k in sh'.home && sh'.home[k] == q && k in sh'.cells && sh'.cells[k] == sh.cells[k]
    ensures LeafOk(sh', q, n')
  {
    hide Pos;
    forall i | 0 <= i < |n'.entries| ensures EntryOk(sh', q, n'.entries[i]) { assert EntryOk(sh, q, n.entries[i]); }
  }

  lemma ApartFrame(pages: Pages, sh: Shape, pages': Pages, sh': Shape)
    requires LeavesApart(pages, sh) && sh'.seps.Keys <= sh.seps.Keys
    requires forall a :: IsLeaf(pages', sh', a) ==> IsLeaf(pages, sh, a) && SameSpan(sh.nodes[a], sh'.nodes[a])
    ensures LeavesApart(pages', sh')
  {
  }

  ghost predicate FreshPage(sh: Shape, r: PageNo) { r != 0 && r !in sh.nodes }

  // ----- a separator goes in

  /** insert_separator's edit: the child at `slot` keeps the keys below `key`, `right` takes the rest. */
  function Inserted(n: Content, slot: nat, key: Key, right: PageNo): (r: Content)
    requires n.Interior? && slot <= |n.branches|
    ensures r.Interior? && |r.branches| == |n.branches| + 1
  {
    var cell := Branch(key, Child(n, slot));
    if slot < |n.branches| then
      Interior(n.branches[..slot] + [cell, n.branches[slot].(child := right)] + n.branches[slot + 1..], n.right)
    else
      Interior(n.branches + [cell], right)
  }

  lemma InsertedAt(n: Content, slot: nat, key: Key, right: PageNo)
    requires n.Interior? && slot <= |n.branches|
    ensures var r := Inserted(n, slot, key, right);
            && (forall i :: 0 <= i < |r.branches| ==>
                  r.branches[i].key == if i < slot then n.branches[i].key else if i == slot then key
                    else n.branches[i - 1].key)
            && (forall i: nat :: i <= |r.branches| ==>
                  Child(r, i) == if i <= slot then Child(n, i) else if i == slot + 1 then right else Child(n, i - 1))
  {
  }

  /** A parent gains a separator inside the interval of its child at `slot`, which now ends there, and a
      new child `r` that begins there. */
  ghost predicate Gains(sh: Shape, sh': Shape, up: PageNo, n: Content, slot: nat, key: Key, r: PageNo)
    requires n.Interior? && slot <= |n.branches|
  {
    var c, s := Child(n, slot), Pos(key);
    && up in sh.nodes && InteriorOk(sh, up, n) && c in sh.nodes
    && up in sh'.nodes && sh'.nodes[up] == sh.nodes[up]
    && LoAt(n, sh.nodes[up], slot) < s < HiAt(n, sh.nodes[up], slot)
    && c in sh'.nodes && sh'.nodes[c] == sh.nodes[c].(hi := s)
    && r in sh'.nodes && sh'.nodes[r] == sh.nodes[c].(lo := s)
    && (forall q :: q in sh.nodes && q != c && sh.nodes[q].parent == up ==>
          q in sh'.nodes && sh'.nodes[q] == sh.nodes[q])
    && s in sh'.seps && sh'.seps[s] == up
    && (forall t :: t in sh.seps && sh.seps[t] == up ==> t in sh'.seps && sh'.seps[t] == up)
  }

  lemma GainsChild(sh: Shape, sh': Shape, up: PageNo, n: Content, slot: nat, key: Key, r: PageNo, i: nat)
    requires n.Interior? && slot <= |n.branches| && Gains(sh, sh', up, n, slot, key, r)
    requires i <= |n.branches| + 1
    ensures ChildOk(sh', up, Inserted(n, slot, key, r), i)
  {
    hide Pos;
    InsertedAt(n, slot, key, r);
    assert ChildOk(sh, up, n, slot);
    if i <= slot { assert ChildOk(sh, up, n, i); } else { assert ChildOk(sh, up, n, i - 1); }
    if i < slot { assert HiAt(n, sh.nodes[up], i) <= LoAt(n, sh.nodes[up], slot); }
    if i > slot + 1 { assert LoAt(n, sh.nodes[up], i - 1) >= HiAt(n, sh.nodes[up], slot); }
  }

  lemma GainsSep(sh: Shape, sh': Shape, up: PageNo, n: Content, slot: nat, key: Key, r: PageNo, i: nat)
    requires n.Interior? && slot <= |n.branches| && Gains(sh, sh', up, n, slot, key, r)
    requires i < |n.branches| + 1
    ensures SepOk(sh', up, Pos(Inserted(n, slot, key, r).branches[i].key))
    ensures i < slot ==> Pos(Inserted(n, slot, key, r).branches[i].key) < Pos(key)
    ensures i > slot ==> Pos(Inserted(n, slot, key, r).branches[i].key) > Pos(key)
  {
    hide Pos, ChildOk;
    InsertedAt(n, slot, key, r);
    if i < slot { assert SepOk(sh, up, Pos(n.branches[i].key)); }
    if i > slot { assert SepOk(sh, up, Pos(n.branches[i - 1].key)); }
    if slot > 0 { assert SepOk(sh, up, Pos(n.branches[slot - 1].key)); }
    if slot < |n.branches| { assert SepOk(sh, up, Pos(n.branches[slot].key)); }
  }

  lemma InteriorGains(sh: Shape, sh': Shape, up: PageNo, n: Content, slot: nat, key: Key, r: PageNo)
    requires n.Interior? && slot <= |n.branches| && Gains(sh, sh', up, n, slot, key, r)
    ensures InteriorOk(sh', up, Inserted(n, slot, key, r))
  {
    hide Pos, ChildOk, SepOk, Child;
    var n' := Inserted(n, slot, key, r);
    forall i: nat | i <= |n'.branches| ensures ChildOk(sh', up, n', i) { GainsChild(sh, sh', up, n, slot, key, r, i); }
    forall i: nat | i < |n'.branches|
      ensures SepOk(sh', up, Pos(n'.branches[i].key))
      ensures i < slot ==> Pos(n'.branches[i].key) < Pos(key)
      ensures i > slot ==> Pos(n'.branches[i].key) > Pos(key)
    {
      GainsSep(sh, sh', up, n, slot, key, r, i);
    }
    forall i, j | 0 <= i < j < |n'.branches| ensures Pos(n'.branches[i].key) < Pos(n'.branches[j].key) {
      InsertedAt(n, slot, key, r);
    }
  }

  // ----- a leaf splits under its parent

  /** Leaf `p`, at `slot` of its parent `up`, is divided before its entry `at`; the upper half goes to
      page `r`. The next leaf points back at it, and the parent knows both. */
  datatype LeafSplit = LeafSplit(pages: Pages, sh: Shape, root: PageNo, p: PageNo, at: nat, r: PageNo, up: PageNo,
                                 slot: nat)
  {
    ghost predicate Sites() {
      && IsLeaf(pages, sh, p) && p != root && 0 < at < |pages[p].entries|
      && FreshPage(sh, r) && Under(pages, sh, p, up, slot)
      && (pages[p].next != 0 ==> IsLeaf(pages, sh, pages[p].next))
    }

    ghost predicate Can() { Shaped(pages, sh, root) && Sites() }

    ghost function S(): real requires Sites() { Pos(pages[p].entries[at].key) }

    ghost function Pages'(): Pages
      requires Sites()
    {
      var n := pages[p];
      var base := if n.next == 0 then pages else pages[n.next := pages[n.next].(prev := r)];
      base[p := Leaf(n.entries[..at], n.prev, r)]
          [r := Leaf(n.entries[at..], p, n.next)]
          [up := Inserted(pages[up], slot, n.entries[at].key, r)]
    }

    ghost function Shape'(): Shape
      requires Sites()
    {
      Shape(sh.nodes[p := sh.nodes[p].(hi := S())][r := sh.nodes[p].(lo := S())],
            sh.seps[S() := up],
            map k | k in sh.home :: if sh.home[k] == p && Pos(k) >= S() then r else sh.home[k],
            sh.cells)
    }

    /** The dividing position is inside the leaf, and so between the separators around it. */
    lemma Point()
      requires Can()
      ensures sh.nodes[p].lo < S() < sh.nodes[p].hi && S() !in sh.seps
      ensures LoAt(pages[up], sh.nodes[up], slot) == sh.nodes[p].lo
      ensures HiAt(pages[up], sh.nodes[up], slot) == sh.nodes[p].hi
      ensures up != p && pages[p].next != p && pages[p].next != up
    {
      hide Pos;
      var n := pages[p];
      assert NodeOk(pages, sh, p) && NodeOk(pages, sh, up);
      assert EntryOk(sh, p, n.entries[0]) && EntryOk(sh, p, n.entries[at]);
      assert ChildOk(sh, up, pages[up], slot);
    }

    lemma AtUp()
      requires Can()
      ensures InteriorOk(Shape'(), up, Inserted(pages[up], slot, pages[p].entries[at].key, r))
    {
      hide Pos, LeafOk, InteriorOk, Shaped, LinkOk;
      Point();
      NodeAt(pages, sh, root, up);
      InteriorGains(sh, Shape'(), up, pages[up], slot, pages[p].entries[at].key, r);
    }

    lemma AtInterior(q: PageNo)
      requires Can() && IsInterior(pages, sh, q) && q != up
      ensures InteriorOk(Shape'(), q, pages[q])
    {
      hide Pos, LeafOk, InteriorOk, Shaped, LinkOk;
      Point();
      NodeAt(pages, sh, root, q);
      InteriorFrame(sh, Shape'(), q, pages[q]);
    }

    lemma AtLeaf(q: PageNo)
      requires Can() && IsLeaf(pages, sh, q) && q != p
      ensures Pages'()[q].Leaf? && LeafOk(Shape'(), q, Pages'()[q]) && LinkOk(Pages'(), Shape'(), q, Pages'()[q])
    {
      hide Pos, LeafOk, InteriorOk, Shaped;
      Point();
      NodeAt(pages, sh, root, q);
      NodeAt(pages, sh, root, p);
      LeafFrame(sh, Shape'(), q, pages[q], Pages'()[q]);
    }

    lemma HalvesHold()
      requires Can()
      ensures var n := pages[p];
              LeafOk(Shape'(), p, Leaf(n.entries[..at], n.prev, r))
                && LeafOk(Shape'(), r, Leaf(n.entries[at..], p, n.next))
    {
      hide Pos, Shaped;
      Point();
      NodeAt(pages, sh, root, p);
      var sh', n := Shape'(), pages[p];
      forall i | 0 <= i < at ensures EntryOk(sh', p, n.entries[i]) { assert EntryOk(sh, p, n.entries[i]); }
      forall i | at <= i < |n.entries| ensures EntryOk(sh', r, n.entries[i]) { assert EntryOk(sh, p, n.entries[i]); }
    }

    lemma AtHalves()
      requires Can()
      ensures NodeOk(Pages'(), Shape'(), p) && NodeOk(Pages'(), Shape'(), r)
    {
      hide Pos, Shaped, LeafOk, InteriorOk;
      Point();
      HalvesHold();
      NodeAt(pages, sh, root, p);
      if pages[p].prev != 0 { NodeAt(pages, sh, root, pages[p].prev); }
    }

    lemma Node(q: PageNo)
      requires Can() && q in Shape'().nodes
      ensures NodeOk(Pages'(), Shape'(), q)
    {
      hide Pos, LeafOk, InteriorOk, LinkOk, Shaped;
      Point();
      if q == p || q == r {
        AtHalves();
      } else {
        NodeAt(pages, sh, root, q);
        if q == up { AtUp(); } else if pages[q].Interior? { AtInterior(q); } else { AtLeaf(q); }
      }
    }

    lemma Parent(q: PageNo)
      requires Can() && q != root && q in Shape'().nodes
      ensures ParentOk(Pages'(), Shape'(), q)
    {
      hide Pos, NodeOk, Shaped;
      InsertedAt(pages[up], slot, pages[p].entries[at].key, r);
      if q == r {
        assert Child(Pages'()[up], slot + 1) == r;
      } else {
        var above := sh.nodes[q].parent;
        var i := ParentAt(pages, sh, root, q);
        var j := if above != up || i <= slot then i else i + 1;
        assert Child(Pages'()[above], j) == q;
      }
    }

    lemma LeavesStayApart()
      requires Can()
      ensures LeavesApart(Pages'(), Shape'())
    {
      hide Pos, NodeOk;
      Point();
      var pages', sh' := Pages'(), Shape'();
      forall a, b | IsLeaf(pages', sh', a) && IsLeaf(pages', sh', b) && a != b
        ensures Apart(sh'.nodes[a], sh'.nodes[b])
      {
        var a0, b0 := if a == r then p else a, if b == r then p else b;
        assert IsLeaf(pages, sh, a0) && IsLeaf(pages, sh, b0);
        if a0 != b0 { assert Apart(sh.nodes[a0], sh.nodes[b0]); }
      }
      forall a, t | IsLeaf(pages', sh', a) && t in sh'.seps ensures t <= sh'.nodes[a].lo || sh'.nodes[a].hi <= t {
        var a0 := if a == r then p else a;
        assert IsLeaf(pages, sh, a0);
        if t == S() && a0 != p { assert Apart(sh.nodes[a0], sh.nodes[p]); }
      }
    }

    lemma KeyStays(k: Key)
      requires Can() && k in sh.home
      ensures KeyOk(Pages'(), Shape'(), k)
    {
      hide Pos, Shaped;
      Point();
      NodeAt(pages, sh, root, p);
      var q := sh.home[k];
      var i := KeyAt(pages, sh, root, k);
      if q == p && i >= at {
        assert Pages'()[r].entries[i - at].key == k;
      } else {
        assert Pages'()[q].entries[i].key == k;
      }
    }

    lemma Keeps()
      requires Can()
      ensures Shaped(Pages'(), Shape'(), root)
    {
      hide Pos, NodeOk, ParentOk, KeyOk, LeavesApart;
      Point();
      forall q | q in Shape'().nodes ensures NodeOk(Pages'(), Shape'(), q) { Node(q); }
      forall q | q in Shape'().nodes && q != root ensures ParentOk(Pages'(), Shape'(), q) { Parent(q); }
      forall k | k in Shape'().home ensures KeyOk(Pages'(), Shape'(), k) { KeyStays(k); }
      LeavesStayApart();
    }
  }

  // ----- an interior node splits under its parent

  /** Interior node `p`, at `slot` of its parent `up`, is divided at its branch `m`: that separator goes up,
      the branches after it go to page `r`. */
  datatype InteriorSplit = InteriorSplit(pages: Pages, sh: Shape, root: PageNo, p: PageNo, m: nat, r: PageNo,
                                         up: PageNo, slot: nat)
  {
    ghost predicate Sites() {
      && IsInterior(pages, sh, p) && p != root && m < |pages[p].branches|
      && FreshPage(sh, r) && Under(pages, sh, p, up, slot)
    }

    ghost predicate Can() { Shaped(pages, sh, root) && Sites() }

    ghost function S(): real requires Sites() { Pos(pages[p].branches[m].key) }

    ghost function Left(): Content requires Sites() { Interior(pages[p].branches[..m], pages[p].branches[m].child) }

    ghost function Right(): Content requires Sites() { Interior(pages[p].branches[m + 1..], pages[p].right) }

    ghost function Pages'(): Pages
      requires Sites()
    {
      pages[p := Left()][r := Right()][up := Inserted(pages[up], slot, pages[p].branches[m].key, r)]
    }

    ghost function Shape'(): Shape
      requires Sites()
    {
      Shape(map q | q in sh.nodes.Keys + {r} ::
              if q == r then sh.nodes[p].(lo := S())
              else if q == p then sh.nodes[p].(hi := S())
              else if sh.nodes[q].parent == p && sh.nodes[q].lo >= S() then sh.nodes[q].(parent := r)
              else sh.nodes[q],
            map t | t in sh.seps :: if t == S() then up else if sh.seps[t] == p && t > S() then r else sh.seps[t],
            sh.home,
            sh.cells)
    }

    lemma Point()
      requires Can()
      ensures sh.nodes[p].lo < S() < sh.nodes[p].hi && S() in sh.seps && sh.seps[S()] == p
      ensures LoAt(pages[up], sh.nodes[up], slot) == sh.nodes[p].lo
      ensures HiAt(pages[up], sh.nodes[up], slot) == sh.nodes[p].hi
      ensures up != p && sh.nodes[up].parent != p
    {
      hide Pos, Shaped;
      RootAt(pages, sh, root);
      NodeAt(pages, sh, root, p);
      NodeAt(pages, sh, root, up);
      assert ChildOk(sh, up, pages[up], slot);
      assert SepOk(sh, p, S());
      if up != root { LevelBelow(pages, sh, root, up); }
    }

    lemma AtUp()
      requires Can()
      ensures InteriorOk(Shape'(), up, Inserted(pages[up], slot, pages[p].branches[m].key, r))
    {
      hide Pos, InteriorOk, Shaped;
      Point();
      NodeAt(pages, sh, root, up);
      InteriorGains(sh, Shape'(), up, pages[up], slot, pages[p].branches[m].key, r);
    }

    lemma AtInterior(q: PageNo)
      requires Can() && IsInterior(pages, sh, q) && q != up && q != p
      ensures InteriorOk(Shape'(), q, pages[q])
    {
      hide Pos, InteriorOk, Shaped;
      Point();
      NodeAt(pages, sh, root, q);
      InteriorFrame(sh, Shape'(), q, pages[q]);
    }

    /** The children up to `m` are below the dividing position, the others are not. */
    lemma Sides(i: nat)
      requires Can() && i <= |pages[p].branches|
      ensures ChildOk(sh, p, pages[p], i) && Child(pages[p], i) != p && Child(pages[p], i) != r
      ensures Child(pages[p], i) != up
      ensures i <= m <==> sh.nodes[Child(pages[p], i)].lo < S()
    {
      hide Pos, Shaped;
      Point();
      NodeAt(pages, sh, root, p);
      assert ChildOk(sh, p, pages[p], i);
    }

    lemma AtLeft()
      requires Can()
      ensures InteriorOk(Shape'(), p, Left())
    {
      hide Pos, Shaped;
      Point();
      NodeAt(pages, sh, root, p);
      forall i: nat | i <= m ensures ChildOk(Shape'(), p, Left(), i) { Sides(i); }
      forall i | 0 <= i < m ensures SepOk(Shape'(), p, Pos(Left().branches[i].key)) {
        assert SepOk(sh, p, Pos(pages[p].branches[i].key));
      }
    }

    lemma AtRight()
      requires Can()
      ensures InteriorOk(Shape'(), r, Right())
    {
      hide Pos, Shaped;
      Point();
      NodeAt(pages, sh, root, p);
      forall i: nat | i <= |Right().branches| ensures ChildOk(Shape'(), r, Right(), i) { Sides(m + 1 + i); }
      forall i | 0 <= i < |Right().branches| ensures SepOk(Shape'(), r, Pos(Right().branches[i].key)) {
        assert SepOk(sh, p, Pos(pages[p].branches[m + 1 + i].key));
      }
    }

    lemma AtLeaf(q: PageNo)
      requires Can() && IsLeaf(pages, sh, q)
      ensures LeafOk(Shape'(), q, pages[q]) && LinkOk(Pages'(), Shape'(), q, pages[q])
    {
      hide Pos, LeafOk, Shaped;
      NodeAt(pages, sh, root, q);
      LeafFrame(sh, Shape'(), q, pages[q], pages[q]);
    }

    lemma Node(q: PageNo)
      requires Can() && q in Shape'().nodes
      ensures NodeOk(Pages'(), Shape'(), q)
    {
      hide Pos, LeafOk, InteriorOk, LinkOk, Shaped;
      Point();
      NodeAt(pages, sh, root, p);
      if q == p {
        AtLeft();
      } else if q == r {
        AtRight();
      } else {
        NodeAt(pages, sh, root, q);
        if q == up { AtUp(); } else if pages[q].Interior? { AtInterior(q); } else { AtLeaf(q); }
      }
    }

    lemma Parent(q: PageNo)
      requires Can() && q != root && q in Shape'().nodes
      ensures ParentOk(Pages'(), Shape'(), q)
    {
      hide Pos, NodeOk, Shaped;
      Point();
      InsertedAt(pages[up], slot, pages[p].branches[m].key, r);
      if q == r {
        assert Child(Pages'()[up], slot + 1) == r;
      } else {
        var above := sh.nodes[q].parent;
        var i := ParentAt(pages, sh, root, q);
        if above == up {
          assert Child(Pages'()[up], if i <= slot then i else i + 1) == q;
        } else if above == p {
          Sides(i);
          if i <= m { assert Child(Left(), i) == q; } else { assert Child(Right(), i - m - 1) == q; }
        } else {
          assert Child(Pages'()[above], i) == q;
        }
      }
    }

    lemma LeavesStayApart()
      requires Can()
      ensures LeavesApart(Pages'(), Shape'())
    {
      hide Pos, NodeOk, ParentOk, LeavesApart;
      ApartFrame(pages, sh, Pages'(), Shape'());
    }

    lemma KeyStays(k: Key)
      requires Can() && k in sh.home
      ensures KeyOk(Pages'(), Shape'(), k)
    {
      hide Pos, Shaped;
      var i := KeyAt(pages, sh, root, k);
    }

    lemma Keeps()
      requires Can()
      ensures Shaped(Pages'(), Shape'(), root)
    {
      hide Pos, NodeOk, ParentOk, KeyOk, LeavesApart;
      RootAt(pages, sh, root);
      forall q | q in Shape'().nodes ensures NodeOk(Pages'(), Shape'(), q) { Node(q); }
      forall q | q in Shape'().nodes && q != root ensures ParentOk(Pages'(), Shape'(), q) { Parent(q); }
      forall k | k in Shape'().home ensures KeyOk(Pages'(), Shape'(), k) { KeyStays(k); }
      LeavesStayApart();
    }
  }
}
