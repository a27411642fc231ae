/** No page of a tree is overfull: what each change does to the bytes of a node
    (engine/src/engine/btree.cpp). */
module NodeFits {
  import opened PageFormat
  import opened KeyOrder
  import opened Pager
  import opened TreeMoves
  import opened TreeShrink
  import opened NodeSplit

  lemma EntrySizesCut(es: seq<Entry>, i: nat)
    requires i <= |es|
    ensures EntrySizes(es[..i]) == EntrySizes(es)[..i] && EntrySizes(es[i..]) == EntrySizes(es)[i..]
  {
  }

  /** The sum without one of the terms. */
  lemma SumWithout(c: seq<nat>, i: nat)
    requires i < |c|
    ensures Total(c[..i] + c[i + 1..]) == Total(c) - c[i]
  {
    SumConcat(c[..i], c[i + 1..]);
    SumSplit(c, i);
    SumNext(c, i);
  }

  // ----- leaves

  lemma EmptyHolds(pageSize: nat, longest: nat)
    requires pageSize >= 512
    ensures Holds(Leaf([], 0, 0), pageSize, longest)
  {
    assert EntrySizes([]) == [];
  }

  lemma EntryGone(es: seq<Entry>, slot: nat, prev: PageNo, next: PageNo, pageSize: nat, longest: nat)
    requires pageSize >= 512 && slot < |es| && Holds(Leaf(es, prev, next), pageSize, longest)
    ensures Holds(Leaf(es[..slot] + es[slot + 1..], prev, next), pageSize, longest)
  {
    hide Total, GoodEntry;
    assert EntrySizes(es[..slot] + es[slot + 1..]) == EntrySizes(es)[..slot] + EntrySizes(es)[slot + 1..];
    SumWithout(EntrySizes(es), slot);
  }

  /** A leaf that holds but for the entry at `slot`, which is being added. */
  ghost predicate Filling(es: seq<Entry>, slot: nat, pageSize: nat, longest: nat) {
    && pageSize >= 512 && slot < |es| && (forall i :: 0 <= i < |es| ==> GoodEntry(es[i], pageSize, longest))
    && 28 + Total(EntrySizes(es)) - EntrySizes(es)[slot] <= pageSize
  }

  lemma EntryAdded(es: seq<Entry>, slot: nat, e: Entry, prev: PageNo, next: PageNo, pageSize: nat, longest: nat)
    requires pageSize >= 512 && slot <= |es| && Holds(Leaf(es, prev, next), pageSize, longest)
    requires GoodEntry(e, pageSize, longest)
    ensures Filling(es[..slot] + [e] + es[slot..], slot, pageSize, longest)
  {
    hide Total, GoodEntry;
    var es' := es[..slot] + [e] + es[slot..];
    SumWithout(EntrySizes(es'), slot);
    assert EntrySizes(es')[..slot] + EntrySizes(es')[slot + 1..] == EntrySizes(es);
  }

  /** Such a leaf is divided where it holds on both sides. */
  lemma LeafDivides(es: seq<Entry>, slot: nat, at: nat, pageSize: nat, longest: nat)
    requires Filling(es, slot, pageSize, longest) && 0 < at < |es|
    requires (forall i :: 0 <= i < |es| ==> EntrySizes(es)[i] <= (pageSize - 28) / 4)
             && Total(EntrySizes(es)) <= pageSize - 28 + (pageSize - 28) / 4 ==>
               Total(EntrySizes(es)[..at]) <= pageSize - 28 && Total(EntrySizes(es)[at..]) <= pageSize - 28
    ensures LeavesHold(es, at, pageSize, longest)
  {
    hide Total;
    EntrySizesCut(es, at);
    assert GoodEntry(es[slot], pageSize, longest);
  }

  ghost predicate LeavesHold(es: seq<Entry>, at: nat, pageSize: nat, longest: nat) {
    && pageSize >= 512 && at < |es| && 1 <= |es[at].key| <= longest
    && forall prev, next ::
         Holds(Leaf(es[..at], prev, next), pageSize, longest) && Holds(Leaf(es[at..], prev, next), pageSize, longest)
  }

  lemma TwoEntries(es: seq<Entry>, slot: nat, pageSize: nat, longest: nat)
    requires Filling(es, slot, pageSize, longest) && 28 + Total(EntrySizes(es)) > pageSize
    ensures |es| >= 2
  {
    hide Total;
    assert GoodEntry(es[slot], pageSize, longest);
    var size := EntryBytes(es[slot]) + 2;
    SumOne(size);
    assert |es| == 1 ==> EntrySizes(es) == [size];
  }

  // ----- interior nodes

  lemma InsertedSizes(n: Content, slot: nat, key: Key, right: PageNo)
    requires n.Interior? && slot <= |n.branches|
    ensures BranchSizes(Inserted(n, slot, key, right).branches)
         == BranchSizes(n.branches)[..slot] + [|key| + 12] + BranchSizes(n.branches)[slot..]
  {
  }

  /** A separator is added, and the node written as it is. */
  lemma SeparatorAdded(n: Content, slot: nat, key: Key, right: PageNo, pageSize: nat, longest: nat)
    requires pageSize >= 512 && n.Interior? && slot <= |n.branches| && Holds(n, pageSize, longest)
    requires 1 <= |key| <= longest
    ensures var n' := Inserted(n, slot, key, right);
            && (Fits(n', pageSize) ==> Holds(n', pageSize, longest))
            && (Roomy(longest, pageSize) ==> Overfull(BranchSizes(n'.branches), slot, longest, pageSize - 28))
            && (forall i :: 0 <= i < |n'.branches| ==> 1 <= |n'.branches[i].key| <= longest)
  {
    hide Total;
    var n' := Inserted(n, slot, key, right);
    var c := BranchSizes(n'.branches);
    InsertedSizes(n, slot, key, right);
    SumWithout(c, slot);
    assert c[..slot] + c[slot + 1..] == BranchSizes(n.branches);
    forall i | 0 <= i < |n'.branches| ensures 1 <= |n'.branches[i].key| <= longest {
      assert c[i] == |n'.branches[i].key| + 12;
      if i < slot { assert c[i] == BranchSizes(n.branches)[i]; }
      if i > slot { assert c[i] == BranchSizes(n.branches)[i - 1]; }
    }
  }

  ghost predicate NodesHold(bs: seq<Branch>, m: nat, pageSize: nat, longest: nat) {
    && pageSize >= 512 && m < |bs| && 1 <= |bs[m].key| <= longest
    && forall right ::
         Holds(Interior(bs[..m], right), pageSize, longest) && Holds(Interior(bs[m + 1..], right), pageSize, longest)
  }

  /** If it does not fit, it is divided, and both halves hold. */
  lemma NodeDivides(bs: seq<Branch>, slot: nat, pageSize: nat, longest: nat)
    requires pageSize >= 512 && bs != [] && (forall i :: 0 <= i < |bs| ==> 1 <= |bs[i].key| <= longest)
    requires Roomy(longest, pageSize) ==> Overfull(BranchSizes(bs), slot, longest, pageSize - 28)
    ensures NodesHold(bs, |bs| / 2, pageSize, longest)
  {
    hide Total;
    var m, c := |bs| / 2, BranchSizes(bs);
    if Roomy(longest, pageSize) {
      LowerFits(c, slot, longest, pageSize - 28);
      UpperFits(c, slot, longest, pageSize - 28);
    }
    assert BranchSizes(bs[..m]) == c[..m] && BranchSizes(bs[m + 1..]) == c[m + 1..];
  }

  /** A root that has just split. */
  lemma TopHolds(key: Key, left: PageNo, right: PageNo, pageSize: nat, longest: nat)
    requires pageSize >= 512 && 1 <= |key| <= longest
    ensures Holds(Interior([Branch(key, left)], right), pageSize, longest)
  {
    assert BranchSizes([Branch(key, left)]) == [|key| + 12];
    SumOne(|key| + 12);
    if Roomy(longest, pageSize) && longest >= 2 {
      assert (longest + 11) / 13 >= 1;
      assert ((longest + 11) / 13) * (longest + 12) >= longest + 12;
    }
  }

  lemma BranchGone(n: Content, slot: nat, pageSize: nat, longest: nat)
    requires pageSize >= 512 && n.Interior? && n.branches != [] && slot <= |n.branches| && Holds(n, pageSize, longest)
    ensures Holds(Without(n, slot), pageSize, longest)
  {
    hide Total;
    var i := if slot < |n.branches| then slot else |n.branches| - 1;
    var c := BranchSizes(n.branches);
    assert BranchSizes(Without(n, slot).branches) == c[..i] + c[i + 1..];
    SumWithout(c, i);
    WithoutAt(n, slot);
  }

  lemma ChildReplaced(n: Content, slot: nat, child: PageNo, pageSize: nat, longest: nat)
    requires pageSize >= 512 && n.Interior? && slot <= |n.branches| && Holds(n, pageSize, longest)
    ensures Holds(WithChild(n, slot, child), pageSize, longest)
  {
    assert BranchSizes(WithChild(n, slot, child).branches) == BranchSizes(n.branches);
  }
}
