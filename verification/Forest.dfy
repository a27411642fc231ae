/** Many trees, over one transaction after another, committed or rolled back. Whatever is created, filled, emptied
    and destroyed, each tree is the map its own commands describe, and every page but page 0 is a
    node of one tree, an overflow page of one tree, or free (engine/src/engine/btree.cpp with WriteTxn in
    engine/src/engine/db.cpp). */
module Forest {
  import opened PageFormat
  import opened KeyOrder
  import opened Pager
  import opened TreeState
  import opened MapTree

  /** Trees are named by the order of their creation. */
  datatype Command =
    | Create
    | Put(tree: nat, key: Key, value: Bytes)
    | InsertIfAbsent(tree: nat, key: Key, value: Bytes)
    | Erase(tree: nat, key: Key)
    | Destroy(tree: nat)
    | Commit
    | Rollback

  type Contents = seq<Option<map<Key, Bytes>>>

  /** What one command means. */
  function Effect(c: Contents, command: Command, pageSize: nat): Contents
    requires pageSize >= 512
  {
    match command
    case Create => c + [Some(map[])]
    case Put(i, k, v) =>
      if i < |c| && c[i].Some? && 1 <= |k| <= MaxKey(pageSize) then c[i := Some(c[i].value[k := v])] else c
    case InsertIfAbsent(i, k, v) =>
      if i < |c| && c[i].Some? && 1 <= |k| <= MaxKey(pageSize) && k !in c[i].value then c[i := Some(c[i].value[k := v])]
        else c
    case Erase(i, k) => if i < |c| && c[i].Some? then c[i := Some(c[i].value - {k})] else c
    case Destroy(i) => if i < |c| then c[i := None] else c
    case Commit => c
    case Rollback => c
  }

  /** No key it puts is longer, unless too long for any tree. */
  predicate KeyWithin(command: Command, pageSize: nat, longest: nat)
    requires pageSize >= 512
  {
    (command.Put? || command.InsertIfAbsent?) && 1 <= |command.key| <= MaxKey(pageSize) ==> |command.key| <= longest
  }

  /** What the trees hold now, and what they held at the last commit. */
  datatype History = History(now: Contents, committed: Contents)

  function Meaning(script: seq<Command>, n: nat, pageSize: nat): History
    requires n <= |script| && pageSize >= 512
  {
    if n == 0 then History([], []) else Advance(Meaning(script, n - 1, pageSize), script[n - 1], pageSize)
  }

  function Advance(h: History, command: Command, pageSize: nat): History
    requires pageSize >= 512
  {
    match command
    case Commit => History(h.now, h.now)
    case Rollback => History(h.committed, h.committed)
    case _ => h.(now := Effect(h.now, command, pageSize))
  }

  /** A tree of the forest and where its root is. */
  datatype Plot = Plot(root: PageNo, tree: Tree)

  predicate Belongs(plots: seq<Option<Plot>>, i: nat, p: PageNo) {
    i < |plots| && plots[i].Some? && p in plots[i].value.tree.Footprint()
  }

  /** The plots not yet destroyed are good trees, and `owner` says which of them each page in use belongs to. */
  ghost predicate Planted(view: Pages, live: set<PageNo>, plots: seq<Option<Plot>>, owner: map<PageNo, nat>, cap: nat)
    requires cap > 0
  {
    && owner.Keys == live
    && (forall p :: p in owner ==> Belongs(plots, owner[p], p))
    && (forall i: nat, p :: Belongs(plots, i, p) ==> p in owner && owner[p] == i)
    && (forall i :: 0 <= i < |plots| && plots[i].Some? ==> Grows(view, plots[i].value, cap))
  }

  ghost predicate Grows(view: Pages, plot: Plot, cap: nat)
    requires cap > 0
  {
    Good(view, plot.tree, plot.root, cap) && Full(view, plot.tree, plot.root, 0)
  }

  ghost function OwnerAfter(live': set<PageNo>, owner: map<PageNo, nat>, i: nat, footprint: set<PageNo>): map<PageNo,
    nat>
    requires live' - footprint <= owner.Keys
  {
    map p | p in live' :: if p in footprint then i else owner[p]
  }

  /** One plot changed, in its own pages and pages that were in no use. */
  lemma OnePlot(view: Pages, live: set<PageNo>, plots: seq<Option<Plot>>, owner: map<PageNo, nat>, cap: nat,
                view': Pages, live': set<PageNo>, i: nat, plot: Option<Plot>)
    requires cap > 0 && Planted(view, live, plots, owner, cap) && i < |plots| && plots[i].Some?
    requires var footprint := if plot.Some? then plot.value.tree.Footprint() else {};
             && footprint <= live' && live' - footprint == live - plots[i].value.tree.Footprint()
             && (plot.Some? ==> Grows(view', plot.value, cap))
    requires forall p :: p in live && p !in plots[i].value.tree.Footprint() ==>
               p in view && p in view' && view'[p] == view[p]
    ensures var footprint := if plot.Some? then plot.value.tree.Footprint() else {};
            live' - footprint <= owner.Keys
              && Planted(view', live', plots[i := plot], OwnerAfter(live', owner, i, footprint), cap)
  {
    hide Good, Full;
    var footprint := if plot.Some? then plot.value.tree.Footprint() else {};
    var plots', owner' := plots[i := plot], OwnerAfter(live', owner, i, footprint);
    forall j | 0 <= j < |plots'| && plots'[j].Some? ensures Grows(view', plots'[j].value, cap) {
      if j != i {
        var t := plots[j].value.tree;
        forall p | p in t.Footprint() ensures p in live && p !in plots[i].value.tree.Footprint() {
          assert Belongs(plots, j, p) && (Belongs(plots, i, p) || !Belongs(plots, i, p));
        }
        assert Grows(view, plots[j].value, cap);
        GoodFrame(view, view', t, plots[j].value.root, cap);
      }
    }
    forall j: nat, p | Belongs(plots', j, p) ensures p in owner' && owner'[p] == j {
      if j != i {
        assert Belongs(plots, j, p) && (Belongs(plots, i, p) || !Belongs(plots, i, p));
        assert p in live - plots[i].value.tree.Footprint();
      }
    }
    forall p | p in owner' ensures Belongs(plots', owner'[p], p) {
      if p !in footprint { assert Belongs(plots, owner[p], p); }
    }
  }

  /** A committed file: its pages and header, and the trees in it. */
  datatype Saved = Saved(pages: Pages, count: nat, head: PageNo, length: nat, roots: seq<PageNo>, standing: seq<bool>)

  ghost predicate SavedOk(s: Saved, list: seq<PageNo>, plots: seq<Option<Plot>>, owner: map<PageNo, nat>, cap: nat)
    requires cap > 0
  {
    && s.count >= 1 && (forall p :: p in s.pages <==> 0 <= p < s.count) && IsFreeList(s.pages, s.head, list)
       && |list| == s.length
    && Marked(s.roots, s.standing, plots) && Planted(s.pages, s.pages.Keys - {0} - Elements(list), plots, owner, cap)
  }

  /** Roots are where the plots are, and those not destroyed are standing. */
  ghost predicate Marked(roots: seq<PageNo>, standing: seq<bool>, plots: seq<Option<Plot>>) {
    && |roots| == |standing| == |plots|
    && (forall i :: 0 <= i < |plots| ==>
          (standing[i] <==> plots[i].Some?) && (plots[i].Some? ==> plots[i].value.root == roots[i]))
  }

  class Forest {
    const pageSize: nat
    ghost const longest: nat
    var txn: WriteTxn
    var roots: seq<PageNo>
    var standing: seq<bool>
    var saved: Saved   // at the last commit
    ghost var plots: seq<Option<Plot>>
    ghost var owner: map<PageNo, nat>
    ghost var savedList: seq<PageNo>
    ghost var savedPlots: seq<Option<Plot>>
    ghost var savedOwner: map<PageNo, nat>

    ghost predicate Valid()
      reads this, txn
    {
      && pageSize >= 512 && txn.Valid() && txn.pageSize == pageSize && txn.longest == longest
      && |roots| == |standing| == |plots|
      && (forall i :: 0 <= i < |plots| ==>
            (standing[i] <==> plots[i].Some?) && (plots[i].Some? ==> plots[i].value.root == roots[i]))
      && Planted(txn.View(), txn.Live(), plots, owner, pageSize - 12)
      && SavedOk(saved, savedList, savedPlots, savedOwner, pageSize - 12) && AllHold(saved.pages, pageSize, longest)
    }

    /** What the trees held at the last commit. */
    ghost function SavedMaps(): Contents
      reads this
    {
      MapsOf(savedPlots)
    }

    /** What the trees hold, as maps. */
    ghost function Maps(): (r: Contents)
      reads this
      ensures |r| == |plots|
    {
      MapsOf(plots)
    }

    ghost function Held(): History
      reads this
    {
      History(Maps(), SavedMaps())
    }

    /** A database with no tree and every page free. */
    constructor (txn: WriteTxn)
      requires txn.pageSize >= 512 && txn.Valid() && txn.Live() == {}
      ensures this.txn == txn && pageSize == txn.pageSize && longest == txn.longest && Valid() && Maps() == []
      ensures SavedMaps() == []
    {
      this.txn, pageSize, longest := txn, txn.pageSize, txn.longest;
      roots, standing, plots, owner := [], [], [], map[];
      saved := Saved(txn.snapshot + txn.dirty, txn.pageCount, txn.freeHead, txn.freeCount, [], []);
      savedList, savedPlots, savedOwner := txn.freeList, [], map[];
    }

    /** Commit: the next transaction begins from the pages this one leaves, with nothing freed in it yet. */
    method Commit()
      requires Valid()
      modifies this
      ensures Valid() && fresh(txn) && Maps() == old(Maps()) && SavedMaps() == old(Maps())
    {
      hide Good, Full, Planted, IsFreeList, Elements, MapsOf, AllHold;
      saved := Saved(txn.snapshot + txn.dirty, txn.pageCount, txn.freeHead, txn.freeCount, roots, standing);
      savedList, savedPlots, savedOwner := txn.freeList, plots, owner;
      assert saved.pages.Keys - {0} - Elements(savedList) == txn.Live();
      txn := new WriteTxn(saved.pages, saved.count, pageSize, saved.head, saved.length, savedList, longest);
    }

    /** Rollback, or a commit that failed: the next transaction begins from the last commit. */
    method Rollback()
      requires Valid()
      modifies this
      ensures Valid() && fresh(txn) && Maps() == old(SavedMaps()) && SavedMaps() == old(SavedMaps())
    {
      hide Good, Full, Planted, IsFreeList, Elements, MapsOf, AllHold;
      roots, standing, plots, owner := saved.roots, saved.standing, savedPlots, savedOwner;
      txn := new WriteTxn(saved.pages, saved.count, pageSize, saved.head, saved.length, savedList, longest);
    }

    method Create()
      requires Valid()
      modifies this`roots, this`standing, this`plots, this`owner, txn
      ensures Valid() && Maps() == old(Maps()) + [Some(map[])]
    {
      hide Good, Full, WriteTxn.Valid, WriteTxn.View, WriteTxn.Live, SavedOk;
      ghost var view, live := txn.View(), txn.Live();
      txn.LiveInView();
      ghost var tree;
      var s, root;
      s, root, tree := BTree.Create(txn);
      NewPlot(view, live, plots, owner, pageSize - 12, txn.View(), Plot(root, tree));
      roots, standing := roots + [root], standing + [true];
      plots, owner := plots + [Some(Plot(root, tree))], owner[root := |plots|];
    }

    /** Opens a standing tree, to work on. */
    method OpenTree(i: nat) returns (b: BTree)
      requires Valid() && i < |roots| && standing[i]
      ensures fresh(b) && b.txn == txn && b.root == roots[i] && b.t == plots[i].value.tree && b.Valid()
    {
      hide Good, Full, WriteTxn.Valid, WriteTxn.View, WriteTxn.Live, SavedOk;
      b := new BTree(txn, roots[i], plots[i].value.tree);
      assert Grows(txn.View(), plots[i].value, pageSize - 12);
      forall p | p in b.t.Footprint() ensures p in txn.Live() { assert Belongs(plots, i, p); }
    }

    /** After work on one tree, its plot is what the work left. */
    ghost method Replant(i: nat, b: BTree, view: Pages, live: set<PageNo>)
      requires pageSize >= 512 && |roots| == |standing| == |plots| && i < |plots| && plots[i].Some? && standing[i]
      requires plots[i].value.root == roots[i]
      requires forall j :: 0 <= j < |plots| ==>
                 (standing[j] <==> plots[j].Some?) && (plots[j].Some? ==> plots[j].value.root == roots[j])
      requires Planted(view, live, plots, owner, pageSize - 12)
      requires b.txn == txn && b.root == roots[i] && b.Valid()
      requires b.Outside() == map p | p in view && p in live && p !in plots[i].value.tree.Footprint() :: view[p]
      requires live <= view.Keys && SavedOk(saved, savedList, savedPlots, savedOwner, pageSize - 12)
      requires AllHold(saved.pages, pageSize, longest)
      requires txn.pageSize == pageSize && txn.longest == longest
      modifies this`plots, this`owner
      ensures Valid() && Maps() == old(Maps())[i := Some(b.t.Map())]
    {
      hide Good, Full, WriteTxn.Valid, WriteTxn.View, WriteTxn.Live, Planted, SavedOk;
      var plot, out := Plot(roots[i], b.t), b.Outside();
      txn.LiveInView();
      assert out.Keys == txn.Live() - b.t.Footprint() && out.Keys == live - plots[i].value.tree.Footprint();
      forall p | p in live && p !in plots[i].value.tree.Footprint()
        ensures p in txn.View() && txn.View()[p] == view[p]
      {
        assert p in out;
      }
      OnePlot(view, live, plots, owner, pageSize - 12, txn.View(), txn.Live(), i, Some(plot));
      owner := OwnerAfter(txn.Live(), owner, i, b.t.Footprint());
      plots := plots[i := Some(plot)];
    }

    method Put(i: nat, key: Key, value: Bytes)
      requires Valid() && (1 <= |key| <= MaxKey(pageSize) ==> |key| <= longest)
      modifies this`plots, this`owner, txn
      ensures Valid() && Maps() == Effect(old(Maps()), Command.Put(i, key, value), pageSize)
    {
      hide Good, Full, WriteTxn.Valid, WriteTxn.View, WriteTxn.Live, Planted, SavedOk;
      if i < |roots| && standing[i] {
        ghost var view, live := txn.View(), txn.Live();
        txn.LiveInView();
        var b := OpenTree(i);
        var s := b.Put(key, value);
        Replant(i, b, view, live);
      }
    }

    method InsertIfAbsent(i: nat, key: Key, value: Bytes)
      requires Valid() && (1 <= |key| <= MaxKey(pageSize) ==> |key| <= longest)
      modifies this`plots, this`owner, txn
      ensures Valid() && Maps() == Effect(old(Maps()), Command.InsertIfAbsent(i, key, value), pageSize)
    {
      hide Good, Full, WriteTxn.Valid, WriteTxn.View, WriteTxn.Live, Planted, SavedOk;
      if i < |roots| && standing[i] {
        ghost var view, live := txn.View(), txn.Live();
        txn.LiveInView();
        var b := OpenTree(i);
        var s, inserted := b.InsertIfAbsent(key, value);
        Replant(i, b, view, live);
      }
    }

    method Erase(i: nat, key: Key)
      requires Valid()
      modifies this`plots, this`owner, txn
      ensures Valid() && Maps() == Effect(old(Maps()), Command.Erase(i, key), pageSize)
    {
      hide Good, Full, WriteTxn.Valid, WriteTxn.View, WriteTxn.Live, Planted, SavedOk;
      if i < |roots| && standing[i] {
        ghost var view, live := txn.View(), txn.Live();
        txn.LiveInView();
        var b := OpenTree(i);
        var s, existed := b.Erase(key);
        Replant(i, b, view, live);
      }
    }

    method Destroy(i: nat)
      requires Valid()
      modifies this`standing, this`plots, this`owner, txn
      ensures Valid() && Maps() == Effect(old(Maps()), Command.Destroy(i), pageSize)
    {
      hide Good, Full, WriteTxn.Valid, WriteTxn.View, WriteTxn.Live, Planted, BTree.Valid, SavedOk;
      if i < |roots| && standing[i] {
        ghost var view, live := txn.View(), txn.Live();
        txn.LiveInView();
        var b := OpenTree(i);
        var s := b.Destroy();
        OnePlot(view, live, plots, owner, pageSize - 12, txn.View(), txn.Live(), i, None);
        owner := OwnerAfter(txn.Live(), owner, i, {});
        plots := plots[i := None];
        standing := standing[i := false];
      }
    }

    method Step(command: Command)
      requires Valid() && KeyWithin(command, pageSize, longest)
      modifies this, txn
      ensures Valid() && (txn == old(txn) || fresh(txn))
      ensures Held() == Advance(old(Held()), command, pageSize)
    {
      hide Valid, Maps, MapsOf;
      match command
      case Commit => Commit();
      case Rollback => Rollback();
      case Create => Create();
      case Put(i, k, v) => Put(i, k, v);
      case InsertIfAbsent(i, k, v) => InsertIfAbsent(i, k, v);
      case Erase(i, k) => Erase(i, k);
      case Destroy(i) => Destroy(i);
    }
  }

  /** Any script, over any number of transactions: the trees hold what the commands say, and every page but page 0 is
      free or belongs to exactly one standing tree. */
  method Run(txn: WriteTxn, script: seq<Command>) returns (forest: Forest)
    requires txn.pageSize >= 512 && txn.Valid() && txn.Live() == {}
    requires forall i :: 0 <= i < |script| ==> KeyWithin(script[i], txn.pageSize, txn.longest)
    modifies txn
    ensures fresh(forest) && forest.Valid() && forest.txn.pageSize == txn.pageSize && forest.txn.longest == txn.longest
    ensures forest.Held() == Meaning(script, |script|, txn.pageSize)
    ensures forall p: PageNo :: 1 <= p < forest.txn.pageCount ==>
              (p in forest.txn.freeList) != (exists i: nat :: Belongs(forest.plots, i, p))
    ensures |forest.txn.freeList| == forest.txn.freeCount
    ensures forall p :: p in forest.txn.View() ==>
              Fits(forest.txn.View()[p], txn.pageSize)
                || (forest.txn.View()[p].Interior? && !Roomy(txn.longest, txn.pageSize))
  {
    forest := new Forest(txn);
    var n := 0;
    while n < |script|
      invariant n <= |script| && fresh(forest) && (forest.txn == txn || fresh(forest.txn)) && forest.Valid()
      invariant forest.pageSize == txn.pageSize && forest.longest == txn.longest
      invariant forest.Held() == Meaning(script, n, txn.pageSize)
    {
      hide Forest.Valid, Forest.Held, Advance;
      forest.Step(script[n]);
      n := n + 1;
    }
    Partition(forest);
    NoneOverfull(forest);
  }

  lemma NoneOverfull(forest: Forest)
    requires forest.Valid()
    ensures forest.txn.pageSize == forest.pageSize && forest.txn.longest == forest.longest
    ensures forall p :: p in forest.txn.View() ==>
              Fits(forest.txn.View()[p], forest.pageSize)
                || (forest.txn.View()[p].Interior? && !Roomy(forest.longest, forest.pageSize))
  {
    hide Planted, SavedOk, IsFreeList, Fits, Roomy;
    forall p | p in forest.txn.View()
      ensures Fits(forest.txn.View()[p], forest.pageSize)
              || (forest.txn.View()[p].Interior? && !Roomy(forest.longest, forest.pageSize))
    {
      forest.txn.Held(p);
    }
  }

  lemma Partition(forest: Forest)
    requires forest.Valid()
    ensures forall p: PageNo :: 1 <= p < forest.txn.pageCount ==>
              (p in forest.txn.freeList) != (exists i: nat :: Belongs(forest.plots, i, p))
    ensures |forest.txn.freeList| == forest.txn.freeCount
  {
    hide Good, Full, SavedOk;
    var txn := forest.txn;
    forall p: PageNo | 1 <= p < txn.pageCount
      ensures (p in txn.freeList) != (exists i: nat :: Belongs(forest.plots, i, p))
    {
      assert p in txn.View();
      if p !in txn.freeList {
        assert p in txn.Live() && Belongs(forest.plots, forest.owner[p], p);
      }
    }
  }

  function MapsOf(plots: seq<Option<Plot>>): (r: Contents)
    ensures |r| == |plots|
    ensures forall i :: 0 <= i < |plots| ==> r[i] == if plots[i].Some? then Some(plots[i].value.tree.Map()) else None
  {
    if plots == [] then [] else
    var last := plots[|plots| - 1];
    MapsOf(plots[..|plots| - 1]) + [if last.Some? then Some(last.value.tree.Map()) else None]
  }

  lemma NewPlot(view: Pages, live: set<PageNo>, plots: seq<Option<Plot>>, owner: map<PageNo, nat>, cap: nat,
                view': Pages, plot: Plot)
    requires cap > 0 && Planted(view, live, plots, owner, cap) && plot.tree.Footprint() == {plot.root}
    requires plot.root !in live
    requires Grows(view', plot, cap) && forall p :: p in live ==> p in view && p in view' && view'[p] == view[p]
    ensures Planted(view', live + {plot.root}, plots + [Some(plot)], owner[plot.root := |plots|], cap)
  {
    hide Good, Full;
    var plots', owner' := plots + [Some(plot)], owner[plot.root := |plots|];
    forall j | 0 <= j < |plots'| && plots'[j].Some? ensures Grows(view', plots'[j].value, cap) {
      if j < |plots| {
        var t := plots[j].value.tree;
        forall p | p in t.Footprint() ensures p in live { assert Belongs(plots, j, p); }
        assert Grows(view, plots[j].value, cap);
        GoodFrame(view, view', t, plots[j].value.root, cap);
      }
    }
    forall j: nat, p | Belongs(plots', j, p) ensures p in owner' && owner'[p] == j {
      if j < |plots| { assert Belongs(plots, j, p); }
    }
    forall p | p in owner' ensures Belongs(plots', owner'[p], p) {
      if p != plot.root { assert Belongs(plots, owner[p], p); }
    }
  }
}
