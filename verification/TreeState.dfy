/** A tree as a finite map: shape, values and overflow chains together. */
module TreeState {
  import opened PageFormat
  import opened KeyOrder
  import opened Pager
  import opened TreeShape
  import opened TreeMoves
  import opened TreeValues

  // ----- overflow chains

  /** The first `cap` bytes, or all of them. */
  function Head(v: Bytes, cap: nat): Bytes { if |v| < cap then v else v[..cap] }

  function Rest(v: Bytes, cap: nat): (r: Bytes)
    ensures Head(v, cap) + r == v
  {
    if |v| < cap then [] else v[cap..]
  }

  function Padded(v: Bytes, cap: nat): (r: Bytes)
    ensures |v| <= cap ==> |r| == cap
    ensures |r| >= |v| && r[..|v|] == v
  {
    v + if |v| < cap then seq(cap - |v|, _ => 0) else []
  }

  lemma PaddedFull(v: Bytes, cap: nat)
    ensures |Padded(Head(v, cap), cap)| == cap
  {
  }

  /** The pages of `chain`, in order, spell `v`. */
  ghost predicate ChainIs(pages: Pages, chain: seq<PageNo>, v: Bytes, cap: nat)
    requires cap > 0
    decreases |chain|
  {
    if chain == [] then v == []
    else
      && v != [] && chain[0] in pages && chain[0] != 0
      && pages[chain[0]] == Overflow(At(chain, 1), Padded(Head(v, cap), cap))
      && ChainIs(pages, chain[1..], Rest(v, cap), cap)
  }

  lemma {:induction false} ChainFrame(pages: Pages, pages': Pages, chain: seq<PageNo>, v: Bytes, cap: nat)
    requires cap > 0 && ChainIs(pages, chain, v, cap)
    requires forall i :: 0 <= i < |chain| ==>
               chain[i] in pages && chain[i] in pages' && pages'[chain[i]] == pages[chain[i]]
    ensures ChainIs(pages', chain, v, cap)
    decreases |chain|
  {
    if chain != [] { ChainFrame(pages, pages', chain[1..], Rest(v, cap), cap); }
  }

  lemma {:induction false} ChainInPages(pages: Pages, chain: seq<PageNo>, v: Bytes, cap: nat)
    requires cap > 0 && ChainIs(pages, chain, v, cap)
    ensures forall i :: 0 <= i < |chain| ==> chain[i] in pages && chain[i] != 0
    decreases |chain|
  {
    if chain != [] {
      ChainInPages(pages, chain[1..], Rest(v, cap), cap);
      forall i | 0 <= i < |chain| ensures chain[i] in pages && chain[i] != 0 {
        if i > 0 { assert chain[i] == chain[1..][i - 1]; }
      }
    }
  }

  lemma ChainEmpty(pages: Pages, chain: seq<PageNo>, v: Bytes, cap: nat)
    requires cap > 0 && ChainIs(pages, chain, v, cap)
    ensures v == [] <==> chain == []
  {
  }

  /** The bytes from page `i` of a chain on. */
  ghost function Suffix(v: Bytes, i: nat, cap: nat): Bytes { if i == 0 then v else Rest(Suffix(v, i - 1, cap), cap) }

  lemma {:induction false} SuffixLength(v: Bytes, i: nat, cap: nat)
    ensures |Suffix(v, i, cap)| == if i * cap <= |v| then |v| - i * cap else 0
  {
    if i > 0 {
      SuffixLength(v, i - 1, cap);
      assert i * cap == (i - 1) * cap + cap;
    }
  }

  lemma SuffixStart(v: Bytes, cap: nat)
    ensures Suffix(v, 0, cap) == v
  {
  }

  lemma SuffixNext(v: Bytes, i: nat, cap: nat)
    ensures Suffix(v, i + 1, cap) == Rest(Suffix(v, i, cap), cap)
  {
  }

  lemma Ceiling(len: nat, cap: nat)
    requires cap > 0
    ensures var n := (len + cap - 1) / cap; len <= n * cap < len + cap
  {
    var n := (len + cap - 1) / cap;
    assert len + cap - 1 == n * cap + (len + cap - 1) % cap;
  }

  lemma CountedBelow(len: nat, cap: nat, i: nat, n: nat)
    requires len <= n * cap < len + cap
    ensures i < n <==> i * cap < len
  {
    if i < n { MulMono(i + 1, n, cap); } else { MulMono(n, i, cap); }
  }

  /** The pages that hold `v`: every one has bytes, and none are left over. */
  lemma PagesNeeded(v: Bytes, cap: nat, i: nat)
    requires cap > 0
    ensures i < (|v| + cap - 1) / cap <==> Suffix(v, i, cap) != []
  {
    hide Suffix;
    SuffixLength(v, i, cap);
    Ceiling(|v|, cap);
    CountedBelow(|v|, cap, i, (|v| + cap - 1) / cap);
  }

  lemma {:induction false} ChainBuilt(pages: Pages, chain: seq<PageNo>, v: Bytes, cap: nat, i: nat)
    requires cap > 0 && i <= |chain| == (|v| + cap - 1) / cap
    requires forall j :: 0 <= j < |chain| ==>
      chain[j] != 0 && chain[j] in pages
        && pages[chain[j]] == Overflow(At(chain, j + 1), Padded(Head(Suffix(v, j, cap), cap), cap))
    ensures ChainIs(pages, chain[i..], Suffix(v, i, cap), cap)
    decreases |chain| - i
  {
    hide Suffix, Padded, Head, Rest;
    PagesNeeded(v, cap, i);
    if i < |chain| {
      ChainBuilt(pages, chain, v, cap, i + 1);
      SuffixNext(v, i, cap);
      assert chain[i..][1..] == chain[i + 1..] && At(chain[i..], 1) == At(chain, i + 1);
    }
  }

  /** One page of a chain carries the next bytes and leads to the rest of it. */
  lemma ChainStep(pages: Pages, chain: seq<PageNo>, v: Bytes, cap: nat)
    requires cap > 0 && ChainIs(pages, chain, v, cap) && v != []
    ensures chain != [] && chain[0] != 0 && chain[0] in pages && pages[chain[0]].Overflow?
    ensures ChainIs(pages, chain[1..], Rest(v, cap), cap) && pages[chain[0]].next == At(chain[1..], 0)
    ensures var len := if cap < |v| then cap else |v|;
            && len <= |pages[chain[0]].body| && pages[chain[0]].body[..len] + Rest(v, cap) == v
            && |Rest(v, cap)| == |v| - len
  {
    assert Padded(Head(v, cap), cap)[..|Head(v, cap)|] == Head(v, cap);
  }

  lemma MulMono(a: nat, b: nat, c: nat)
    requires a <= b
    ensures a * c <= b * c
  {
  }

  lemma HopsBound(hops: nat, cap: nat, total: nat)
    requires cap > 0 && hops * cap <= total
    ensures hops <= total / cap
  {
    if hops > total / cap { MulMono(total / cap + 1, hops, cap); }
  }

  // ----- values

  datatype Vals = Vals(values: map<Key, Bytes>, chains: map<Key, seq<PageNo>>, spill: map<PageNo, Key>)

  ghost predicate StoredOk(pages: Pages, s: Stored, chain: seq<PageNo>, v: Bytes, cap: nat)
    requires cap > 0
  {
    match s
    case Inline(b) => b == v && chain == []
    case Spilled(first, total) => total == |v| && first == At(chain, 0) && ChainIs(pages, chain, v, cap)
  }

  ghost predicate ChainOwned(v: Vals, k: Key)
    requires k in v.chains
  {
    NoRepeats(v.chains[k]) && forall i :: 0 <= i < |v.chains[k]| ==>
        v.chains[k][i] in v.spill && v.spill[v.chains[k][i]] == k
  }

  ghost predicate SpillOk(sh: Shape, v: Vals, p: PageNo)
    requires p in v.spill
  {
    p != 0 && p !in sh.nodes && v.spill[p] in v.chains && p in v.chains[v.spill[p]]
  }

  /** Every cell leads to the value of its key, and every overflow page is in the chain of one key. */
  ghost predicate ValuesOk(pages: Pages, sh: Shape, v: Vals, cap: nat)
    requires cap > 0
  {
    && v.values.Keys == sh.cells.Keys && v.chains.Keys == sh.cells.Keys
    && (forall k :: k in sh.cells ==> StoredOk(pages, sh.cells[k], v.chains[k], v.values[k], cap))
    && (forall k :: k in v.chains ==> ChainOwned(v, k))
    && (forall p :: p in v.spill ==> SpillOk(sh, v, p))
  }

  lemma ValuesFrame(pages: Pages, sh: Shape, pages': Pages, sh': Shape, v: Vals, cap: nat)
    requires cap > 0 && ValuesOk(pages, sh, v, cap) && sh'.cells == sh.cells
    requires forall p :: p in v.spill ==> p !in sh'.nodes && p in pages && p in pages' && pages'[p] == pages[p]
    ensures ValuesOk(pages', sh', v, cap)
  {
    forall k | k in sh'.cells ensures StoredOk(pages', sh'.cells[k], v.chains[k], v.values[k], cap) {
      assert StoredOk(pages, sh.cells[k], v.chains[k], v.values[k], cap) && ChainOwned(v, k);
      if sh.cells[k].Spilled? { ChainFrame(pages, pages', v.chains[k], v.values[k], cap); }
    }
    forall p | p in v.spill ensures SpillOk(sh', v, p) { assert SpillOk(sh, v, p); }
  }

  /** Forgetting a key and its chain. */
  function Dropped(v: Vals, k: Key): Vals
    requires k in v.chains
  {
    Vals(v.values - {k}, v.chains - {k}, map p | p in v.spill && v.spill[p] != k :: v.spill[p])
  }

  lemma DroppedOk(pages: Pages, sh: Shape, v: Vals, cap: nat, k: Key)
    requires cap > 0 && ValuesOk(pages, sh, v, cap) && k in sh.cells
    ensures ValuesOk(pages, sh.(home := sh.home - {k}, cells := sh.cells - {k}), Dropped(v, k), cap)
    ensures forall p :: p in v.spill <==> p in Dropped(v, k).spill || p in v.chains[k]
    ensures forall p :: p in v.chains[k] ==> p !in Dropped(v, k).spill
  {
    hide StoredOk;
    var sh', v' := sh.(home := sh.home - {k}, cells := sh.cells - {k}), Dropped(v, k);
    forall j | j in v'.chains ensures ChainOwned(v', j) { assert ChainOwned(v, j); }
    forall p | p in v'.spill ensures SpillOk(sh', v', p) { assert SpillOk(sh, v, p); }
    forall p ensures p in v.spill <==> p in v'.spill || p in v.chains[k] {
      assert ChainOwned(v, k);
      if p in v.spill { assert SpillOk(sh, v, p); }
    }
    assert ChainOwned(v, k);
  }

  /** A new key with its value, stored in `chain` if it was spilled. */
  function Added(v: Vals, k: Key, value: Bytes, chain: seq<PageNo>): Vals {
    Vals(v.values[k := value], v.chains[k := chain], map p | p in v.spill.Keys + (set q | q in chain) ::
           if p in chain then k else v.spill[p])
  }

  lemma AddedOk(pages: Pages, sh: Shape, v: Vals, cap: nat, k: Key, home: PageNo, s: Stored, value: Bytes,
                chain: seq<PageNo>)
    requires cap > 0 && ValuesOk(pages, sh, v, cap) && k !in sh.cells
    requires StoredOk(pages, s, chain, value, cap) && NoRepeats(chain)
    requires forall q :: q in chain ==> q != 0 && q !in sh.nodes && q !in v.spill
    ensures ValuesOk(pages, sh.(home := sh.home[k := home], cells := sh.cells[k := s]), Added(v, k, value, chain), cap)
  {
    hide StoredOk;
    var sh', v' := sh.(home := sh.home[k := home], cells := sh.cells[k := s]), Added(v, k, value, chain);
    forall j | j in v'.chains ensures ChainOwned(v', j) { AddedChain(v, k, value, chain, j); }
    forall p | p in v'.spill ensures SpillOk(sh', v', p) { AddedSpill(sh, v, k, value, chain, p); }
  }

  lemma AddedChain(v: Vals, k: Key, value: Bytes, chain: seq<PageNo>, j: Key)
    requires k !in v.chains && j in Added(v, k, value, chain).chains && NoRepeats(chain)
    requires forall q :: q in chain ==> q !in v.spill
    requires j != k ==> ChainOwned(v, j)
    ensures ChainOwned(Added(v, k, value, chain), j)
  {
    var v' := Added(v, k, value, chain);
    forall i | 0 <= i < |v'.chains[j]| ensures v'.chains[j][i] in v'.spill && v'.spill[v'.chains[j][i]] == j {
      if j != k { assert v.chains[j][i] in v.spill; }
    }
  }

  lemma AddedSpill(sh: Shape, v: Vals, k: Key, value: Bytes, chain: seq<PageNo>, p: PageNo)
    requires k !in v.chains && p in Added(v, k, value, chain).spill
    requires p in v.spill ==> SpillOk(sh, v, p)
    requires forall q :: q in chain ==> q != 0 && q !in sh.nodes && q !in v.spill
    ensures SpillOk(sh, Added(v, k, value, chain), p)
  {
  }

  // ----- a whole tree

  datatype Tree = Tree(sh: Shape, vals: Vals)
  {
    function Footprint(): set<PageNo> { sh.nodes.Keys + vals.spill.Keys }

    function Map(): map<Key, Bytes> { vals.values }
  }

  ghost predicate Good(pages: Pages, t: Tree, root: PageNo, cap: nat)
    requires cap > 0
  {
    Shaped(pages, t.sh, root) && ValuesOk(pages, t.sh, t.vals, cap)
  }

  /** Only the root may be empty (and `x`, for a moment). */
  ghost predicate Full(pages: Pages, t: Tree, root: PageNo, x: PageNo) {
    forall p :: IsLeaf(pages, t.sh, p) && p != root && p != x ==> pages[p].entries != []
  }

  /** A tree depends on its own pages alone. */
  lemma GoodFrame(pages: Pages, pages': Pages, t: Tree, root: PageNo, cap: nat)
    requires cap > 0 && Good(pages, t, root, cap)
    requires (forall p :: p in t.Footprint() ==> p in pages && p in pages' && pages'[p] == pages[p])
    ensures Good(pages', t, root, cap)
    ensures forall x :: Full(pages, t, root, x) ==> Full(pages', t, root, x)
  {
    hide Pos;
    assert forall p :: IsLeaf(pages, t.sh, p) <==> IsLeaf(pages', t.sh, p);
    assert Shaped(pages', t.sh, root) by { ShapedFrame(pages, pages', t.sh, root); }
    ValuesFrame(pages, t.sh, pages', t.sh, t.vals, cap);
  }

  lemma ShapedFrame(pages: Pages, pages': Pages, sh: Shape, root: PageNo)
    requires Shaped(pages, sh, root)
    requires (forall p :: p in sh.nodes ==> p in pages && p in pages' && pages'[p] == pages[p])
    ensures Shaped(pages', sh, root)
  {
    hide Pos;
    forall p | p in sh.nodes ensures NodeOk(pages', sh, p) { assert NodeOk(pages, sh, p); }
    forall p | p in sh.nodes && p != root ensures ParentOk(pages', sh, p) { assert ParentOk(pages, sh, p); }
    forall k | k in sh.home ensures KeyOk(pages', sh, k) { assert KeyOk(pages, sh, k); }
    ApartFrame(pages, sh, pages', sh);
  }

  lemma SpillApart(pages: Pages, t: Tree, root: PageNo, cap: nat, p: PageNo)
    requires cap > 0 && Good(pages, t, root, cap) && p in t.vals.spill
    ensures p != 0 && p !in t.sh.nodes && p in pages
  {
    hide Shaped;
    assert SpillOk(t.sh, t.vals, p);
    var k := t.vals.spill[p];
    assert StoredOk(pages, t.sh.cells[k], t.vals.chains[k], t.vals.values[k], cap);
    ChainInPages(pages, t.vals.chains[k], t.vals.values[k], cap);
  }

  /** The tree without the entry at `slot` of leaf `p`. */
  ghost function Removed(pages: Pages, t: Tree, root: PageNo, p: PageNo, slot: nat): Tree
    requires IsLeaf(pages, t.sh, p) && slot < |pages[p].entries| && pages[p].entries[slot].key in t.vals.chains
  {
    Tree(EntryRemove(pages, t.sh, root, p, slot).Shape'(), Dropped(t.vals, pages[p].entries[slot].key))
  }

  lemma RemovedIsGood(pages: Pages, t: Tree, root: PageNo, cap: nat, p: PageNo, slot: nat)
    requires cap > 0 && Good(pages, t, root, cap) && IsLeaf(pages, t.sh, p) && slot < |pages[p].entries|
    ensures var k, x := pages[p].entries[slot].key, EntryRemove(pages, t.sh, root, p, slot);
            && k in t.vals.chains && k in t.vals.values && k in t.sh.home
            && StoredOk(pages, pages[p].entries[slot].stored, t.vals.chains[k], t.vals.values[k], cap)
            && NoRepeats(t.vals.chains[k]) && Elements(t.vals.chains[k]) <= t.vals.spill.Keys
            && var t' := Removed(pages, t, root, p, slot);
               && Good(pages[p := x.Leaf'()], t', root, cap)
               && t'.Footprint() == t.Footprint() - Elements(t.vals.chains[k])
               && Elements(t.vals.chains[k]) !! t.sh.nodes.Keys
               && k !in t'.sh.home && t'.sh.nodes == t.sh.nodes && t'.Map() == t.Map() - {k}
  {
    hide Shaped, StoredOk, Pos;
    var x := EntryRemove(pages, t.sh, root, p, slot);
    var k := x.Key();
    x.Keeps();
    x.Place();
    assert ChainOwned(t.vals, k) && StoredOk(pages, t.sh.cells[k], t.vals.chains[k], t.vals.values[k], cap);
    DroppedOk(pages, t.sh, t.vals, cap, k);
    forall q | q in t.vals.spill ensures q in pages && q !in t.sh.nodes { SpillApart(pages, t, root, cap, q); }
    ValuesFrame(pages, x.Shape'(), pages[p := x.Leaf'()], x.Shape'(), Dropped(t.vals, k), cap);
  }

  /** The tree with a new entry at `slot` of leaf `p`. */
  ghost function Extended(pages: Pages, t: Tree, root: PageNo, p: PageNo, slot: nat, e: Entry, v: Bytes,
                          chain: seq<PageNo>): Tree
    requires EntryInsert(pages, t.sh, root, p, slot, e).Sites()
  {
    Tree(EntryInsert(pages, t.sh, root, p, slot, e).Shape'(), Added(t.vals, e.key, v, chain))
  }

  lemma ExtendedIsGood(pages: Pages, t: Tree, root: PageNo, cap: nat, p: PageNo, slot: nat, e: Entry, v: Bytes,
                       chain: seq<PageNo>)
    requires cap > 0 && Good(pages, t, root, cap) && EntryInsert(pages, t.sh, root, p, slot, e).Can()
    requires StoredOk(pages, e.stored, chain, v, cap) && NoRepeats(chain)
    requires forall q :: q in chain ==> q != 0 && q !in t.Footprint()
    ensures var x, t' := EntryInsert(pages, t.sh, root, p, slot, e), Extended(pages, t, root, p, slot, e, v, chain);
            && Good(pages[p := x.Leaf'()], t', root, cap) && t'.Footprint() == t.Footprint() + Elements(chain)
  {
    hide Shaped, StoredOk, Pos;
    var x, t' := EntryInsert(pages, t.sh, root, p, slot, e), Extended(pages, t, root, p, slot, e, v, chain);
    x.Keeps();
    assert e.key !in t.sh.cells by { HomesAreCells(pages, t.sh, root); }
    AddedOk(pages, t.sh, t.vals, cap, e.key, p, e.stored, v, chain);
    forall q | q in t'.vals.spill ensures q in pages && q !in t.sh.nodes {
      if q in t.vals.spill { SpillApart(pages, t, root, cap, q); } else { ChainPlaced(pages, e.stored, chain, v, cap); }
    }
    ValuesFrame(pages, x.Shape'(), pages[p := x.Leaf'()], x.Shape'(), t'.vals, cap);
  }

  lemma HomesAreCells(pages: Pages, sh: Shape, root: PageNo)
    requires Shaped(pages, sh, root)
    ensures sh.home.Keys == sh.cells.Keys
  {
  }

  lemma ChainPlaced(pages: Pages, s: Stored, chain: seq<PageNo>, v: Bytes, cap: nat)
    requires cap > 0 && StoredOk(pages, s, chain, v, cap)
    ensures forall q :: q in chain ==> q in pages
  {
    if s.Spilled? { ChainInPages(pages, chain, v, cap); }
  }

  /** A rearrangement of nodes leaves the values as they were. */
  lemma MoveGood(pages: Pages, t: Tree, pages': Pages, sh': Shape, root: PageNo, cap: nat)
    requires cap > 0 && Good(pages, t, root, cap) && Shaped(pages', sh', root) && sh'.cells == t.sh.cells
    requires forall q :: q in t.vals.spill ==> q !in sh'.nodes && q in pages' && (q in pages ==> pages'[q] == pages[q])
    ensures Good(pages', Tree(sh', t.vals), root, cap)
  {
    hide Shaped;
    forall q | q in t.vals.spill ensures q in pages { SpillApart(pages, t, root, cap, q); }
    ValuesFrame(pages, t.sh, pages', sh', t.vals, cap);
  }
}
