/** Pages as a write transaction sees them, and the free list (WriteTxn in
    engine/src/engine/db.cpp).

    A page's content is one of the forms the tree writes, a free-list link, the
    zeroes of a page just allocated, or the database header (page 0). */
module Pager {
  import opened PageFormat
  import opened Disk
  import opened KeyOrder
  import NodeSplit

  /** A value in a leaf cell, or the head of its overflow chain. */
  datatype Stored = Inline(bytes: Bytes) | Spilled(first: PageNo, total: nat)

  datatype Entry = Entry(key: Key, stored: Stored)

  /** A separator and the child that holds the keys below it. */
  datatype Branch = Branch(key: Key, child: PageNo)

  datatype Content =
    | DbHeaderPage
    | Zeroed
    | Leaf(entries: seq<Entry>, prev: PageNo, next: PageNo)
    | Interior(branches: seq<Branch>, right: PageNo)
    | Overflow(next: PageNo, body: Bytes)
    | Free(next: PageNo)

  type Pages = map<PageNo, Content>

  // ----- sizes in bytes

  /** max_cell_bytes: four cells fit in a page. */
  function MaxCell(pageSize: nat): nat requires pageSize >= 512 { (pageSize - 28) / 4 - 2 }

  function MaxKey(pageSize: nat): nat requires pageSize >= 512 { MaxCell(pageSize) - 15 }

  /** A key is taken exactly if four cells with it and the head of a chain fit in a page, with their slots. */
  lemma FourKeysFit(pageSize: nat, n: nat)
    requires pageSize >= 512
    ensures n <= MaxKey(pageSize) <==> 28 + 4 * (7 + n + 8 + 2) <= pageSize
    ensures n <= MaxCell(pageSize) <==> 28 + 4 * (n + 2) <= pageSize
  {
  }

  function EntryBytes(e: Entry): nat {
    7 + |e.key| + match e.stored case Inline(bytes) => |bytes| case Spilled(_, _) => 8
  }

  /** Cells with their slots. */
  function EntrySizes(es: seq<Entry>): seq<nat> { seq(|es|, i requires 0 <= i < |es| => EntryBytes(es[i]) + 2) }

  function BranchSizes(bs: seq<Branch>): seq<nat> { seq(|bs|, i requires 0 <= i < |bs| => |bs[i].key| + 12) }

  /** The cells fit, repacked if need be (module NodeSpace). */
  predicate Fits(n: Content, pageSize: nat) {
    match n
    case Leaf(es, _, _) => 28 + NodeSplit.Total(EntrySizes(es)) <= pageSize
    case Interior(bs, _) => 28 + NodeSplit.Total(BranchSizes(bs)) <= pageSize
    case Overflow(_, body) => 12 + |body| <= pageSize
    case _ => true
  }

  /** Keys of up to `longest` bytes are short enough for interior nodes to be divided by count
      (NodeSplit.AlwaysFitExactly). */
  predicate Roomy(longest: nat, pageSize: nat) { ((longest + 11) / 13) * (longest + 12) + 28 <= pageSize }

  predicate GoodEntry(e: Entry, pageSize: nat, longest: nat)
    requires pageSize >= 512
  {
    1 <= |e.key| <= longest && EntryBytes(e) <= MaxCell(pageSize)
  }

  /** The content does not outgrow its page; an interior node does not as long as its keys are short enough. */
  predicate Holds(c: Content, pageSize: nat, longest: nat)
    requires pageSize >= 512
  {
    match c
    case Leaf(es, _, _) => Fits(c, pageSize) && forall i :: 0 <= i < |es| ==> GoodEntry(es[i], pageSize, longest)
    case Interior(bs, _) => (Roomy(longest, pageSize) ==> Fits(c, pageSize)) && forall i :: 0 <= i < |bs| ==>
        1 <= |bs[i].key| <= longest
    case _ => Fits(c, pageSize)
  }

  ghost predicate AllHold(pages: Pages, pageSize: nat, longest: nat) {
    pageSize >= 512 && forall p :: p in pages ==> Holds(pages[p], pageSize, longest)
  }

  lemma AllHoldWith(pages: Pages, pageSize: nat, longest: nat, p: PageNo, c: Content)
    requires AllHold(pages, pageSize, longest) && (c.Free? || c.Zeroed? || Holds(c, pageSize, longest))
    ensures AllHold(pages[p := c], pageSize, longest)
  {
  }

  // ----- the free list

  function At(list: seq<PageNo>, i: nat): PageNo { if i < |list| then list[i] else 0 }

  ghost predicate NoRepeats(list: seq<PageNo>) { forall i, j :: 0 <= i < j < |list| ==> list[i] != list[j] }

  ghost function Elements(list: seq<PageNo>): set<PageNo> { set p | p in list }

  /** `list` is the chain of free pages from `head`. */
  ghost predicate IsFreeList(pages: Pages, head: PageNo, list: seq<PageNo>) {
    && head == At(list, 0) && NoRepeats(list)
    && forall i :: 0 <= i < |list| ==> list[i] in pages && list[i] != 0 && pages[list[i]] == Free(At(list, i + 1))
  }

  lemma {:induction false} ChainFollows(pages: Pages, head: PageNo, list: seq<PageNo>, p: PageNo, after: seq<PageNo>,
                                        j: nat)
    requires IsFreeList(pages, head, list) && IsFreeList(pages[p := Free(head)], p, after) && p != 0
    requires j < |list| && p !in list[..j]
    ensures j + 1 < |after| && after[j + 1] == list[j]
  {
    assert after[0] == p && pages[p := Free(head)][after[0]] == Free(At(after, 1));
    if j > 0 {
      assert list[..j][j - 1] == list[j - 1] && list[..j - 1] <= list[..j];
      ChainFollows(pages, head, list, p, after, j - 1);
      assert pages[p := Free(head)][after[j]] == Free(At(after, j + 1));
    }
  }

  lemma FirstPlace(list: seq<PageNo>, p: PageNo) returns (j: nat)
    requires p in list
    ensures j < |list| && list[j] == p && p !in list[..j]
  {
    j := 0;
    while list[j] != p
      invariant j < |list| && p !in list[..j]
      decreases |list| - j
    {
      assert list[..j + 1] == list[..j] + [list[j]];
      j := j + 1;
    }
  }

  ghost predicate HasFreeList(pages: Pages, head: PageNo) { exists list :: IsFreeList(pages, head, list) }

  /** free_page keeps a free list exactly when the page was not on it. It only detects pages freed in the same
      transaction; a page freed earlier and freed again closes the list into a cycle. */
  lemma FreeKeepsList(pages: Pages, head: PageNo, list: seq<PageNo>, p: PageNo)
    requires IsFreeList(pages, head, list) && p != 0
    ensures HasFreeList(pages[p := Free(head)], p) <==> p !in list
    ensures IsFreeList(pages[p := Free(head)], p, [p] + list) <==> p !in list
  {
    if p in list {
      var pages' := pages[p := Free(head)];
      if HasFreeList(pages', p) {
        var after :| IsFreeList(pages', p, after);
        var j := FirstPlace(list, p);
        ChainFollows(pages, head, list, p, after, j);
      }
    } else {
      assert IsFreeList(pages[p := Free(head)], p, [p] + list);
    }
  }

  lemma WriteKeepsList(pages: Pages, head: PageNo, list: seq<PageNo>, p: PageNo, c: Content)
    requires IsFreeList(pages, head, list) && p in pages
    ensures IsFreeList(pages[p := c], head, list) <==> p !in list || c == pages[p]
  {
    if p in list && c != pages[p] {
      var i :| 0 <= i < |list| && list[i] == p;
    }
  }

  lemma TakeKeepsList(pages: Pages, head: PageNo, list: seq<PageNo>)
    requires IsFreeList(pages, head, list)
    ensures head == 0 <==> list == []
    ensures list != [] ==>
      && head in pages && pages[head].Free? && IsFreeList(pages[head := Zeroed], pages[head].next, list[1..])
      && Elements(list[1..]) == Elements(list) - {head} && head in Elements(list)
    ensures forall p: PageNo :: p !in pages ==> IsFreeList(pages[p := Zeroed], head, list) && p !in Elements(list)
  {
    if list != [] { assert list == [list[0]] + list[1..]; }
  }

  /** A page on the list, freed again. */
  lemma FreedTwice()
    ensures var pages: Pages := map[0 := DbHeaderPage, 1 := Free(0)];
            IsFreeList(pages, 1, [1]) && !HasFreeList(pages[1 := Free(1)], 1)
  {
    FreeKeepsList(map[0 := DbHeaderPage, 1 := Free(0)], 1, [1], 1);
  }

  lemma ElementsPushed(list: seq<PageNo>, p: PageNo)
    ensures Elements([p] + list) == Elements(list) + {p} && (p in Elements(list) <==> p in list)
  {
  }

  /** Pages 0 to count - 1, with a free list of the length that the header says. */
  ghost predicate Laid(pages: Pages, count: nat, head: PageNo, length: nat, freed: set<PageNo>, list: seq<PageNo>) {
    (forall p :: p in pages <==> 0 <= p < count) && IsFreeList(pages, head, list) && |list| == length
      && freed <= Elements(list)
  }

  lemma FreedLaid(pages: Pages, count: nat, head: PageNo, length: nat, freed: set<PageNo>, list: seq<PageNo>, p: PageNo)
    requires Laid(pages, count, head, length, freed, list) && p in pages && p != 0
    ensures Laid(pages[p := Free(head)], count, p, length + 1, freed + {p}, [p] + list) <==> p !in list
    ensures HasFreeList(pages[p := Free(head)], p) <==> p !in list
    ensures Elements([p] + list) == Elements(list) + {p}
  {
    hide IsFreeList, HasFreeList;
    FreeKeepsList(pages, head, list, p);
    ElementsPushed(list, p);
  }

  lemma WrittenLaid(pages: Pages, count: nat, head: PageNo, length: nat, freed: set<PageNo>, list: seq<PageNo>,
                    p: PageNo, c: Content)
    requires Laid(pages, count, head, length, freed, list) && p in pages
    ensures Laid(pages[p := c], count, head, length, freed, list) <==> p !in list || c == pages[p]
  {
    hide IsFreeList;
    WriteKeepsList(pages, head, list, p, c);
  }

  lemma TakenLaid(pages: Pages, count: nat, head: PageNo, length: nat, freed: set<PageNo>, list: seq<PageNo>)
    requires Laid(pages, count, head, length, freed, list)
    ensures head == 0 <==> list == []
    ensures list != [] ==>
      && head in pages && pages[head].Free? && length > 0 && head in Elements(list)
      && Laid(pages[head := Zeroed], count, pages[head].next, length - 1, freed - {head}, list[1..])
      && Elements(list[1..]) == Elements(list) - {head}
    ensures Laid(pages[count := Zeroed], count + 1, head, length, freed, list) && count !in Elements(list)
    ensures count !in pages
  {
    hide IsFreeList, Elements;
    TakeKeepsList(pages, head, list);
    assert count !in pages;
  }

  class WriteTxn {
    const snapshot: Pages
    const snapshotCount: nat
    const pageSize: nat
    ghost const longest: nat   // no key is longer
    var dirty: Pages
    var pageCount: nat
    var freeHead: PageNo
    var freeCount: nat
    var freed: set<PageNo>
    ghost var freeList: seq<PageNo>

    /** The pages as this transaction reads them. */
    ghost function View(): Pages
      reads this`dirty
    {
      snapshot + dirty
    }

    /** Pages in use. */
    ghost function Live(): set<PageNo>
      reads this`dirty, this`freeList
    {
      View().Keys - {0} - Elements(freeList)
    }

    lemma LiveInView()
      ensures Live() <= View().Keys && 0 !in Live()
    {
    }

    /** The free list is acyclic and as long as the header says, and with the pages in use it makes up
        pages 1 to pageCount - 1. Every page added is among those to be logged. No page is overfull. */
    ghost predicate Valid()
      reads this
    {
      && 1 <= snapshotCount <= pageCount
      && (forall p :: p in snapshot <==> 0 <= p < snapshotCount)
      && 0 !in dirty
      && Laid(View(), pageCount, freeHead, freeCount, freed, freeList) && AllHold(View(), pageSize, longest)
    }

    lemma InView(p: PageNo)
      requires Valid()
      ensures p in View() <==> p < pageCount
      ensures (p in freed ==> p in Elements(freeList)) && (p in freeList <==> p in Elements(freeList))
    {
    }

    lemma Held(p: PageNo)
      requires Valid() && p in View()
      ensures pageSize >= 512 && Holds(View()[p], pageSize, longest)
    {
    }

    /** Opening a transaction: `list` is the free list of the snapshot. */
    constructor (pages: Pages, count: nat, pageSize: nat, head: PageNo, length: nat, ghost list: seq<PageNo>,
                 ghost longest: nat)
      requires count >= 1 && (forall p :: p in pages <==> 0 <= p < count)
      requires IsFreeList(pages, head, list) && |list| == length && AllHold(pages, pageSize, longest)
      ensures Valid() && View() == pages && freeList == list && snapshot == pages && dirty == map[]
      ensures this.pageSize == pageSize && this.longest == longest
    {
      snapshot, snapshotCount, dirty, this.pageSize, this.longest := pages, count, map[], pageSize, longest;
      pageCount, freeHead, freeCount, freed, freeList := count, head, length, {}, list;
      new;
      assert View() == pages;
    }

    method Read(page: PageNo) returns (s: Status, c: Content)
      requires Valid()
      ensures s == Ok <==> page in View()
      ensures s == Ok ==> c == View()[page]
    {
      if page >= pageCount { return Invalid, Zeroed; }
      if page in dirty { return Ok, dirty[page]; }
      assert page in View();
      return Ok, snapshot[page];
    }

    /** A page freed in this transaction is refused. One freed earlier is not, and writing it changes the free list. */
    method Write(page: PageNo, c: Content) returns (s: Status)
      requires Valid() && Holds(c, pageSize, longest)
      modifies this`dirty
      ensures s == Ok <==> page in old(View()) && page != 0 && page !in freed
      ensures Valid() <==> s != Ok || page in old(Live()) || c == old(View()[page])
      ensures page in old(Live()) ==> s == Ok
      ensures Live() == old(Live())
      ensures View() == if s == Ok then old(View())[page := c] else old(View())
    {
      hide Laid, AllHold, Holds, Elements;
      InView(page);
      if page == 0 || page >= pageCount || page in freed { return Invalid; }
      WrittenLaid(View(), pageCount, freeHead, freeCount, freed, freeList, page, c);
      AllHoldWith(View(), pageSize, longest, page, c);
      dirty := dirty[page := c];
      assert View() == old(View())[page := c];
      return Ok;
    }

    method Allocate() returns (s: Status, page: PageNo)
      requires Valid()
      modifies this
      ensures Valid() && s == Ok
      ensures page !in old(Live()) && page != 0 && Live() == old(Live()) + {page}
      ensures View() == old(View())[page := Zeroed]
      ensures freed <= old(freed)
      ensures |freeList| == if old(freeList) == [] then 0 else |old(freeList)| - 1
    {
      hide Laid, Elements, AllHold, Holds;
      TakenLaid(View(), pageCount, freeHead, freeCount, freed, freeList);
      var s', c;
      if freeHead != 0 {
        page := freeHead;
        s', c := Read(page);
        if !c.Free? {
          assert false;
        }
        freeHead := c.next;
        freeCount := freeCount - 1;
        freed := freed - {page};
        freeList := freeList[1..];
      } else {
        page := pageCount;
        pageCount := pageCount + 1;
      }
      AllHoldWith(View(), pageSize, longest, page, Zeroed);
      dirty := dirty[page := Zeroed];
      assert View() == old(View())[page := Zeroed];
      s := Ok;
    }

    method PushFree(page: PageNo)
      requires Valid() && page in View() && page != 0
      modifies this
      ensures HasFreeList(View(), freeHead) <==> page !in old(freeList)
      ensures Valid() <==> page !in old(freeList)
      ensures View() == old(View())[page := Free(old(freeHead))] && freeList == [page] + old(freeList)
      ensures Live() == old(Live()) - {page}
    {
      hide Laid, HasFreeList, AllHold, Holds, Elements;
      FreedLaid(View(), pageCount, freeHead, freeCount, freed, freeList, page);
      AllHoldWith(View(), pageSize, longest, page, Free(freeHead));
      dirty := dirty[page := Free(freeHead)];
      freed := freed + {page};
      freeHead := page;
      freeCount := freeCount + 1;
      freeList := [page] + freeList;
      assert View() == old(View())[page := Free(old(freeHead))];
    }

    /** A page freed in this transaction is refused. One freed earlier is not, and no free list is left. */
    method FreePage(page: PageNo) returns (s: Status)
      requires Valid()
      modifies this
      ensures s == Ok <==> page in old(View()) && page != 0 && page !in old(freed)
      ensures HasFreeList(View(), freeHead) <==> s != Ok || page in old(Live())
      ensures Valid() <==> s != Ok || page in old(Live())
      ensures page in old(Live()) ==> s == Ok
      ensures s == Ok ==> View() == old(View())[page := Free(old(freeHead))] && freeList == [page] + old(freeList)
      ensures s == Ok ==> Live() == old(Live()) - {page}
      ensures s != Ok ==> View() == old(View()) && freeList == old(freeList)
    {
      assert HasFreeList(View(), freeHead);
      hide Valid, View, HasFreeList, Elements;
      InView(page);
      if page == 0 || page >= pageCount || page in freed { return Invalid; }
      PushFree(page);
      return Ok;
    }
  }
}
