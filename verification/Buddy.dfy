/** mm/allocators/buddy.c: the allocator object, updated in place and proved against the value model of BuddySpec.
    Blocks are named by page index inside the module; the public operations take and return physical addresses. */
module Buddy {
  import opened Machine
  import opened Bits
  import opened Tiling
  import opened Wrappers
  import opened Links
  import opened BuddySpec
  import opened BuddyProofs
  import opened Errno
  import NL = NodeLists
  import BM = Bitmap

  /** What splitting needs of the lists: the block goes away and its halves are new nodes. */
  lemma SplitNodes(g: Lists, o: nat, x: nat, live: set<Block>, lo: nat, hi: nat)
    requires o < MAX_ORDER && x in g[o + 1] && Partition(g, live, lo, hi)
    ensures x + Pow2(o) < hi
    ensures Unlisted(Del(g, o + 1, x), x)
    ensures Unlisted(Put(Del(g, o + 1, x), o, x), x + Pow2(o))
  {
    var b := Block(x, o + 1);
    RemoveFacts(g[o + 1], x);
    InFreeSet(g, b);
    forall p, y | 0 <= p <= MAX_ORDER && y in g[p] && (y == x || y == x + Pow2(o))
      ensures p == o + 1 && y == x
    {
      InFreeSet(g, Block(y, p));
      assert Block(y, p) == b || Apart(Block(y, p), b);
    }
  }

  /** What merging needs of the lists: once both blocks are out, either is a new node. */
  lemma MergeNodes(f: Lists, o: nat, x: nat, b: nat)
    requires o < MAX_ORDER && x in f[o] && b in f[o] && x != b && Distinct(f)
    ensures x in Del(f, o, b)[o] && Unlisted(Del(Del(f, o, b), o, x), Min(x, b))
  {
    RemoveFacts(f[o], b);
    DistinctDel(f, o, b);
    DistinctDel(Del(f, o, b), o, x);
    RemoveFacts(Remove(f[o], b), x);
  }

  predicate Below(f: Lists, cur: nat) {
    forall p, x :: 0 <= p <= MAX_ORDER && x in f[p] ==> x < cur
  }

  class BuddyAllocator {
    const base: nat
    const pages: nat
    const lists: NL.NodeLists
    const bitmap: BM.Bitmap
    var orders: seq<nat>
    ghost var live: map<nat, nat>

    ghost predicate Shape()
      reads this, lists, bitmap, bitmap.bytes
    {
      && lists.Valid() && bitmap.Valid()
      && |lists.next| == bitmap.bits == |orders| == pages
      && |lists.lists| == MAX_ORDER + 1
    }

    ghost function View(): Heap
      requires Shape()
      reads this, lists, bitmap, bitmap.bytes
    {
      Heap(pages, MetaPages(pages), lists.lists, bitmap.contents, orders)
    }

    ghost predicate Valid()
      reads this, lists, bitmap, bitmap.bytes
    {
      base % PAGE_SIZE == 0 && Shape() && Inv(View(), live)
    }

    /** buddy_init, once its argument checks have passed. */
    constructor (base_addr: nat, size: nat)
      requires base_addr % PAGE_SIZE == 0 && size % PAGE_SIZE == 0
      ensures Valid() && View() == Init(size / PAGE_SIZE) && live == map[]
      ensures base == base_addr && pages == size / PAGE_SIZE
      ensures fresh(lists) && fresh(bitmap) && fresh(bitmap.bytes)
    {
      base := base_addr;
      pages := size / PAGE_SIZE;
      lists := new NL.NodeLists(size / PAGE_SIZE, MAX_ORDER + 1);
      bitmap := new BM.Bitmap(size / PAGE_SIZE);
      orders := seq(size / PAGE_SIZE, _ => 0);
      live := map[];
      new;
      InitInv(pages);
      CarveRegion();
    }

    /** The carving loop of buddy_init. */
    method CarveRegion()
      requires Shape() && lists.lists == NoBlocks()
      modifies lists
      ensures Shape() && lists.lists == Init(pages).free
    {
      var current: nat := MetaPages(pages);
      var remaining: nat := pages - current;
      var order := MAX_ORDER;
      while order >= 0
        invariant -1 <= order <= MAX_ORDER
        invariant Shape() && current + remaining == pages
        invariant Below(lists.lists, current)
        invariant Init(pages).free == if order < 0 then lists.lists else Carve(lists.lists, current, remaining, order)
      {
        current, remaining := CarveOrder(current, remaining, order);
        order := order - 1;
      }
    }

    /** The inner carving loop of buddy_init. */
    method CarveOrder(cur: nat, rem: nat, order: nat) returns (current: nat, remaining: nat)
      requires Shape() && cur + rem == pages && order <= MAX_ORDER && Below(lists.lists, cur)
      modifies lists
      ensures Shape() && current + remaining == pages && Below(lists.lists, current) && remaining < Pow2(order)
      ensures Carve(old(lists.lists), cur, rem, order) == Carve(lists.lists, current, remaining, order)
    {
      current, remaining := cur, rem;
      while remaining >= Pow2(order)
        invariant Shape() && current + remaining == pages && Below(lists.lists, current)
        invariant Carve(old(lists.lists), cur, rem, order) == Carve(lists.lists, current, remaining, order)
        decreases remaining
      {
        lists.Add(current, order);
        current := current + Pow2(order);
        remaining := remaining - Pow2(order);
      }
    }

    /** split_block */
    method SplitBlock(o: nat, ghost L: set<Block>) returns (ok: bool)
      requires Shape() && Partition(lists.lists, L, MetaPages(pages), pages)
      modifies lists
      ensures Shape()
      ensures ok == Split(old(lists.lists), o).Some?
      ensures lists.lists == if ok then Split(old(lists.lists), o).value else old(lists.lists)
      decreases MAX_ORDER - o, 1
    {
      if o >= MAX_ORDER {
        return false;
      }
      ok := Replenish(o, L);
      if ok {
        SplitFirst(o, L);
      }
    }

    /** The first half of split_block: a block of order o + 1, split off a larger one if need be. */
    method Replenish(o: nat, ghost L: set<Block>) returns (ok: bool)
      requires Shape() && o < MAX_ORDER && Partition(lists.lists, L, MetaPages(pages), pages)
      modifies lists
      ensures Shape() && (ok <==> Upper(old(lists.lists), o).Some?)
      ensures lists.lists == if ok then Upper(old(lists.lists), o).value else old(lists.lists)
      ensures ok ==> lists.lists[o + 1] != [] && Partition(lists.lists, L, MetaPages(pages), pages)
      decreases MAX_ORDER - o, 0
    {
      var x := lists.First(o + 1);
      if x != NULL {
        return true;
      }
      SplitKeeps(lists.lists, o + 1, L, MetaPages(pages), pages);
      ok := SplitBlock(o + 1, L);
    }

    /** The second half of split_block, with a block of order o + 1 at hand. */
    method SplitFirst(o: nat, ghost L: set<Block>)
      requires Shape() && o < MAX_ORDER && lists.lists[o + 1] != []
      requires Partition(lists.lists, L, MetaPages(pages), pages)
      modifies lists
      ensures Shape() && lists.lists == SplitOnce(old(lists.lists), o, old(lists.lists)[o + 1][0])
    {
      var x := lists.First(o + 1);
      SplitNodes(lists.lists, o, x, L, MetaPages(pages), pages);
      Halve(x, o);
    }

    /** The list edits of split_block. */
    method Halve(x: nat, o: nat)
      requires lists.Valid() && |lists.lists| == MAX_ORDER + 1 && o < MAX_ORDER && x in lists.lists[o + 1]
      requires x + Pow2(o) < |lists.next|
      requires Unlisted(Del(lists.lists, o + 1, x), x)
      requires Unlisted(Put(Del(lists.lists, o + 1, x), o, x), x + Pow2(o))
      modifies lists
      ensures lists.Valid() && |lists.lists| == MAX_ORDER + 1 && lists.lists == SplitOnce(old(lists.lists), o, x)
      ensures |lists.next| == old(|lists.next|)
    {
      lists.Remove(x, o + 1);
      lists.Add(x, o);
      lists.Add(x + Pow2(o), o);
    }

    /** try_merge */
    method TryMergeBlock(x: nat, o: nat)
      requires Shape() && o <= MAX_ORDER && x in lists.lists[o]
      modifies lists
      ensures Shape()
      ensures lists.lists == TryMerge(old(lists.lists), bitmap.contents, x, o)
      decreases MAX_ORDER - o
    {
      if o >= MAX_ORDER {
        return;
      }
      var b := Xor(x, Pow2(o));
      var found := IsFree(b, o);
      if !found {
        return;
      }
      JoinBuddies(x, b, o);
      TryMergeBlock(Min(x, b), o + 1);
    }

    /** The tests of try_merge: the buddy is in range, not marked allocated, and on the list of its order. */
    method IsFree(b: nat, o: nat) returns (found: bool)
      requires Shape() && o <= MAX_ORDER
      ensures found <==> b < pages && !bitmap.contents[b] && b in lists.lists[o]
    {
      if b >= pages {
        return false;
      }
      var taken := bitmap.Test(b);
      if taken {
        return false;
      }
      found := lists.Find(o, b);
    }

    /** The merge of try_merge, once the buddy has been found free. */
    method JoinBuddies(x: nat, b: nat, o: nat)
      requires Shape() && o < MAX_ORDER && x in lists.lists[o] && b in lists.lists[o] && b == Xor(x, Pow2(o))
      modifies lists
      ensures Shape() && lists.lists == MergeOnce(old(lists.lists), o, x, b)
    {
      BuddyInvolution(x, o);
      MergeNodes(lists.lists, o, x, b);
      lists.NodeBound(o, x);
      lists.NodeBound(o, b);
      Join(x, b, o);
    }

    /** The list edits of try_merge. */
    method Join(x: nat, b: nat, o: nat)
      requires lists.Valid() && |lists.lists| == MAX_ORDER + 1 && o < MAX_ORDER && b in lists.lists[o]
      requires x in Del(lists.lists, o, b)[o]
      requires Unlisted(Del(Del(lists.lists, o, b), o, x), Min(x, b)) && Min(x, b) < |lists.next|
      modifies lists
      ensures lists.Valid() && |lists.lists| == MAX_ORDER + 1 && lists.lists == MergeOnce(old(lists.lists), o, x, b)
      ensures |lists.next| == old(|lists.next|)
    {
      lists.Remove(b, o);
      lists.Remove(x, o);
      lists.Add(Min(x, b), o + 1);
    }

    /** buddy_alloc_order; 0 stands for failure. */
    method AllocOrder(o: nat) returns (addr: nat)
      requires Valid()
      modifies this`live, this`orders, lists, bitmap`contents, bitmap.bytes
      ensures Valid()
      ensures View() == Alloc(old(View()), o).0
      ensures var r := Alloc(old(View()), o).1;
              if r.None? then addr == 0 && live == old(live)
              else addr == base + r.value * PAGE_SIZE && addr != 0 && live == old(live)[r.value := o]
      ensures o > MAX_ORDER ==> addr == 0
    {
      AllocKeepsInv(View(), live, o);
      if o > MAX_ORDER {
        return 0;
      }
      var x := lists.First(o);
      if x == NULL {
        var ok := SplitBlock(o, LiveSet(live));
        if !ok {
          return 0;
        }
        SplitKeeps(old(lists.lists), o, LiveSet(live), MetaPages(pages), pages);
      }
      x := lists.First(o);
      FirstNode(lists.lists, o, LiveSet(live));
      lists.Remove(x, o);
      Mark(x, Pow2(o), true, o);
      live := live[x := o];
      return base + x * PAGE_SIZE;
    }

    /** The marking loops of buddy_alloc_order and buddy_free. */
    method Mark(x: nat, n: nat, taken: bool, o: nat)
      requires bitmap.Valid() && bitmap.bits == |orders| && x + n <= bitmap.bits
      modifies this`orders, bitmap`contents, bitmap.bytes
      ensures bitmap.Valid()
      ensures bitmap.contents == Fill(old(bitmap.contents), x, n, taken)
      ensures orders == Fill(old(orders), x, n, o)
    {
      for i := 0 to n
        invariant bitmap.Valid()
        invariant bitmap.contents == Fill(old(bitmap.contents), x, i, taken)
        invariant orders == Fill(old(orders), x, i, o)
      {
        if taken {
          bitmap.Set(x + i);
        } else {
          bitmap.Clear(x + i);
        }
        orders := orders[x + i := o];
      }
    }

    /** The head of a free list lies after the metadata and its block inside the region. */
    lemma FirstNode(f: Lists, o: nat, L: set<Block>)
      requires o <= MAX_ORDER && f[o] != [] && Partition(f, L, MetaPages(pages), pages)
      ensures 0 < f[o][0] && f[o][0] + Pow2(o) <= pages
    {
      InFreeSet(f, Block(f[o][0], o));
      assert Block(f[o][0], o) in FreeSet(f) + L;
    }

    /** The page of an address that passes the range and alignment tests of buddy_free. */
    predicate InRegion(addr: nat) {
      base <= addr < base + pages * PAGE_SIZE && addr % PAGE_SIZE == 0
    }

    function PageOf(addr: nat): nat
      requires InRegion(addr)
    {
      (addr - base) / PAGE_SIZE
    }

    /** buddy_free. An address strictly inside a live block is freed like the start of a block of that order, and that
        is what breaks the allocator. Only a free that runs past the end of the two side tables is not modelled. */
    method FreeAddr(addr: nat)
      requires Valid()
      requires InRegion(addr) && PageOf(addr) < pages ==> PageOf(addr) + Pow2(orders[PageOf(addr)]) <= pages
      modifies this`live, this`orders, lists, bitmap`contents, bitmap.bytes
      ensures Shape()
      ensures if InRegion(addr)
              then View() == Free(old(View()), PageOf(addr)) && live == old(live) - {PageOf(addr)}
              else View() == old(View()) && live == old(live)
      ensures Valid() <==>
                (InRegion(addr) ==> PageOf(addr) in old(live) || !Covered(LiveSet(old(live)), PageOf(addr)))
    {
      if addr < base || addr >= base + pages * PAGE_SIZE {
        return;
      }
      if addr % PAGE_SIZE != 0 {
        return;
      }
      PageInRegion(base, addr, pages);
      FreePage((addr - base) / PAGE_SIZE);
    }

    /** buddy_free, on a page of the region. */
    method FreePage(x: nat)
      requires Valid() && x < pages && x + Pow2(orders[x]) <= pages
      modifies this`live, this`orders, lists, bitmap`contents, bitmap.bytes
      ensures Shape() && View() == Free(old(View()), x) && live == old(live) - {x}
      ensures Valid() <==> x in old(live) || !Covered(LiveSet(old(live)), x)
    {
      FreeKeepsInvIff(View(), live, x);
      TakenPage(View(), live, x);
      var taken := bitmap.Test(x);
      if taken {
        FreeMarked(x);
      }
      live := live - {x};
    }

    /** buddy_free past its tests. */
    method FreeMarked(x: nat)
      requires Shape() && x < pages && bitmap.contents[x] && orders[x] <= MAX_ORDER && x + Pow2(orders[x]) <= pages
      requires Unlisted(lists.lists, x)
      modifies this`orders, lists, bitmap`contents, bitmap.bytes
      ensures Shape() && View() == Free(old(View()), x)
    {
      var o := orders[x];
      Mark(x, Pow2(o), false, 0);
      lists.Add(x, o);
      TryMergeBlock(x, o);
    }

    /** buddy_get_free_memory: what is neither metadata nor inside a live block. */
    method GetFreeMemory() returns (bytes: nat)
      requires Valid()
      ensures bytes == (pages - MetaPages(pages) - Pages(LiveSet(live))) * PAGE_SIZE
    {
      var free := 0;
      for o := 0 to MAX_ORDER + 1
        invariant free == FreePages(lists.lists, o)
      {
        var count := lists.Count(o);
        free := free + count * Pow2(o);
      }
      bytes := free * PAGE_SIZE;
      FreePagesConserved(View(), live);
    }
  }

  /** Whole pages for a byte count, in 64-bit arithmetic. */
  function PagesFor(size: nat): nat {
    ((size + PAGE_SIZE - 1) % WORD) / PAGE_SIZE
  }

  /** buddy_get_order_for_size: the smallest order whose block holds that many bytes, or the top order. The block covers
      the request exactly when the request is at most 8 MB. The last 4095 sizes wrap around to no pages at all. */
  method GetOrderForSize(size: nat) returns (order: nat)
    requires size < WORD
    ensures order == OrderFor(PagesFor(size), 0) && order <= MAX_ORDER
    ensures size <= Pow2(order) * PAGE_SIZE <==> size <= 0x80_0000
    ensures if size + PAGE_SIZE <= WORD then forall j :: 0 <= j < order ==> Pow2(j) * PAGE_SIZE < size else order == 0
  {
    var pages := PagesFor(size);
    order := 0;
    while Pow2(order) < pages && order < MAX_ORDER
      invariant order <= MAX_ORDER && OrderFor(pages, 0) == OrderFor(pages, order)
      decreases MAX_ORDER - order
    {
      order := order + 1;
    }
    OrderCovers(size, order);
    OrderLeast(size, order);
  }

  /** No smaller order would do. */
  lemma OrderLeast(size: nat, order: nat)
    requires size < WORD && order == OrderFor(PagesFor(size), 0)
    ensures if size + PAGE_SIZE <= WORD then forall j :: 0 <= j < order ==> Pow2(j) * PAGE_SIZE < size else order == 0
  {
    var pages := PagesFor(size);
    if size + PAGE_SIZE <= WORD {
      assert pages == (size + PAGE_SIZE - 1) / PAGE_SIZE;
      forall j | 0 <= j < order
        ensures Pow2(j) * PAGE_SIZE < size
      {
        assert Pow2(j) < pages;
        PagesBelow(Pow2(j), size);
      }
    } else {
      assert pages == 0;
    }
  }

  lemma PagesBelow(n: nat, size: nat)
    requires n < (size + PAGE_SIZE - 1) / PAGE_SIZE
    ensures n * PAGE_SIZE < size
  {
  }

  lemma OrderCovers(size: nat, order: nat)
    requires size < WORD && order == OrderFor(PagesFor(size), 0)
    ensures size <= Pow2(order) * PAGE_SIZE <==> size <= 0x80_0000
  {
    assert Pow2(MAX_ORDER) == 2048 by {
      assert Pow2(5) == 32;
      assert Pow2(MAX_ORDER) == 64 * Pow2(5);
    }
    Pow2Monotone(order, MAX_ORDER);
  }

  /** buddy_init: rejects unaligned arguments and sizes that are not a power of two. */
  method BuddyInit(base_addr: nat, size: nat) returns (err: Kerr, a: BuddyAllocator?)
    ensures base_addr % PAGE_SIZE != 0 || size % PAGE_SIZE != 0 ==> err == E_NOMEM && a == null
    ensures base_addr % PAGE_SIZE == 0 && size % PAGE_SIZE == 0 ==>
              (err == E_OK <==> size == 0 || exists k: nat :: size == Pow2(k)) && (err == E_OK || err == E_INVALID)
    ensures err == E_OK <==> a != null
    ensures a != null ==> fresh(a) && a.Valid() && a.live == map[] && a.base == base_addr && a.pages == size / PAGE_SIZE
  {
    if base_addr % PAGE_SIZE != 0 || size % PAGE_SIZE != 0 {
      return E_NOMEM, null;
    }
    if size != 0 {
      PowerOfTwoTest(size);
    }
    if size != 0 && And(size, size - 1) != 0 {
      return E_INVALID, null;
    }
    a := new BuddyAllocator(base_addr, size);
    err := E_OK;
  }

  lemma PageInRegion(base: nat, addr: nat, pages: nat)
    requires base % PAGE_SIZE == 0 && addr % PAGE_SIZE == 0 && base <= addr < base + pages * PAGE_SIZE
    ensures (addr - base) % PAGE_SIZE == 0 && (addr - base) / PAGE_SIZE < pages
  {
  }

  /** A marked page belongs to a live block, stores that block's order, and starts no free block. */
  lemma TakenPage(h: Heap, live: map<nat, nat>, x: nat)
    requires Inv(h, live) && x < h.pages
    ensures h.bit[x] ==> h.ord[x] <= MAX_ORDER && Unlisted(h.free, x)
    ensures !h.bit[x] ==> h.ord[x] == 0
  {
    var L := LiveSet(live);
    if h.bit[x] {
      var b :| b in L && Covers(b, x);
      forall p, y | 0 <= p <= MAX_ORDER && y in h.free[p]
        ensures x != y
      {
        InFreeSet(h.free, Block(y, p));
        assert Block(y, p) in FreeSet(h.free) + L && b in FreeSet(h.free) + L;
        assert Apart(Block(y, p), b);
      }
    }
  }
}
