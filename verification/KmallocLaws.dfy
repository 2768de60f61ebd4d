/** When kmalloc, kcalloc and kmalloc_pages succeed, what they then hand out, and what kfree_pages gives back. */
module KmallocLaws {
  import opened Machine
  import opened Bits
  import opened Tiling
  import opened Wrappers
  import B = BuddySpec
  import P = BuddyProofs
  import opened SlabSpec
  import Buddy
  import opened KmallocSpec
  import opened KmallocProofs

  /** c is the smallest size class that holds the request. */
  predicate LeastClass(size: nat, c: nat) {
    c < CLASSES && size <= ClassSize(c) && forall d :: 0 <= d < c ==> ClassSize(d) < size
  }

  lemma LeastClassIsFor(size: nat, c: nat)
    requires size <= 4096 && LeastClass(size, c)
    ensures c == ClassFor(size)
  {
    var d := ClassFor(size);
    if c < d {
      ClassesGrow(c, d - 1);
    }
  }

  lemma ClassesGrow(c: nat, d: nat)
    requires c <= d < CLASSES
    ensures ClassSize(c) <= ClassSize(d)
  {
    Pow2Monotone(c, d);
  }

  /** kmalloc of at most 4096 bytes fails exactly when the cache of the smallest sufficient class was never created,
      when it has no slab and no block is left for one, or when its slab is used up; otherwise it hands out an object
      of that class. Zero bytes are refused. */
  lemma SmallSucceeds(k: K, size: nat, c: nat)
    requires |k.caches| == CLASSES && size <= 4096 && LeastClass(size, c)
    ensures var (k', r) := Malloc(k, size);
            && (size == 0 ==> r == None && k' == k)
            && (size > 0 ==>
                  (r.None? <==> match k.caches[c]
                                case NoCache => true
                                case NoSlab => NoBlockFrom(k, SlabOrder(ClassSize(c)))
                                case OneSlab(_, free) => free == []))
            && (r.None? ==> k' == k)
            && (r.Some? ==> r.value in k'.objs && k'.objs[r.value] == Obj(c, size))
            && forall d :: 0 <= d < CLASSES && d != c ==> k'.caches[d] == k.caches[d]
  {
    LeastClassIsFor(size, c);
    SlabFails(k, c, size);
  }

  /** kmalloc of more than 4096 bytes asks for the smallest block that holds the request and the header, if there is
      one. */
  lemma BigOrderLeast(size: nat)
    requires size + BUDDY_HEADER + PAGE_SIZE <= WORD
    ensures forall j :: 0 <= j < BigOrder(size) ==> BlockBytes(j) < size + BUDDY_HEADER
  {
    OrderWithoutWrap(size);
    Buddy.OrderLeast(size + BUDDY_HEADER, BigOrder(size));
  }

  /** kcalloc is kmalloc of the product, or nothing when the product does not fit in 64 bits. */
  lemma CallocIsMalloc(k: K, num: nat, size: nat)
    requires |k.caches| == CLASSES && num < WORD && size < WORD
    ensures Calloc(k, num, size) == if num * size < WORD then Malloc(k, num * size) else (k, None)
  {
    CallocGuard(num, size);
  }

  /** k' is k with a new block of order o at page p, for n pages. */
  predicate RunHandedOut(k: K, k': K, p: nat, o: nat, n: nat) {
    k'.sys.live == k.sys.live[p := o] && k'.roles == k.roles[p := PageRun(n)]
  }

  /** kmalloc_pages fails exactly for no pages, for more than a block holds, and when no block of the smallest
      sufficient order or above is free; otherwise it hands out the start of a block of that order. */
  lemma PagesSucceed(k: K, n: nat, o: nat)
    requires o <= B.MAX_ORDER && (n <= 2048 ==> n <= Pow2(o)) && forall j :: 0 <= j < o ==> Pow2(j) < n
    ensures var (k', r) := MallocPages(k, n);
            && (r.None? <==> n == 0 || n > 2048 || NoBlockFrom(k, o))
            && (r.None? ==> k' == k)
            && (r.Some? ==> exists p :: RunHandedOut(k, k', p, o, n) && r.value == PageAddr(p))
  {
    if 0 < n <= 2048 {
      PagesIsTake(k, n, o);
      RunTaken(k, n, o);
    } else if n > 2048 {
      TooManyPages(k, n);
    }
  }

  lemma PagesIsTake(k: K, n: nat, o: nat)
    requires o <= B.MAX_ORDER && 0 < n <= 2048 && n <= Pow2(o) && forall j :: 0 <= j < o ==> Pow2(j) < n
    ensures var (k', r) := TakeBlock(k, o, PageRun(n));
            MallocPages(k, n) == (k', if r.None? then None else Some(PageAddr(r.value)))
  {
    LeastOrder(n, o);
  }

  lemma RunTaken(k: K, n: nat, o: nat)
    requires o <= B.MAX_ORDER
    ensures var (k', r) := TakeBlock(k, o, PageRun(n));
            && (r.None? <==> NoBlockFrom(k, o)) && (r.None? ==> k' == k)
            && (r.Some? ==> RunHandedOut(k, k', r.value, o, n))
  {
    TakeFails(k, o, PageRun(n));
  }

  lemma TooManyPages(k: K, n: nat)
    requires n > 2048
    ensures MallocPages(k, n) == (k, None)
  {
    TopOrder();
    Pow2Monotone(B.OrderFor(n, 0), B.MAX_ORDER);
  }

  lemma LeastOrder(n: nat, o: nat)
    requires o <= B.MAX_ORDER && (n <= 2048 ==> n <= Pow2(o)) && forall j :: 0 <= j < o ==> Pow2(j) < n
    ensures n <= 2048 ==> B.OrderFor(n, 0) == o
  {
    TopOrder();
  }

  /** kfree_pages of a page run gives back exactly its block: it is live no more, and its pages are free again. */
  lemma PagesGivenBack(k: K, p: nat)
    requires KmallocProofs.Inv(k) && LiveH(k, RunH(p))
    ensures var k' := KfreePages(k, Pointer(RunH(p)));
            && KmallocProofs.Inv(k') && k'.roles == k.roles - {p} && k'.sys.live == k.sys.live - {p}
            && k'.caches == k.caches && k'.objs == k.objs
            && P.FreePages(k'.sys.heap.free, B.MAX_ORDER + 1) ==
               P.FreePages(k.sys.heap.free, B.MAX_ORDER + 1) + Pow2(k.sys.live[p])
  {
    GiveKeeps(k, p);
    GiveFields(k, p);
    P.FreeGivesPages(k.sys.heap, k.sys.live, p);
    assert PageAddr(p) / PAGE_SIZE == p;
  }

  // ---------------------------------------------------------------- after boot

  /** Enough room, and little of it in small blocks. */
  ghost predicate Roomy(k: K, n: nat) {
    P.Singles(k.sys.heap.free) && P.FreePages(k.sys.heap.free, B.MAX_ORDER + 1) >= n
  }

  lemma CreateCacheReady(k: K, n: nat)
    requires Booting(k) && Roomy(k, n + 1)
    ensures Booting(CreateCache(k)) && Roomy(CreateCache(k), n) && CreateCache(k).caches == k.caches + [NoSlab]
  {
    CreateCacheKeeps(k);
    P.SomeBlock(k.sys.heap.free);
    TakeFails(k, 0, CacheStruct);
    P.SinglesAlloc(k.sys.heap, 0);
    P.AllocTakesPages(k.sys.heap, k.sys.live, 0);
  }

  /** Every cache is there and has no slab yet. */
  predicate AllNoSlab(cs: seq<CacheState>) {
    forall c :: 0 <= c < |cs| ==> cs[c] == NoSlab
  }

  /** The first c caches have been created, with room for the others and a block of eight pages. */
  ghost predicate Ready(k: K, c: nat) {
    c <= CLASSES && |k.caches| == c && Booting(k) && Roomy(k, CLASSES - c + 8) && AllNoSlab(k.caches)
  }

  lemma ReadyNext(k: K, c: nat)
    requires Ready(k, c) && c < CLASSES
    ensures Ready(CreateCache(k), c + 1)
  {
    CreateCacheReady(k, CLASSES - c + 7);
  }

  lemma {:induction false} CachesReady(k: K, c: nat)
    requires Ready(k, c)
    ensures Ready(Caches(k, c), CLASSES)
    decreases CLASSES - c
  {
    if c < CLASSES {
      ReadyNext(k, c);
      CachesReady(CreateCache(k), c + 1);
    }
  }

  /** With 17 pages or more, every cache is created at boot and every request of 1 to 4096 bytes then succeeds. */
  lemma BootServes(pages: nat, size: nat)
    requires pages >= 17 && 0 < size <= 4096
    ensures AllNoSlab(KmallocSpec.Boot(pages).caches)
    ensures Malloc(KmallocSpec.Boot(pages), size).1.Some?
  {
    var k := K(P.Sys(B.Init(pages), map[]), map[], [], map[]);
    P.InitInv(pages);
    P.InitSingles(pages);
    P.FreePagesConserved(B.Init(pages), map[]);
    P.NothingLive();
    StartBooting(k);
    CachesReady(k, 0);
    var c := ClassFor(size);
    SlabFails(Caches(k, 0), c, size);
    P.LargeBlock(Caches(k, 0).sys.heap.free);
  }
}
