/** Over every run of kmalloc, kfree, kmalloc_pages and kfree_pages, each client owns what it asked for and nobody else
    touches it. */
module KmallocProofs {
  import opened Machine
  import opened Bits
  import opened Wrappers
  import opened Tiling
  import opened Links
  import B = BuddySpec
  import P = BuddyProofs
  import opened SlabSpec
  import SP = SlabProofs
  import Slab
  import Buddy
  import opened KmallocSpec

  // ---------------------------------------------------------------- the invariant

  function SlabStart(page: nat): nat {
    PageAddr(page) + SLAB_HEADER
  }

  /** Every block has one role; page runs are large enough, and big blocks are of the order kmalloc picks. */
  ghost predicate RolesOk(k: K)
    requires |k.caches| == CLASSES
  {
    && k.roles.Keys == k.sys.live.Keys
    && (forall p :: p in k.roles && k.roles[p].BigBlock? ==>
          4096 < k.roles[p].req < WORD && k.sys.live[p] == BigOrder(k.roles[p].req))
    && (forall p :: p in k.roles && k.roles[p].PageRun? ==> k.roles[p].req * PAGE_SIZE <= BlockBytes(k.sys.live[p]))
    && (forall p :: p in k.roles && k.roles[p].SlabOf? ==>
          var c := k.roles[p].c; c < CLASSES && k.caches[c].OneSlab? && k.caches[c].page == p)
  }

  /** A cache's slab is a block of its own, and its free list names distinct objects of it. */
  ghost predicate CacheOk(k: K, c: nat)
    requires c < |k.caches|
  {
    k.caches[c].OneSlab? ==>
      var page := k.caches[c].page;
      && page in k.roles && k.roles[page] == SlabOf(c)
      && page in k.sys.live && k.sys.live[page] == SlabOrder(ClassSize(c))
      && FreeOk(SlabSpec.Slab(SlabStart(page), k.caches[c].free, EMPTY), ClassSize(c), Objects(c))
  }

  /** A live object belongs to the slab of its class, is not free, and is large enough. */
  ghost predicate ObjOk(k: K, a: nat)
    requires |k.caches| == CLASSES && a in k.objs
  {
    var c := k.objs[a].c;
    && c < CLASSES && k.caches[c].OneSlab? && k.objs[a].req <= ClassSize(c)
    && IsObject(SlabStart(k.caches[c].page), ClassSize(c), Objects(c), a)
    && a !in k.caches[c].free
  }

  ghost predicate Inv(k: K) {
    && B.Inv(k.sys.heap, k.sys.live)
    && |k.caches| == CLASSES
    && RolesOk(k)
    && (forall c :: 0 <= c < CLASSES ==> CacheOk(k, c))
    && (forall a :: a in k.objs ==> ObjOk(k, a))
  }

  // ---------------------------------------------------------------- sizes

  /** A slab's objects fill its block from the header on. */
  lemma SlabFits(c: nat)
    requires c < CLASSES
    ensures Objects(c) > 0 && SLAB_HEADER + Objects(c) * ClassSize(c) <= BlockBytes(SlabOrder(ClassSize(c)))
    ensures SlabOrder(ClassSize(c)) <= 3
  {
    assert Pow2(0) == 1 && Pow2(1) == 2 && Pow2(2) == 4 && Pow2(3) == 8;
  }

  lemma NoWrap(x: nat)
    requires x < WORD
    ensures x % WORD == x
  {
  }

  lemma BlockCovers(x: nat, o: nat)
    requires x < WORD && o == B.OrderFor(Buddy.PagesFor(x), 0)
    ensures x <= BlockBytes(o) <==> x <= MAX_BLOCK
  {
    Buddy.OrderCovers(x, o);
  }

  /** Exactly the requests of at most 8 MB less the header: kmalloc does not refuse larger ones, it hands out a block
      that is too small for them. */
  lemma BigFitsIff(size: nat)
    requires 4096 < size < WORD
    ensures size + BUDDY_HEADER <= BlockBytes(BigOrder(size)) <==> size + BUDDY_HEADER <= MAX_BLOCK
  {
    if size + BUDDY_HEADER < WORD {
      FitsWithoutWrap(size, BigOrder(size));
    } else {
      WrapIsOnePage(size);
    }
  }

  lemma FitsWithoutWrap(size: nat, o: nat)
    requires size + BUDDY_HEADER < WORD && o == BigOrder(size)
    ensures size + BUDDY_HEADER <= BlockBytes(o) <==> size + BUDDY_HEADER <= MAX_BLOCK
  {
    OrderWithoutWrap(size);
    BlockCovers(size + BUDDY_HEADER, o);
  }

  lemma OrderWithoutWrap(size: nat)
    requires size + BUDDY_HEADER < WORD
    ensures BigOrder(size) == B.OrderFor(Buddy.PagesFor(size + BUDDY_HEADER), 0)
  {
    NoWrap(size + BUDDY_HEADER);
  }

  lemma WrapIsOnePage(size: nat)
    requires WORD - BUDDY_HEADER <= size < WORD
    ensures BlockBytes(BigOrder(size)) == PAGE_SIZE
  {
    assert (size + BUDDY_HEADER) % WORD == size + BUDDY_HEADER - WORD;
    assert Buddy.PagesFor(size + BUDDY_HEADER - WORD) <= 1;
  }

  /** A client can use all it asked for unless it is a large request above 8 MB less the header. */
  lemma UsableIff(k: K, h: Handle)
    requires Inv(k) && LiveH(k, h)
    ensures Usable(k, h) == Requested(k, h) <==> (h.BigH? ==> Requested(k, h) + BUDDY_HEADER <= MAX_BLOCK)
  {
    if h.BigH? {
      BigFitsIff(Requested(k, h));
    }
  }

  lemma {:induction false} MulMonotone(a: nat, b: nat, m: nat)
    requires a <= b
    ensures a * m <= b * m
  {
    SP.Distribute(a, b - a, m);
  }

  // ---------------------------------------------------------------- taking and giving blocks

  lemma TakeKeeps(k: K, o: nat, role: Role)
    requires Inv(k)
    ensures var (k', r) := TakeBlock(k, o, role);
            && (r.None? ==> k' == k)
            && (r.Some? ==> r.value !in k.roles && B.Inv(k'.sys.heap, k'.sys.live) &&
                            k'.sys.live == k.sys.live[r.value := o] && k'.roles == k.roles[r.value := role])
  {
    P.AllocKeepsInv(k.sys.heap, k.sys.live, o);
  }

  /** A new block for a big allocation, a page run or a cache structure. */
  lemma TakeOther(k: K, o: nat, role: Role)
    requires Inv(k) && !role.SlabOf?
    requires role.BigBlock? ==> 4096 < role.req < WORD && o == BigOrder(role.req)
    requires role.PageRun? ==> role.req * PAGE_SIZE <= BlockBytes(o)
    ensures Inv(TakeBlock(k, o, role).0)
  {
    TakeKeeps(k, o, role);
    var (k', r) := TakeBlock(k, o, role);
    if r.Some? {
      WithBlock(k, k', r.value, o, role);
    }
  }

  lemma WithBlock(k: K, k': K, x: nat, o: nat, role: Role)
    requires Inv(k) && !role.SlabOf? && x !in k.roles
    requires role.BigBlock? ==> 4096 < role.req < WORD && o == BigOrder(role.req)
    requires role.PageRun? ==> role.req * PAGE_SIZE <= BlockBytes(o)
    requires B.Inv(k'.sys.heap, k'.sys.live) && k'.sys.live == k.sys.live[x := o] && k'.roles == k.roles[x := role]
    requires k'.caches == k.caches && k'.objs == k.objs
    ensures Inv(k')
  {
    WithRole(k, k', x, o, role);
    PartsKept(k, k');
  }

  lemma WithRole(k: K, k': K, x: nat, o: nat, role: Role)
    requires |k.caches| == CLASSES && RolesOk(k) && !role.SlabOf? && x !in k.roles
    requires role.BigBlock? ==> 4096 < role.req < WORD && o == BigOrder(role.req)
    requires role.PageRun? ==> role.req * PAGE_SIZE <= BlockBytes(o)
    requires k'.sys.live == k.sys.live[x := o] && k'.roles == k.roles[x := role] && k'.caches == k.caches
    ensures RolesOk(k')
  {
  }

  /** Caches and objects stay in order as long as the blocks of the slabs do. */
  lemma PartsKept(k: K, k': K)
    requires |k.caches| == CLASSES && k'.caches == k.caches && k'.objs == k.objs
    requires forall c :: 0 <= c < CLASSES ==> CacheOk(k, c)
    requires forall a :: a in k.objs ==> ObjOk(k, a)
    requires forall p :: p in k.roles && p in k.sys.live && k.roles[p].SlabOf? ==>
               p in k'.roles && k'.roles[p] == k.roles[p] && p in k'.sys.live && k'.sys.live[p] == k.sys.live[p]
    ensures forall c :: 0 <= c < CLASSES ==> CacheOk(k', c)
    ensures forall a :: a in k'.objs ==> ObjOk(k', a)
  {
    forall c | 0 <= c < CLASSES
      ensures CacheOk(k', c)
    {
      assert CacheOk(k, c);
    }
    forall a | a in k'.objs
      ensures ObjOk(k', a)
    {
      assert ObjOk(k, a);
    }
  }

  // ---------------------------------------------------------------- byte ranges

  /** Live blocks lie after the metadata, inside the region, and apart from each other. */
  lemma BlocksApart(k: K, p: nat, q: nat)
    requires B.Inv(k.sys.heap, k.sys.live) && p in k.sys.live && q in k.sys.live && p != q
    ensures PageAddr(p) + BlockBytes(k.sys.live[p]) <= PageAddr(q) ||
        PageAddr(q) + BlockBytes(k.sys.live[q]) <= PageAddr(p)
  {
    var b, c := Block(p, k.sys.live[p]), Block(q, k.sys.live[q]);
    var L := B.LiveSet(k.sys.live);
    assert b in L && c in L;
    assert b in B.FreeSet(k.sys.heap.free) + L && c in B.FreeSet(k.sys.heap.free) + L;
    assert Apart(b, c);
    ApartBytes(b, c);
  }

  lemma ApartBytes(b: Block, c: Block)
    requires Apart(b, c)
    ensures PageAddr(b.start) + BlockBytes(b.order) <= PageAddr(c.start) ||
            PageAddr(c.start) + BlockBytes(c.order) <= PageAddr(b.start)
  {
  }

  /** An object of class c lies in the slab's block, after the header. */
  lemma ObjectInBlock(page: nat, c: nat, a: nat)
    requires c < CLASSES && IsObject(SlabStart(page), ClassSize(c), Objects(c), a)
    ensures SlabStart(page) <= a && a + ClassSize(c) <= PageAddr(page) + BlockBytes(SlabOrder(ClassSize(c)))
    ensures a + ClassSize(c) <= SlabStart(page) + Objects(c) * ClassSize(c)
    ensures (a - BUDDY_HEADER) % PAGE_SIZE != 0
  {
    var i: nat :| i < Objects(c) && a == ObjectAt(SlabStart(page), ClassSize(c), i);
    SlabFits(c);
    SP.Distribute(i, 1, ClassSize(c));
    MulMonotone(i + 1, Objects(c), ClassSize(c));
    Unaligned(page, i, c);
  }

  lemma MultipleOf32(i: nat, q: nat)
    ensures (i * (32 * q)) % 32 == 0
  {
    assert i * (32 * q) == 32 * (i * q);
  }

  lemma Unaligned(page: nat, i: nat, c: nat)
    ensures (PageAddr(page) + SLAB_HEADER + i * ClassSize(c) - BUDDY_HEADER) % PAGE_SIZE != 0
  {
    MultipleOf32(i, ClassSize(c) / 32);
    assert ClassSize(c) == 32 * (ClassSize(c) / 32);
    EightAbove(page, i * ClassSize(c));
  }

  lemma EightAbove(page: nat, x: nat)
    requires x % 32 == 0
    ensures (page * 4096 + 56 + x - 16) % 4096 != 0
  {
    var n, k := page * 4096 + 56 + x - 16, x / 32;
    assert n == 32 * (128 * page + 1 + k) + 8;
    assert n % 32 == 8;
    PageMultiple(n);
  }

  lemma PageMultiple(n: nat)
    ensures n % 4096 == 0 ==> n % 32 == 0
  {
    if n % 4096 == 0 {
      assert n == 32 * (128 * (n / 4096));
    }
  }

  /** Live objects of different classes have different addresses, and the search finds the class. */
  lemma SearchFinds(k: K, a: nat, c: nat)
    requires Inv(k) && c < CLASSES && k.caches[c].OneSlab?
    requires IsObject(SlabStart(k.caches[c].page), ClassSize(c), Objects(c), a)
    ensures Search(k, a, 0) == c
  {
    ObjectInBlock(k.caches[c].page, c, a);
    assert KmallocSpec.Holds(k, c, a);
    forall d | 0 <= d < CLASSES && d != c
      ensures !KmallocSpec.Holds(k, d, a)
    {
      assert CacheOk(k, c) && CacheOk(k, d);
      if k.caches[d].OneSlab? {
        BlocksApart(k, k.caches[c].page, k.caches[d].page);
        SlabFits(d);
      }
    }
  }

  // ---------------------------------------------------------------- allocation keeps the invariant

  lemma HandKeeps(k: K, c: nat, req: nat)
    requires Inv(k) && c < CLASSES && k.caches[c].OneSlab? && req <= ClassSize(c)
    ensures var (k', r) := Hand(k, c, k.caches[c].page, k.caches[c].free, req);
            Inv(k') && (r.Some? ==> r.value !in k.objs && LiveH(k', ObjH(r.value)))
  {
    var page, free := k.caches[c].page, k.caches[c].free;
    var (k', r) := Hand(k, c, page, free, req);
    if free != [] {
      forall b | b in k.objs
        ensures b != free[0]
      {
        FreeIsNotLive(k, c, free[0], b);
      }
      HandParts(k, k', c, req);
    } else {
      assert k'.caches == k.caches;
    }
  }

  lemma HandParts(k: K, k': K, c: nat, req: nat)
    requires |k.caches| == CLASSES && c < CLASSES && k.caches[c].OneSlab? && k.caches[c].free != []
    requires req <= ClassSize(c)
    requires forall c :: 0 <= c < CLASSES ==> CacheOk(k, c)
    requires forall a :: a in k.objs ==> ObjOk(k, a) && a != k.caches[c].free[0]
    requires var free := k.caches[c].free;
             k' == k.(caches := k.caches[c := k.caches[c].(free := free[1..])], objs := k.objs[free[0] := Obj(c, req)])
    ensures forall c :: 0 <= c < CLASSES ==> CacheOk(k', c)
    ensures forall a :: a in k'.objs ==> ObjOk(k', a)
  {
    var free := k.caches[c].free;
    assert CacheOk(k, c);
    NoDupTail(free);
    assert free[0] in free;
    assert forall b :: b in free[1..] ==> b in free;
    forall b | b in k'.objs
      ensures ObjOk(k', b)
    {
      assert b in k.objs ==> ObjOk(k, b);
    }
    forall d | 0 <= d < CLASSES
      ensures CacheOk(k', d)
    {
      assert CacheOk(k, d);
    }
  }

  /** A free object is not a live one. */
  lemma FreeIsNotLive(k: K, c: nat, a: nat, b: nat)
    requires Inv(k) && c < CLASSES && k.caches[c].OneSlab? && a in k.caches[c].free && b in k.objs
    ensures a != b
  {
    assert CacheOk(k, c) && ObjOk(k, b);
    if k.objs[b].c != c {
      SearchFinds(k, a, c);
      SearchFinds(k, b, k.objs[b].c);
    }
  }

  lemma NewSlabKeeps(k: K, c: nat)
    requires Inv(k) && c < CLASSES && k.caches[c].NoSlab?
    ensures var (k1, r) := TakeBlock(k, SlabOrder(ClassSize(c)), SlabOf(c));
            r.Some? ==> Inv(k1.(caches := k1.caches[c := OneSlab(r.value, FreshObjects(SlabStart(r.value),
                ClassSize(c), Objects(c)))]))
  {
    TakeKeeps(k, SlabOrder(ClassSize(c)), SlabOf(c));
    var (k1, r) := TakeBlock(k, SlabOrder(ClassSize(c)), SlabOf(c));
    if r.Some? {
      var free := FreshObjects(SlabStart(r.value), ClassSize(c), Objects(c));
      SP.FreshObjectsFacts(SlabStart(r.value), ClassSize(c), Objects(c));
      SlabFrom(k, k1, c, r.value, free);
    }
  }

  lemma SlabFrom(k: K, k1: K, c: nat, page: nat, free: seq<nat>)
    requires Inv(k) && c < CLASSES && k.caches[c].NoSlab? && page !in k.roles
    requires B.Inv(k1.sys.heap, k1.sys.live) && k1.sys.live == k.sys.live[page := SlabOrder(ClassSize(c))]
    requires k1.roles == k.roles[page := SlabOf(c)] && k1.caches == k.caches && k1.objs == k.objs
    requires FreeOk(SlabSpec.Slab(SlabStart(page), free, EMPTY), ClassSize(c), Objects(c))
    ensures Inv(k1.(caches := k1.caches[c := OneSlab(page, free)]))
  {
    var k2 := k1.(caches := k1.caches[c := OneSlab(page, free)]);
    SlabRoles(k, k2, c, page);
    forall d | 0 <= d < CLASSES
      ensures CacheOk(k2, d)
    {
      assert CacheOk(k, d);
    }
    forall a | a in k2.objs
      ensures ObjOk(k2, a)
    {
      assert ObjOk(k, a);
    }
  }

  lemma SlabRoles(k: K, k2: K, c: nat, page: nat)
    requires |k.caches| == CLASSES == |k2.caches| && RolesOk(k) && c < CLASSES && k.caches[c].NoSlab?
    requires page !in k.roles
    requires k2.sys.live.Keys == k.sys.live.Keys + {page} && k2.roles == k.roles[page := SlabOf(c)]
    requires forall q :: q in k.roles ==> k2.sys.live[q] == k.sys.live[q]
    requires k2.caches[c].OneSlab? && k2.caches[c].page == page
    requires forall d :: 0 <= d < CLASSES && d != c ==> k2.caches[d] == k.caches[d]
    ensures RolesOk(k2)
  {
  }

  lemma FirstAllocIs(k: K, c: nat, req: nat)
    requires |k.caches| == CLASSES && c < CLASSES && k.caches[c].NoSlab?
    ensures var (k1, r) := TakeBlock(k, SlabOrder(ClassSize(c)), SlabOf(c));
            r.Some? ==>
              var free := FreshObjects(SlabStart(r.value), ClassSize(c), Objects(c));
              SlabAlloc(k, c, req) == Hand(k1.(caches := k1.caches[c := OneSlab(r.value, free)]), c, r.value, free, req)
  {
    var (k1, r) := TakeBlock(k, SlabOrder(ClassSize(c)), SlabOf(c));
    if r.Some? {
      HandFrom(k1, c, r.value, FreshObjects(SlabStart(r.value), ClassSize(c), Objects(c)), req);
    }
  }

  lemma FirstAllocKeeps(k: K, c: nat, req: nat)
    requires Inv(k) && c < CLASSES && req <= ClassSize(c) && k.caches[c].NoSlab?
    ensures var (k', r) := SlabAlloc(k, c, req);
            Inv(k') && (r.Some? ==> r.value !in k.objs && LiveH(k', ObjH(r.value)))
  {
    NewSlabKeeps(k, c);
    FirstAllocIs(k, c, req);
    var (k1, r) := TakeBlock(k, SlabOrder(ClassSize(c)), SlabOf(c));
    if r.Some? {
      var free := FreshObjects(SlabStart(r.value), ClassSize(c), Objects(c));
      HandKeeps(k1.(caches := k1.caches[c := OneSlab(r.value, free)]), c, req);
    }
  }

  lemma SlabAllocKeeps(k: K, c: nat, req: nat)
    requires Inv(k) && c < CLASSES && req <= ClassSize(c)
    ensures var (k', r) := SlabAlloc(k, c, req);
            Inv(k') && (r.Some? ==> r.value !in k.objs && LiveH(k', ObjH(r.value)))
  {
    if k.caches[c].NoSlab? {
      FirstAllocKeeps(k, c, req);
    } else if k.caches[c].OneSlab? {
      HandKeeps(k, c, req);
    }
  }

  lemma HandFrom(k: K, c: nat, page: nat, free: seq<nat>, req: nat)
    requires c < |k.caches|
    ensures Hand(k.(caches := k.caches[c := OneSlab(page, free)]), c, page, free, req) == Hand(k, c, page, free, req)
  {
    assert k.caches[c := OneSlab(page, free)][c := OneSlab(page, free)] == k.caches[c := OneSlab(page, free)];
    if free != [] {
      assert k.caches[c := OneSlab(page, free)][c := OneSlab(page, free[1..])] ==
          k.caches[c := OneSlab(page, free[1..])];
    }
  }

  /** kmalloc keeps the invariant, and a pointer it returns is a new handle for at least the requested bytes. */
  lemma MallocKeeps(k: K, size: nat)
    requires Inv(k) && size < WORD
    ensures var (k', r) := Malloc(k, size);
            && Inv(k')
            && (r.Some? ==>
                exists h :: LiveH(k', h) && !LiveH(k, h) && Pointer(h) == r.value && Requested(k', h) == size)
  {
    if 0 < size <= 4096 {
      SmallKeeps(k, size);
    } else if size > 4096 {
      BigKeeps(k, size);
    }
  }

  lemma SmallKeeps(k: K, size: nat)
    requires Inv(k) && size <= 4096
    ensures var (k', r) := SlabAlloc(k, ClassFor(size), size);
            Inv(k') && (r.Some? ==>
                LiveH(k', ObjH(r.value)) && !LiveH(k, ObjH(r.value)) && Requested(k', ObjH(r.value)) == size)
  {
    SlabAllocKeeps(k, ClassFor(size), size);
  }

  lemma BigKeeps(k: K, size: nat)
    requires Inv(k) && 4096 < size < WORD
    ensures var (k', r) := TakeBlock(k, BigOrder(size), BigBlock(size));
            Inv(k') && (r.Some? ==>
                LiveH(k', BigH(r.value)) && !LiveH(k, BigH(r.value)) && Requested(k', BigH(r.value)) == size)
  {
    TakeOther(k, BigOrder(size), BigBlock(size));
    TakeKeeps(k, BigOrder(size), BigBlock(size));
  }

  /** No free block of order o or above. */
  ghost predicate NoBlockFrom(k: K, o: nat) {
    forall j :: o <= j <= B.MAX_ORDER ==> k.sys.heap.free[j] == []
  }

  lemma TakeFails(k: K, o: nat, role: Role)
    requires o <= B.MAX_ORDER
    ensures var (k', r) := TakeBlock(k, o, role); (r.None? <==> NoBlockFrom(k, o)) && (r.None? ==> k' == k)
  {
    P.AllocBestFit(k.sys.heap, o);
  }

  /** A slab request fails when its cache was never created, when it needs a first slab and no block is left for it, or
      when its one slab is used up. */
  lemma SlabFails(k: K, c: nat, req: nat)
    requires |k.caches| == CLASSES && c < CLASSES
    ensures var (k', r) := SlabAlloc(k, c, req);
            && (r.None? ==> k' == k)
            && (r.None? <==> match k.caches[c]
                             case NoCache => true
                             case NoSlab => NoBlockFrom(k, SlabOrder(ClassSize(c)))
                             case OneSlab(_, free) => free == [])
  {
    SlabFits(c);
    TakeFails(k, SlabOrder(ClassSize(c)), SlabOf(c));
  }

  /** A kmalloc that fails changes nothing, and one that goes to the buddy allocator fails exactly when no free block of
      the order it picks or above is left. */
  lemma MallocFails(k: K, size: nat)
    requires |k.caches| == CLASSES
    ensures var (k', r) := Malloc(k, size);
            && (r.None? ==> k' == k)
            && (size > 4096 ==>
                  (r.None? <==> NoBlockFrom(k, BigOrder(size))))
  {
    if 0 < size <= 4096 {
      SlabFails(k, ClassFor(size), size);
    } else if size > 4096 {
      TakeFails(k, BigOrder(size), BigBlock(size));
    }
  }

  /** kcalloc's division test reports an overflow exactly when the product does not fit in 64 bits, and otherwise the
      bytes asked for are the product. */
  lemma CallocGuard(num: nat, size: nat)
    requires num < WORD && size < WORD
    ensures CallocBytes(num, size) == if num * size < WORD then Some(num * size) else None
  {
    if num != 0 {
      var q, total := (num * size) / WORD, (num * size) % WORD;
      assert num * size == q * WORD + total;
      if q == 0 {
        QuotientOf(num, size, 0);
      } else if total / num == size {
        assert total == num * size + total % num by {
          QuotientRem(total, num);
        }
        assert false;
      }
    }
  }

  lemma QuotientOf(d: nat, q: nat, r: nat)
    requires r < d
    ensures (d * q + r) / d == q
  {
    var x := (d * q + r) / d;
    var m := (d * q + r) % d;
    assert d * x + m == d * q + r;
    if x < q {
      MulMonotone(x + 1, q, d);
    } else if x > q {
      MulMonotone(q + 1, x, d);
    }
  }

  lemma QuotientRem(x: nat, d: nat)
    requires d > 0
    ensures x == d * (x / d) + x % d
  {
  }

  /** The order search of kmalloc_pages: the smallest order that fits, or none when the run exceeds 8 MB. */
  method OrderForPages(num: nat) returns (order: Option<nat>)
    ensures order == if num <= 2048 then Some(B.OrderFor(num, 0)) else None
  {
    var o, pages := 0, 1;
    while pages < num && o < B.MAX_ORDER
      invariant o <= B.MAX_ORDER && pages == Pow2(o) && B.OrderFor(num, 0) == B.OrderFor(num, o)
      decreases B.MAX_ORDER - o
    {
      o := o + 1;
      pages := Pow2(o);
    }
    TopOrder();
    Pow2Monotone(o, B.MAX_ORDER);
    order := if pages < num then None else Some(o);
  }

  lemma TopOrder()
    ensures Pow2(B.MAX_ORDER) == 2048
  {
    assert Pow2(5) == 32;
    assert Pow2(B.MAX_ORDER) == 64 * Pow2(5);
  }

  /** kmalloc_pages refuses what does not fit a block, and otherwise does likewise. */
  lemma MallocPagesKeeps(k: K, n: nat)
    requires Inv(k)
    ensures var (k', r) := MallocPages(k, n);
            && Inv(k')
            && (r.Some? ==> exists h :: LiveH(k', h) && !LiveH(k, h) && Pointer(h) == r.value &&
                              Requested(k', h) == n * PAGE_SIZE)
  {
    var o := B.OrderFor(n, 0);
    if n > 0 && Pow2(o) >= n {
      MulMonotone(n, Pow2(o), PAGE_SIZE);
      TakeOther(k, o, PageRun(n));
      TakeKeeps(k, o, PageRun(n));
      var (k', r) := TakeBlock(k, o, PageRun(n));
      if r.Some? {
        assert LiveH(k', RunH(r.value)) && !LiveH(k, RunH(r.value)) && Requested(k', RunH(r.value)) == n * PAGE_SIZE;
      }
    }
  }

  // ---------------------------------------------------------------- freeing keeps the invariant

  lemma GiveKeeps(k: K, p: nat)
    requires Inv(k) && p in k.roles && (k.roles[p].BigBlock? || k.roles[p].PageRun?)
    ensures Inv(GiveBlock(k, PageAddr(p))) && GiveBlock(k, PageAddr(p)).roles == k.roles - {p}
  {
    GiveFields(k, p);
    WithoutBlock(k, GiveBlock(k, PageAddr(p)), p);
  }

  lemma GiveFields(k: K, p: nat)
    requires B.Inv(k.sys.heap, k.sys.live) && p in k.sys.live
    ensures var k' := GiveBlock(k, PageAddr(p));
            B.Inv(k'.sys.heap, k'.sys.live) && k'.sys.live == k.sys.live - {p} && k'.roles == k.roles - {p}
  {
    assert PageAddr(p) % PAGE_SIZE == 0 && PageAddr(p) / PAGE_SIZE == p;
    P.FreeKeepsInv(k.sys.heap, k.sys.live, p);
  }

  lemma WithoutBlock(k: K, k': K, p: nat)
    requires Inv(k) && p in k.roles && (k.roles[p].BigBlock? || k.roles[p].PageRun?)
    requires B.Inv(k'.sys.heap, k'.sys.live) && k'.sys.live == k.sys.live - {p} && k'.roles == k.roles - {p}
    requires k'.caches == k.caches && k'.objs == k.objs
    ensures Inv(k')
  {
    WithoutRole(k, k', p);
    PartsKept(k, k');
  }

  lemma WithoutRole(k: K, k': K, p: nat)
    requires |k.caches| == CLASSES && RolesOk(k) && p in k.roles && !k.roles[p].SlabOf?
    requires k'.sys.live == k.sys.live - {p} && k'.roles == k.roles - {p} && k'.caches == k.caches
    ensures RolesOk(k')
    ensures forall q :: q in k.roles && q in k.sys.live && k.roles[q].SlabOf? ==>
              q in k'.roles && k'.roles[q] == k.roles[q] && q in k'.sys.live && k'.sys.live[q] == k.sys.live[q]
  {
    assert k'.roles.Keys == k'.sys.live.Keys;
  }

  lemma ForgetKeeps(k: K, a: nat)
    requires Inv(k)
    ensures Inv(k.(objs := k.objs - {a}))
  {
    var k' := k.(objs := k.objs - {a});
    forall c | 0 <= c < CLASSES
      ensures CacheOk(k', c)
    {
      assert CacheOk(k, c);
    }
    forall b | b in k'.objs
      ensures ObjOk(k', b)
    {
      assert ObjOk(k, b);
    }
  }

  /** Putting a live object back on its slab's free list. */
  lemma PutBackKeeps(k: K, a: nat)
    requires Inv(k) && a in k.objs
    ensures var c := k.objs[a].c;
            c < CLASSES && k.caches[c].OneSlab? &&
            Inv(k.(objs := k.objs - {a}, caches := k.caches[c := k.caches[c].(free := [a] + k.caches[c].free)]))
  {
    assert ObjOk(k, a);
    var c := k.objs[a].c;
    assert CacheOk(k, c);
    PutBackParts(k, k.(objs := k.objs - {a}, caches := k.caches[c := k.caches[c].(free := [a] + k.caches[c].free)]),
        a, c);
  }

  lemma PutBackParts(k: K, k': K, a: nat, c: nat)
    requires |k.caches| == CLASSES && c < CLASSES && k.caches[c].OneSlab? && a in k.objs && k.objs[a].c == c
    requires forall d :: 0 <= d < CLASSES ==> CacheOk(k, d)
    requires forall b :: b in k.objs ==> ObjOk(k, b)
    requires k' == k.(objs := k.objs - {a}, caches := k.caches[c := k.caches[c].(free := [a] + k.caches[c].free)])
    ensures forall d :: 0 <= d < CLASSES ==> CacheOk(k', d)
    ensures forall b :: b in k'.objs ==> ObjOk(k', b)
  {
    assert ObjOk(k, a) && CacheOk(k, c);
    SP.NoDupCons(a, k.caches[c].free);
    SP.ObjectsBound(SlabStart(k.caches[c].page), ClassSize(c), Objects(c), [a] + k.caches[c].free);
    forall d | 0 <= d < CLASSES
      ensures CacheOk(k', d)
    {
      assert CacheOk(k, d);
    }
    forall b | b in k'.objs
      ensures ObjOk(k', b)
    {
      assert ObjOk(k, b);
    }
  }

  /** kfree of a slab object, whatever the neighbouring bytes are: when they look like a buddy header the misrouted
      free is ignored, because the address before the object is never page aligned. */
  lemma KfreeObjectKeeps(k: K, a: nat, magic: bool)
    requires Inv(k) && a in k.objs
    ensures Inv(Kfree(k, a, magic)) && Kfree(k, a, magic).roles == k.roles && Kfree(k, a, magic).objs == k.objs - {a}
  {
    KfreeObject(k, a, magic);
    if magic {
      ForgetKeeps(k, a);
    } else {
      PutBackKeeps(k, a);
    }
  }

  /** The object returns to the free list of its slab exactly when those bytes do not look like a header; otherwise it
      is lost, and nothing else changes. */
  lemma KfreeObject(k: K, a: nat, magic: bool)
    requires Inv(k) && a in k.objs
    ensures var c, k' := k.objs[a].c, Kfree(k, a, magic);
            && c < CLASSES && k.caches[c].OneSlab? && k'.caches[c].OneSlab?
            && (a in k'.caches[c].free <==> !magic)
            && k' == if magic then k.(objs := k.objs - {a})
                     else k.(objs := k.objs - {a},
                         caches := k.caches[c := k.caches[c].(free := [a] + k.caches[c].free)])
  {
    assert ObjOk(k, a);
    var c := k.objs[a].c;
    ObjectInBlock(k.caches[c].page, c, a);
    if !magic {
      SearchFinds(k, a, c);
    }
  }

  lemma KfreeBigKeeps(k: K, p: nat)
    requires Inv(k) && LiveH(k, BigH(p))
    ensures var k' := Kfree(k, Pointer(BigH(p)), true);
            Inv(k') && k'.roles == k.roles - {p} && k'.sys.live == k.sys.live - {p} && k'.objs == k.objs
  {
    BigPointerNotObject(k, p);
    KfreeBigIsGive(k, p);
    GiveKeeps(k, p);
    GiveFields(k, p);
  }

  lemma KfreeBigIsGive(k: K, p: nat)
    requires |k.caches| == CLASSES && Pointer(BigH(p)) !in k.objs
    ensures Kfree(k, Pointer(BigH(p)), true) == GiveBlock(k, PageAddr(p))
  {
    var a := Pointer(BigH(p));
    assert k.objs - {a} == k.objs;
    assert k.(objs := k.objs - {a}) == k;
  }

  lemma BigPointerNotObject(k: K, p: nat)
    requires Inv(k) && LiveH(k, BigH(p))
    ensures Pointer(BigH(p)) !in k.objs
  {
    forall b | b in k.objs
      ensures b != Pointer(BigH(p))
    {
      assert ObjOk(k, b);
      var c := k.objs[b].c;
      assert CacheOk(k, c);
      ObjectInBlock(k.caches[c].page, c, b);
      BlocksApart(k, p, k.caches[c].page);
    }
  }

  // ---------------------------------------------------------------- what the invariant gives clients

  /** The first page of the block a handle lives in. */
  function OwnerPage(k: K, h: Handle): nat
    requires |k.caches| == CLASSES && LiveH(k, h)
  {
    match h
    case ObjH(a) =>
      var c := k.objs[a].c;
      if c < CLASSES && k.caches[c].OneSlab? then k.caches[c].page else 0
    case BigH(p) => p
    case RunH(p) => p
  }

  /** The bytes before the client's part of its block. */
  function HeaderBytes(h: Handle): nat {
    match h case ObjH(_) => SLAB_HEADER case BigH(_) => BUDDY_HEADER case RunH(_) => 0
  }

  predicate Before(lo1: nat, hi1: nat, lo2: nat, hi2: nat) {
    hi1 <= lo2 || hi2 <= lo1
  }

  /** A client's bytes lie inside a live block, after the block's header. */
  lemma HandleInBlock(k: K, h: Handle)
    requires Inv(k) && LiveH(k, h)
    ensures var p := OwnerPage(k, h);
            && p in k.sys.live && p in k.roles
            && PageAddr(p) + HeaderBytes(h) <= Pointer(h)
            && Pointer(h) + Usable(k, h) <= PageAddr(p) + BlockBytes(k.sys.live[p])
            && (h.ObjH? ==> k.roles[p] == SlabOf(k.objs[h.a].c)) && (h.BigH? ==> k.roles[p].BigBlock?)
            && (h.RunH? ==> k.roles[p].PageRun?)
  {
    if h.ObjH? {
      assert ObjOk(k, h.a);
      var c := k.objs[h.a].c;
      assert CacheOk(k, c);
      ObjectInBlock(k.caches[c].page, c, h.a);
    }
  }

  /** Objects of one slab are apart. */
  lemma ObjectsApart(page: nat, c: nat, a: nat, b: nat)
    requires c < CLASSES && a != b
    requires IsObject(SlabStart(page), ClassSize(c), Objects(c), a)
    requires IsObject(SlabStart(page), ClassSize(c), Objects(c), b)
    ensures Before(a, a + ClassSize(c), b, b + ClassSize(c))
  {
    var i: nat :| i < Objects(c) && a == ObjectAt(SlabStart(page), ClassSize(c), i);
    var j: nat :| j < Objects(c) && b == ObjectAt(SlabStart(page), ClassSize(c), j);
    if i < j {
      SP.ObjectsDiffer(SlabStart(page), ClassSize(c), i, j);
    } else {
      SP.ObjectsDiffer(SlabStart(page), ClassSize(c), j, i);
    }
  }

  /** No two live allocations share a byte. */
  lemma LiveDisjoint(k: K, h: Handle, g: Handle)
    requires Inv(k) && LiveH(k, h) && LiveH(k, g) && h != g
    ensures Before(Pointer(h), Pointer(h) + Usable(k, h), Pointer(g), Pointer(g) + Usable(k, g))
  {
    HandleInBlock(k, h);
    HandleInBlock(k, g);
    if OwnerPage(k, h) != OwnerPage(k, g) {
      BlocksApart(k, OwnerPage(k, h), OwnerPage(k, g));
    } else if h.ObjH? && g.ObjH? {
      assert ObjOk(k, h.a) && ObjOk(k, g.a);
      ObjectsApart(OwnerPage(k, h), k.objs[h.a].c, h.a, g.a);
    }
  }

  /** What the allocators keep for themselves. */
  datatype Internal =
    | Metadata                      // the bitmap and the order table at the front of the region
    | FreeBlock(b: Block)           // holds a buddy free-list node
    | CachePage(p: nat)             // a slab cache structure
    | SlabHeader(p: nat)
    | BigHeader(p: nat)
    | FreeObject(c: nat, a: nat)    // holds a slab free-list node

  ghost predicate IsInternal(k: K, i: Internal)
    requires |k.caches| == CLASSES
  {
    match i
    case Metadata => true
    case FreeBlock(b) => b in B.FreeSet(k.sys.heap.free)
    case CachePage(p) => p in k.roles && k.roles[p].CacheStruct?
    case SlabHeader(p) => p in k.roles && k.roles[p].SlabOf?
    case BigHeader(p) => p in k.roles && k.roles[p].BigBlock?
    case FreeObject(c, a) => c < CLASSES && k.caches[c].OneSlab? && a in k.caches[c].free
  }

  function Lo(i: Internal): nat {
    match i
    case Metadata => 0
    case FreeBlock(b) => PageAddr(b.start)
    case CachePage(p) => PageAddr(p)
    case SlabHeader(p) => PageAddr(p)
    case BigHeader(p) => PageAddr(p)
    case FreeObject(_, a) => a
  }

  function Hi(k: K, i: Internal): nat {
    match i
    case Metadata => PageAddr(k.sys.heap.meta)
    case FreeBlock(b) => PageAddr(b.start) + BlockBytes(b.order)
    case CachePage(p) => PageAddr(p) + PAGE_SIZE
    case SlabHeader(p) => PageAddr(p) + SLAB_HEADER
    case BigHeader(p) => PageAddr(p) + BUDDY_HEADER
    case FreeObject(c, a) => a + ClassSize(c)
  }

  lemma BlockAfterMetadata(k: K, p: nat)
    requires B.Inv(k.sys.heap, k.sys.live) && p in k.sys.live
    ensures PageAddr(k.sys.heap.meta) <= PageAddr(p)
    ensures PageAddr(p) + BlockBytes(k.sys.live[p]) <= PageAddr(k.sys.heap.pages)
  {
    assert Block(p, k.sys.live[p]) in B.LiveSet(k.sys.live);
    assert Block(p, k.sys.live[p]) in B.FreeSet(k.sys.heap.free) + B.LiveSet(k.sys.live);
  }

  lemma BlockApartFromFree(k: K, p: nat, b: Block)
    requires B.Inv(k.sys.heap, k.sys.live) && p in k.sys.live && b in B.FreeSet(k.sys.heap.free)
    ensures Before(PageAddr(p), PageAddr(p) + BlockBytes(k.sys.live[p]), PageAddr(b.start),
        PageAddr(b.start) + BlockBytes(b.order))
  {
    var c := Block(p, k.sys.live[p]);
    var L := B.LiveSet(k.sys.live);
    assert c in L && c in B.FreeSet(k.sys.heap.free) + L && b in B.FreeSet(k.sys.heap.free) + L;
    assert Apart(c, b);
    ApartBytes(c, b);
  }

  /** Every live block is at least a page. */
  lemma BlockIsAPage(o: nat)
    ensures BlockBytes(o) >= PAGE_SIZE
  {
  }

  /** A client's bytes avoid every byte the allocators use themselves. */
  lemma LiveAvoidsInternal(k: K, h: Handle, i: Internal)
    requires Inv(k) && LiveH(k, h) && IsInternal(k, i)
    ensures Before(Pointer(h), Pointer(h) + Usable(k, h), Lo(i), Hi(k, i))
  {
    HandleInBlock(k, h);
    var p := OwnerPage(k, h);
    BlockAfterMetadata(k, p);
    match i
    case Metadata =>
    case FreeBlock(b) => BlockApartFromFree(k, p, b);
    case CachePage(q) =>
      BlockIsAPage(k.sys.live[q]);
      BlocksApart(k, p, q);
    case SlabHeader(q) => HeaderApart(k, h, q);
    case BigHeader(q) => HeaderApart(k, h, q);
    case FreeObject(c, a) => FreeObjectApart(k, h, c, a);
  }

  lemma HeaderApart(k: K, h: Handle, q: nat)
    requires Inv(k) && LiveH(k, h) && q in k.roles && (k.roles[q].SlabOf? || k.roles[q].BigBlock?)
    ensures Before(Pointer(h), Pointer(h) + Usable(k, h), PageAddr(q),
                   PageAddr(q) + if k.roles[q].SlabOf? then SLAB_HEADER else BUDDY_HEADER)
  {
    HandleInBlock(k, h);
    BlockIsAPage(k.sys.live[q]);
    if OwnerPage(k, h) != q {
      BlocksApart(k, OwnerPage(k, h), q);
    }
  }

  lemma FreeObjectApart(k: K, h: Handle, c: nat, a: nat)
    requires Inv(k) && LiveH(k, h) && c < CLASSES && k.caches[c].OneSlab? && a in k.caches[c].free
    ensures Before(Pointer(h), Pointer(h) + Usable(k, h), a, a + ClassSize(c))
  {
    assert CacheOk(k, c);
    var page := k.caches[c].page;
    ObjectInBlock(page, c, a);
    HandleInBlock(k, h);
    if OwnerPage(k, h) != page {
      BlocksApart(k, OwnerPage(k, h), page);
    } else {
      assert h.ObjH? && ObjOk(k, h.a);
      ObjectsApart(page, c, h.a, a);
    }
  }

  // ---------------------------------------------------------------- runs

  lemma StepKeeps(k: K, op: Op)
    requires Inv(k) && Legal(k, op)
    ensures Inv(Step(k, op))
  {
    match op
    case MallocOp(size) => MallocKeeps(k, size);
    case CallocOp(num, size) =>
      CallocGuard(num, size);
      if num * size < WORD {
        MallocKeeps(k, num * size);
      }
    case PagesOp(n) => MallocPagesKeeps(k, n);
    case KfreeOp(a, magic) =>
      if a in k.objs {
        KfreeObjectKeeps(k, a, magic);
      } else {
        var p :| LiveH(k, BigH(p)) && a == Pointer(BigH(p));
        KfreeBigKeeps(k, p);
      }
    case KfreePagesOp(a) =>
      var p :| LiveH(k, RunH(p)) && a == Pointer(RunH(p));
      GiveKeeps(k, p);
  }

  /** The invariant while slab_init is creating the caches. */
  ghost predicate Booting(k: K) {
    && B.Inv(k.sys.heap, k.sys.live)
    && k.roles.Keys == k.sys.live.Keys
    && (forall p :: p in k.roles ==> k.roles[p] == CacheStruct)
    && (forall i :: 0 <= i < |k.caches| ==> !k.caches[i].OneSlab?)
    && k.objs == map[]
  }

  lemma {:induction false} CachesKeep(k: K, c: nat)
    requires c <= CLASSES && |k.caches| == c && Booting(k)
    ensures Booting(Caches(k, c)) && |Caches(k, c).caches| == CLASSES
    decreases CLASSES - c
  {
    if c < CLASSES {
      CreateCacheKeeps(k);
      CachesKeep(CreateCache(k), c + 1);
    }
  }

  lemma CreateCacheKeeps(k: K)
    requires Booting(k)
    ensures Booting(CreateCache(k))
  {
    P.AllocKeepsInv(k.sys.heap, k.sys.live, 0);
  }

  lemma BootInv(pages: nat)
    ensures Inv(KmallocSpec.Boot(pages))
    ensures forall h :: !LiveH(KmallocSpec.Boot(pages), h)
  {
    var k := K(P.Sys(B.Init(pages), map[]), map[], [], map[]);
    P.InitInv(pages);
    StartBooting(k);
    CachesKeep(k, 0);
    BootedInv(Caches(k, 0));
  }

  lemma StartBooting(k: K)
    requires B.Inv(k.sys.heap, k.sys.live) && k.sys.live == map[] && k.roles == map[] && k.caches == []
    requires k.objs == map[]
    ensures Booting(k)
  {
  }

  lemma BootedInv(k: K)
    requires Booting(k) && |k.caches| == CLASSES
    ensures Inv(k) && forall h :: !LiveH(k, h)
  {
  }

  lemma {:induction false} RunKeeps(k: K, ops: seq<Op>)
    requires Inv(k) && LegalRun(k, ops)
    ensures Inv(Run(k, ops))
    decreases |ops|
  {
    if ops != [] {
      StepKeeps(k, ops[0]);
      RunKeeps(Step(k, ops[0]), ops[1..]);
    }
  }

  /** Any two live allocations are disjoint, every live allocation avoids the allocators' own bytes, and a client can
      use all it asked for exactly when it did not ask kmalloc for more than 8 MB less the header. */
  ghost predicate ClientsSafe(k: K)
    requires |k.caches| == CLASSES
  {
    && (forall h, g :: LiveH(k, h) && LiveH(k, g) && h != g ==>
          Before(Pointer(h), Pointer(h) + Usable(k, h), Pointer(g), Pointer(g) + Usable(k, g)))
    && (forall h, i :: LiveH(k, h) && IsInternal(k, i) ==>
          Before(Pointer(h), Pointer(h) + Usable(k, h), Lo(i), Hi(k, i)))
    && (forall h :: LiveH(k, h) ==>
          (Usable(k, h) == Requested(k, h) <==> (h.BigH? ==> Requested(k, h) + BUDDY_HEADER <= MAX_BLOCK)))
  }

  lemma SafeFromInv(k: K)
    requires Inv(k)
    ensures ClientsSafe(k)
  {
    forall h, g | LiveH(k, h) && LiveH(k, g) && h != g
      ensures Before(Pointer(h), Pointer(h) + Usable(k, h), Pointer(g), Pointer(g) + Usable(k, g))
    {
      LiveDisjoint(k, h, g);
    }
    forall h, i | LiveH(k, h) && IsInternal(k, i)
      ensures Before(Pointer(h), Pointer(h) + Usable(k, h), Lo(i), Hi(k, i))
    {
      LiveAvoidsInternal(k, h, i);
    }
    forall h | LiveH(k, h)
      ensures Usable(k, h) == Requested(k, h) <==> (h.BigH? ==> Requested(k, h) + BUDDY_HEADER <= MAX_BLOCK)
    {
      UsableIff(k, h);
    }
  }

  lemma RunSafe(k: K, ops: seq<Op>)
    requires Inv(k) && LegalRun(k, ops)
    ensures ClientsSafe(Run(k, ops))
  {
    RunKeeps(k, ops);
    SafeFromInv(Run(k, ops));
  }

  /** Over every interleaving of the four calls from the state that boot leaves. */
  lemma EveryRun(pages: nat, boot: K, ops: seq<Op>)
    requires boot == KmallocSpec.Boot(pages) && LegalRun(boot, ops)
    ensures ClientsSafe(Run(boot, ops))
  {
    BootInv(pages);
    RunSafe(boot, ops);
  }

  // ---------------------------------------------------------------- the slab steps are those of SlabCache as written

  /** A cache as SlabCache sees it. */
  function SlabView(k: K, c: nat): Slab.OneSlab
    requires c < |k.caches|
  {
    match k.caches[c]
    case NoCache => None
    case NoSlab => None
    case OneSlab(_, free) => Some(free)
  }

  /** Where the object area of a new slab for cache c would start, if a block can be had. */
  function NewArea(k: K, c: nat): Option<nat> {
    var r := TakeBlock(k, SlabOrder(ClassSize(c)), SlabOf(c)).1;
    if r.None? then None else Some(SlabStart(r.value))
  }

  /** slab_alloc on any cache there is, with or without a slab. */
  lemma SlabAllocIsWritten(k: K, c: nat, req: nat)
    requires c < |k.caches| && !k.caches[c].NoCache?
    ensures var (k', r') := SlabAlloc(k, c, req);
            (SlabView(k', c), r') == Slab.WrittenAlloc(SlabView(k, c), ClassSize(c), Objects(c), NewArea(k, c))
    ensures forall d :: 0 <= d < |k.caches| && d != c ==> SlabAlloc(k, c, req).0.caches[d] == k.caches[d]
  {
  }

  /** slab_kfree of a live object. */
  lemma SlabFreeIsWritten(k: K, a: nat)
    requires Inv(k) && a in k.objs
    ensures var c, k' := k.objs[a].c, Kfree(k, a, false);
            && c < CLASSES && SlabView(k', c) == Slab.WrittenFree(SlabView(k, c), a)
            && forall d :: 0 <= d < CLASSES && d != c ==> k'.caches[d] == k.caches[d]
  {
    KfreeObject(k, a, false);
  }
}
