/** mm/allocators/kmalloc.c over the slab caches (as written) and the buddy allocator, on values. Addresses are bytes
    from the base of the buddy region. */
module KmallocSpec {
  import opened Machine
  import opened Bits
  import opened Wrappers
  import opened Tiling
  import B = BuddySpec
  import P = BuddyProofs
  import opened SlabSpec
  import Buddy

  const CLASSES: nat := 8
  const BUDDY_HEADER: nat := 16
  /** 8 MB, the largest block. */
  const MAX_BLOCK: nat := 0x80_0000

  function ClassSize(c: nat): (s: nat)
    ensures s >= 32 && s % 32 == 0
    ensures c < CLASSES ==> s == 32 * Pow2(c)
  {
    assert Pow2(0) == 1 && Pow2(1) == 2 && Pow2(2) == 4 && Pow2(3) == 8;
    assert Pow2(4) == 16 && Pow2(5) == 32 && Pow2(6) == 64 && Pow2(7) == 128;
    match c
    case 0 => 32 case 1 => 64 case 2 => 128 case 3 => 256 case 4 => 512 case 5 => 1024 case 6 => 2048 case _ => 4096
  }

  /** The cache slab_kmalloc uses for a request. */
  function ClassFor(size: nat): (c: nat)
    requires size <= 4096
    ensures c < CLASSES && size <= ClassSize(c) && (c > 0 ==> ClassSize(c - 1) < size)
  {
    if size <= 32 then 0 else if size <= 64 then 1 else if size <= 128 then 2 else if size <= 256 then 3
    else if size <= 512 then 4 else if size <= 1024 then 5 else if size <= 2048 then 6 else 7
  }

  function Objects(c: nat): nat {
    ObjectsPerSlab(ClassSize(c))
  }

  /** The byte address of a page. */
  function PageAddr(p: nat): nat {
    p * PAGE_SIZE
  }

  function BlockBytes(o: nat): (n: nat)
    ensures n >= PAGE_SIZE
  {
    Pow2(o) * PAGE_SIZE
  }

  /** What a live buddy block is used for; requests in bytes, or in pages for a page run. */
  datatype Role = CacheStruct | SlabOf(c: nat) | BigBlock(req: nat) | PageRun(req: nat)

  datatype CacheState = NoCache | NoSlab | OneSlab(page: nat, free: seq<nat>)

  datatype Obj = Obj(c: nat, req: nat)

  /** The allocator stack and what its clients hold: `objs` are the live slab objects by address; the live big blocks
      and page runs are those that `roles` records. */
  datatype K = K(sys: P.Sys, roles: map<nat, Role>, caches: seq<CacheState>, objs: map<nat, Obj>)

  /** buddy_alloc_order with a role for the block. */
  function TakeBlock(k: K, o: nat, role: Role): (r: (K, Option<nat>))
    ensures r.0.caches == k.caches && r.0.objs == k.objs
  {
    var (h, r) := B.Alloc(k.sys.heap, o);
    match r
    case None => (k, None)
    case Some(x) => (k.(sys := P.Sys(h, k.sys.live[x := o]), roles := k.roles[x := role]), Some(x))
  }

  /** buddy_free of a byte address. */
  function GiveBlock(k: K, a: nat): (r: K)
    ensures r.caches == k.caches && r.objs == k.objs
  {
    if a % PAGE_SIZE != 0 then k
    else
      var x := a / PAGE_SIZE;
      k.(sys := P.Step(k.sys, P.FreeOp(x)), roles := k.roles - {x})
  }

  /** slab_alloc on cache c. */
  function SlabAlloc(k: K, c: nat, req: nat): (r: (K, Option<nat>))
    requires c < |k.caches|
    ensures |r.0.caches| == |k.caches|
  {
    match k.caches[c]
    case NoCache => (k, None)
    case NoSlab =>
      var (k1, r) := TakeBlock(k, SlabOrder(ClassSize(c)), SlabOf(c));
      if r.None? then (k, None)
      else Hand(k1, c, r.value, FreshObjects(PageAddr(r.value) + SLAB_HEADER, ClassSize(c), Objects(c)), req)
    case OneSlab(page, free) => Hand(k, c, page, free, req)
  }

  /** Hands out the first free object of the slab of cache c. */
  function Hand(k: K, c: nat, page: nat, free: seq<nat>, req: nat): (K, Option<nat>)
    requires c < |k.caches|
  {
    if free == [] then (k.(caches := k.caches[c := OneSlab(page, free)]), None)
    else (k.(caches := k.caches[c := OneSlab(page, free[1..])], objs := k.objs[free[0] := Obj(c, req)]), Some(free[0]))
  }

  /** The order kmalloc asks the buddy allocator for, in 64-bit arithmetic. */
  function BigOrder(size: nat): (o: nat)
    ensures o <= B.MAX_ORDER
  {
    B.OrderFor(Buddy.PagesFor((size + BUDDY_HEADER) % WORD), 0)
  }

  /** kmalloc */
  function Malloc(k: K, size: nat): (r: (K, Option<nat>))
    requires |k.caches| == CLASSES
    ensures |r.0.caches| == CLASSES
  {
    if size == 0 then (k, None)
    else if size <= 4096 then SlabAlloc(k, ClassFor(size), size)
    else
      var (k1, r) := TakeBlock(k, BigOrder(size), BigBlock(size));
      (k1, if r.None? then None else Some(PageAddr(r.value) + BUDDY_HEADER))
  }

  /** The bytes kcalloc asks for, in 64-bit arithmetic; None when its division test reports an overflow. */
  function CallocBytes(num: nat, size: nat): Option<nat> {
    var total := (num * size) % WORD;
    if num != 0 && total / num != size then None else Some(total)
  }

  /** kcalloc */
  function Calloc(k: K, num: nat, size: nat): (r: (K, Option<nat>))
    requires |k.caches| == CLASSES
    ensures |r.0.caches| == CLASSES
  {
    match CallocBytes(num, size)
    case None => (k, None)
    case Some(total) => Malloc(k, total)
  }

  /** kmalloc_pages */
  function MallocPages(k: K, n: nat): (K, Option<nat>) {
    if n == 0 then (k, None)
    else
      var o := B.OrderFor(n, 0);
      if Pow2(o) < n then (k, None)
      else
        var (k1, r) := TakeBlock(k, o, PageRun(n));
        (k1, if r.None? then None else Some(PageAddr(r.value)))
  }

  /** The slab of cache c holds address a. */
  predicate Holds(k: K, c: nat, a: nat)
    requires c < |k.caches|
  {
    k.caches[c].OneSlab? &&
    var start := PageAddr(k.caches[c].page) + SLAB_HEADER;
    start <= a < start + Objects(c) * ClassSize(c)
  }

  /** The first cache from c on whose slab holds a, or CLASSES. */
  function Search(k: K, a: nat, c: nat): (r: nat)
    requires |k.caches| == CLASSES && c <= CLASSES
    ensures c <= r <= CLASSES
    ensures r < CLASSES ==> Holds(k, r, a)
    ensures forall d :: c <= d < r ==> !Holds(k, d, a)
    decreases CLASSES - c
  {
    if c >= CLASSES || Holds(k, c, a) then c else Search(k, a, c + 1)
  }

  /** kfree; `magic` says whether the word 16 bytes before the pointer reads as the buddy header's magic number, which
      for a slab object depends on what the neighbouring object holds. */
  function Kfree(k: K, a: nat, magic: bool): (r: K)
    requires |k.caches| == CLASSES
    ensures |r.caches| == CLASSES
  {
    var k1 := k.(objs := k.objs - {a});
    if magic then (if a < BUDDY_HEADER then k1 else GiveBlock(k1, a - BUDDY_HEADER))
    else
      var c := Search(k, a, 0);
      if c < CLASSES then k1.(caches := k.caches[c := k.caches[c].(free := [a] + k.caches[c].free)])
      else GiveBlock(k1, a)
  }

  /** kfree_pages */
  function KfreePages(k: K, a: nat): K {
    GiveBlock(k, a)
  }

  // ---------------------------------------------------------------- boot and runs

  /** slab_init: a page for the structure of each cache from c on. */
  function Caches(k: K, c: nat): (r: K)
    requires c <= CLASSES
    ensures |r.caches| == |k.caches| + CLASSES - c
    decreases CLASSES - c
  {
    if c >= CLASSES then k else Caches(CreateCache(k), c + 1)
  }

  /** slab_cache_create: a page for the cache structure, and no slab yet. */
  function CreateCache(k: K): (r: K)
    ensures |r.caches| == |k.caches| + 1
  {
    var (k1, r) := TakeBlock(k, 0, CacheStruct);
    k1.(caches := k1.caches + [if r.None? then NoCache else NoSlab])
  }

  /** buddy_init and slab_init on a region of the given number of pages. */
  function Boot(pages: nat): (r: K)
    ensures |r.caches| == CLASSES
  {
    Caches(K(P.Sys(B.Init(pages), map[]), map[], [], map[]), 0)
  }

  datatype Op = MallocOp(size: nat) | CallocOp(num: nat, size: nat)
                | KfreeOp(a: nat, magic: bool) | PagesOp(n: nat) | KfreePagesOp(a: nat)

  function Step(k: K, op: Op): (r: K)
    requires |k.caches| == CLASSES
    ensures |r.caches| == CLASSES
  {
    match op
    case MallocOp(size) => Malloc(k, size).0
    case CallocOp(num, size) => Calloc(k, num, size).0
    case KfreeOp(a, magic) => Kfree(k, a, magic)
    case PagesOp(n) => MallocPages(k, n).0
    case KfreePagesOp(a) => KfreePages(k, a)
  }

  /** Something a client holds. */
  datatype Handle = ObjH(a: nat) | BigH(p: nat) | RunH(p: nat)

  predicate LiveH(k: K, h: Handle) {
    match h
    case ObjH(a) => a in k.objs
    case BigH(p) => p in k.roles && k.roles[p].BigBlock?
    case RunH(p) => p in k.roles && k.roles[p].PageRun?
  }

  function Pointer(h: Handle): nat {
    match h
    case ObjH(a) => a
    case BigH(p) => PageAddr(p) + BUDDY_HEADER
    case RunH(p) => PageAddr(p)
  }

  /** The bytes the client asked for. */
  function Requested(k: K, h: Handle): nat
    requires LiveH(k, h)
  {
    match h
    case ObjH(a) => k.objs[a].req
    case BigH(p) => k.roles[p].req
    case RunH(p) => k.roles[p].req * PAGE_SIZE
  }

  /** The bytes from the pointer on that the client asked for and its block holds. */
  function Usable(k: K, h: Handle): nat
    requires LiveH(k, h)
  {
    if h.BigH? && h.p in k.sys.live && Requested(k, h) + BUDDY_HEADER > BlockBytes(k.sys.live[h.p])
    then BlockBytes(k.sys.live[h.p]) - BUDDY_HEADER
    else Requested(k, h)
  }

  /** Sizes are 64-bit numbers; clients free what they hold, and do not overwrite a big block's header. */
  ghost predicate Legal(k: K, op: Op) {
    match op
    case MallocOp(size) => size < WORD
    case CallocOp(num, size) => num < WORD && size < WORD
    case PagesOp(_) => true
    case KfreeOp(a, magic) =>
      LiveH(k, ObjH(a)) || (magic && exists p :: LiveH(k, BigH(p)) && a == Pointer(BigH(p)))
    case KfreePagesOp(a) => exists p :: LiveH(k, RunH(p)) && a == Pointer(RunH(p))
  }

  ghost predicate LegalRun(k: K, ops: seq<Op>)
    requires |k.caches| == CLASSES
    decreases |ops|
  {
    ops == [] || (Legal(k, ops[0]) && LegalRun(Step(k, ops[0]), ops[1..]))
  }

  function Run(k: K, ops: seq<Op>): (r: K)
    requires |k.caches| == CLASSES
    ensures |r.caches| == CLASSES
    decreases |ops|
  {
    if ops == [] then k else Run(Step(k, ops[0]), ops[1..])
  }
}
