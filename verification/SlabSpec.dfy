/** The slab caches of mm/allocators/slab.c on values: sizes, object layout, and the three slab lists. */
module SlabSpec {
  import opened Bits
  import opened Machine
  import opened Wrappers
  import opened Links

  /** Slab states, used as list numbers. */
  const EMPTY: nat := 0
  const PARTIAL: nat := 1
  const FULL: nat := 2

  const SLAB_HEADER: nat := 56

  /** align_size(size, 8) */
  function AlignSize(size: nat): (r: nat)
    ensures size <= r < size + 8 && r % 8 == 0
  {
    (size + 7) / 8 * 8
  }

  /** calculate_slab_order: the first order from 0 to 3 whose block fits eight objects, or 2. */
  function SlabOrder(size: nat): (o: nat)
    ensures o <= 3
    ensures size * 8 <= 32768 ==> size * 8 <= PAGE_SIZE * Pow2(o)
    ensures size * 8 <= 32768 ==> forall j :: 0 <= j < o ==> PAGE_SIZE * Pow2(j) < size * 8
    ensures size * 8 > 32768 ==> o == 2
  {
    assert Pow2(0) == 1 && Pow2(1) == 2 && Pow2(2) == 4 && Pow2(3) == 8;
    if size * 8 <= 4096 then 0 else if size * 8 <= 8192 then 1 else if size * 8 <= 16384 then 2
    else if size * 8 <= 32768 then 3 else 2
  }

  function SlabBytes(size: nat): (n: nat)
    ensures n == PAGE_SIZE * Pow2(SlabOrder(size))
  {
    assert Pow2(0) == 1 && Pow2(1) == 2 && Pow2(2) == 4 && Pow2(3) == 8;
    match SlabOrder(size) case 0 => 4096 case 1 => 8192 case 2 => 16384 case _ => 32768
  }

  /** slab_cache_create: how many aligned objects follow the header. */
  function ObjectsPerSlab(size: nat): (n: nat)
    requires size > 0
    ensures SLAB_HEADER + n * size <= SlabBytes(size) < SLAB_HEADER + (n + 1) * size
  {
    (SlabBytes(size) - SLAB_HEADER) / size
  }

  /** The address of object i of a slab whose objects start at `start`. */
  function ObjectAt(start: nat, size: nat, i: nat): nat {
    start + i * size
  }

  /** The free list allocate_slab builds: the last object first. */
  function FreshObjects(start: nat, size: nat, n: nat): seq<nat> {
    if n == 0 then [] else [ObjectAt(start, size, n - 1)] + FreshObjects(start, size, n - 1)
  }

  /** One slab: where its objects start, its free objects by address, and the recorded state. */
  datatype Slab = Slab(start: nat, free: seq<nat>, state: nat)

  datatype Cache = Cache(size: nat, n: nat, slabs: seq<Slab>, lists: seq<seq<nat>>)

  /** The list a slab belongs on, by its free count. */
  function ListOf(free: nat, n: nat): nat {
    if free == n then EMPTY else if free == 0 then FULL else PARTIAL
  }

  /** The slab's address range holds a. */
  predicate Holds(c: Cache, sl: Slab, a: nat) {
    sl.start <= a < sl.start + c.n * c.size
  }

  /** Moves slab s to the list of its new state, when that differs from the old one. */
  function Move(c: Cache, s: nat, sl: Slab, st: nat): Cache
    requires s < |c.slabs| && |c.lists| == 3 && sl.state < 3 && st < 3
  {
    c.(slabs := c.slabs[s := sl.(state := st)],
       lists := if st == sl.state then c.lists else Put(Del(c.lists, sl.state, s), st, s))
  }

  /** The slab slab_alloc turns to, with a new one when both lists are empty and memory allows. */
  function Pick(c: Cache, mem: Option<nat>): (Cache, Option<nat>)
    requires |c.lists| == 3
  {
    if c.lists[PARTIAL] != [] then (c, Some(c.lists[PARTIAL][0]))
    else if c.lists[EMPTY] != [] then (c, Some(c.lists[EMPTY][0]))
    else if mem.None? then (c, None)
    else
      var sl := Slab(mem.value, FreshObjects(mem.value, c.size, c.n), EMPTY);
      (c.(slabs := c.slabs + [sl], lists := Put(c.lists, EMPTY, |c.slabs|)), Some(|c.slabs|))
  }

  /** slab_alloc with the unlink done under the old state; `mem` is the object area of a new slab, if one can be had. */
  function Alloc(c: Cache, mem: Option<nat>): (Cache, Option<nat>)
    requires WellFormed(c)
  {
    var (c1, r) := Pick(c, mem);
    if r.None? || c1.slabs[r.value].free == [] then (c1, None)
    else
      var sl := c1.slabs[r.value];
      var rest := sl.free[1..];
      (Move(c1, r.value, sl.(free := rest), if rest == [] then FULL else PARTIAL), Some(sl.free[0]))
  }

  /** slab_free of the object at address a of slab s. */
  function Free(c: Cache, s: nat, a: nat): Cache
    requires WellFormed(c) && s < |c.slabs|
  {
    var sl := c.slabs[s];
    var free := [a] + sl.free;
    Move(c, s, sl.(free := free), if |free| == c.n then EMPTY else PARTIAL)
  }

  predicate WellFormed(c: Cache) {
    && |c.lists| == 3
    && (forall o, i :: 0 <= o < 3 && 0 <= i < |c.lists[o]| ==> c.lists[o][i] < |c.slabs|)
    && (forall s :: 0 <= s < |c.slabs| ==> c.slabs[s].state < 3)
  }

  /** a is the address of one of the slab's objects. */
  ghost predicate IsObject(start: nat, size: nat, n: nat, a: nat) {
    exists i: nat :: i < n && a == ObjectAt(start, size, i)
  }

  /** The slab lists are exactly what the free counts dictate. */
  ghost predicate ListsOk(c: Cache)
    requires |c.lists| == 3
  {
    && Distinct(c.lists)
    && forall s :: 0 <= s < |c.slabs| ==>
         c.slabs[s].state == ListOf(|c.slabs[s].free|, c.n) && s in c.lists[ListOf(|c.slabs[s].free|, c.n)]
  }

  /** A free list names distinct objects of its slab. */
  ghost predicate FreeOk(sl: Slab, size: nat, n: nat) {
    && NoDup(sl.free) && |sl.free| <= n
    && forall a :: a in sl.free ==> IsObject(sl.start, size, n, a)
  }

  ghost predicate ObjectsOk(c: Cache) {
    forall s :: 0 <= s < |c.slabs| ==> FreeOk(c.slabs[s], c.size, c.n)
  }

  /** The object areas of two slabs never overlap. */
  ghost predicate AreasApart(c: Cache) {
    forall s, t :: 0 <= s < t < |c.slabs| ==>
      c.slabs[s].start + c.n * c.size <= c.slabs[t].start || c.slabs[t].start + c.n * c.size <= c.slabs[s].start
  }

  ghost predicate Inv(c: Cache) {
    c.n > 0 && c.size > 0 && WellFormed(c) && ListsOk(c) && ObjectsOk(c) && AreasApart(c)
  }
}
