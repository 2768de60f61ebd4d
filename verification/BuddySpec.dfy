/** The buddy allocator as a state machine on values: free lists per order, allocation bits and order bytes.
    Page indices count from the base address of the managed region. */
module BuddySpec {
  import opened Machine
  import opened Bits
  import opened Tiling
  import opened Wrappers
  import opened Links

  const MAX_ORDER: nat := 11

  /** Free lists, head first, one per order 0..MAX_ORDER. */
  type Lists = s: seq<seq<nat>> | |s| == MAX_ORDER + 1 witness seq(12, _ => [])

  function NoBlocks(): Lists {
    seq(MAX_ORDER + 1, _ => [])
  }

  /** `meta` pages at the front hold the two side tables. */
  datatype Heap = Heap(pages: nat, meta: nat, free: Lists, bit: seq<bool>, ord: seq<nat>)

  // ---------------------------------------------------------------- operations

  /** Replaces the free block x of order o + 1 by its two halves. */
  function SplitOnce(g: Lists, o: nat, x: nat): Lists
    requires o < MAX_ORDER
  {
    Put(Put(Del(g, o + 1, x), o, x), o, x + Pow2(o))
  }

  /** Replaces the free blocks x and b of order o by the block of order o + 1 that starts at the lower one. */
  function MergeOnce(f: Lists, o: nat, x: nat, b: nat): Lists
    requires o < MAX_ORDER
  {
    Put(Del(Del(f, o, b), o, x), o + 1, Min(x, b))
  }

  /** Splits the first block of the next non-empty order above o down to order o; None when there is none. */
  function Split(f: Lists, o: nat): Option<Lists>
    decreases MAX_ORDER - o, 1
  {
    if o >= MAX_ORDER then None
    else
      var up := Upper(f, o);
      if up.None? || up.value[o + 1] == [] then None
      else Some(SplitOnce(up.value, o, up.value[o + 1][0]))
  }

  /** The lists with a block of order o + 1, split off a larger one if need be. */
  function Upper(f: Lists, o: nat): Option<Lists>
    requires o < MAX_ORDER
    decreases MAX_ORDER - o, 0
  {
    if f[o + 1] == [] then Split(f, o + 1) else Some(f)
  }

  /** Allocates a block of order o, returning its first page. */
  function Alloc(h: Heap, o: nat): (Heap, Option<nat>) {
    if o > MAX_ORDER then (h, None)
    else
      var up := if h.free[o] == [] then Split(h.free, o) else Some(h.free);
      if up.None? || up.value[o] == [] then (h, None)
      else
        var x := up.value[o][0];
        (h.(free := Del(up.value, o, x),
            bit := Fill(h.bit, x, Pow2(o), true),
            ord := Fill(h.ord, x, Pow2(o), o)), Some(x))
  }

  /** Merges the free block x of order o with its exclusive-or buddy, as long as that buddy is free too. */
  function TryMerge(f: Lists, bit: seq<bool>, x: nat, o: nat): Lists
    decreases MAX_ORDER - o
  {
    if o >= MAX_ORDER then f
    else
      var b := Xor(x, Pow2(o));
      if b >= |bit| || bit[b] || b !in f[o] then f
      else TryMerge(MergeOnce(f, o, x, b), bit, Min(x, b), o + 1)
  }

  /** Frees the block that starts at page x; ignores pages out of range or not marked allocated. */
  function Free(h: Heap, x: nat): Heap {
    if x >= h.pages || x >= |h.bit| || x >= |h.ord| || !h.bit[x] || h.ord[x] > MAX_ORDER then h
    else
      var o := h.ord[x];
      var bit := Fill(h.bit, x, Pow2(o), false);
      h.(free := TryMerge(Put(h.free, o, x), bit, x, o), bit := bit, ord := Fill(h.ord, x, Pow2(o), 0))
  }

  /** Carves [cur, cur + rem) into blocks, largest order first. */
  function Carve(f: Lists, cur: nat, rem: nat, o: nat): Lists
    decreases o, rem
  {
    if o > MAX_ORDER then f
    else if rem >= Pow2(o) then Carve(Put(f, o, cur), cur + Pow2(o), rem - Pow2(o), o)
    else if o == 0 then f
    else Carve(f, cur, rem, o - 1)
  }

  /** Pages taken by the allocation bitmap (one bit per page) and the order table (one byte per page). */
  function MetaPages(pages: nat): (m: nat)
    ensures m <= pages
    ensures m * PAGE_SIZE >= (pages + 7) / 8 + pages
    ensures pages > 0 ==> m > 0 && (m - 1) * PAGE_SIZE < (pages + 7) / 8 + pages
  {
    ((pages + 7) / 8 + pages + PAGE_SIZE - 1) / PAGE_SIZE
  }

  function Init(pages: nat): Heap {
    var m := MetaPages(pages);
    Heap(pages, m, Carve(NoBlocks(), m, pages - m, MAX_ORDER),
         seq(pages, _ => false), seq(pages, _ => 0))
  }

  /** The smallest order at or above o whose block holds that many pages, or MAX_ORDER. */
  function OrderFor(pages: nat, o: nat): (r: nat)
    requires o <= MAX_ORDER
    ensures o <= r <= MAX_ORDER
    ensures forall j :: o <= j < r ==> Pow2(j) < pages
    ensures r < MAX_ORDER ==> pages <= Pow2(r)
    decreases MAX_ORDER - o
  {
    if o >= MAX_ORDER || Pow2(o) >= pages then o else OrderFor(pages, o + 1)
  }

  // ---------------------------------------------------------------- invariant

  ghost function FreeSet(f: Lists): set<Block> {
    set o, x | 0 <= o <= MAX_ORDER && x in f[o] :: Block(x, o)
  }

  ghost function LiveSet(live: map<nat, nat>): set<Block> {
    set x | x in live :: Block(x, live[x])
  }

  /** No list below the top order holds a block together with its buddy. */
  ghost predicate Coalesced(f: Lists) {
    forall o, x :: 0 <= o < MAX_ORDER && x in f[o] ==> Xor(x, Pow2(o)) !in f[o]
  }

  /** Free and live blocks together tile [lo, hi). */
  ghost predicate Partition(f: Lists, L: set<Block>, lo: nat, hi: nat) {
    && (forall o :: 0 <= o <= MAX_ORDER ==> NoDup(f[o]))
    && FreeSet(f) !! L
    && Tiles(FreeSet(f) + L, lo, hi)
  }

  /** The side tables record exactly the live blocks. */
  ghost predicate TablesAgree(h: Heap, L: set<Block>) {
    && |h.bit| == |h.ord| == h.pages
    && (forall p :: 0 <= p < h.pages ==> (h.bit[p] <==> Covered(L, p)))
    && (forall b, p: nat :: b in L && Covers(b, p) && p < h.pages ==> h.ord[p] == b.order)
    && (forall p :: 0 <= p < h.pages && !h.bit[p] ==> h.ord[p] == 0)
  }

  ghost predicate Inv(h: Heap, live: map<nat, nat>) {
    && h.meta <= h.pages
    && (forall x :: x in live ==> live[x] <= MAX_ORDER)
    && Partition(h.free, LiveSet(live), h.meta, h.pages)
    && TablesAgree(h, LiveSet(live))
    && Coalesced(h.free)
  }
}
