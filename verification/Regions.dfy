/** kernel.c starts the buddy allocator on the upper 64 MB of the memory that the page allocator manages. */
module Regions {
  import opened Machine
  import P = Pmm
  import B = BuddySpec

  /** The arguments of buddy_init in kernel.c. */
  const BUDDY_BASE: nat := 0x400_0000
  const BUDDY_PAGES: nat := 0x4000

  /** Page x of the buddy allocator and page i of the page allocator are the same frame. */
  predicate SameFrame(x: nat, i: nat) {
    BUDDY_BASE + x * PAGE_SIZE == P.PageToAddr(i)
  }

  /** The two allocators share exactly the frames from page 15360 of the page allocator on. */
  lemma SharedFrames(i: nat)
    requires i < P.TOTAL_PAGES
    ensures (exists x: nat :: x < BUDDY_PAGES && SameFrame(x, i)) <==> i >= 15360
  {
    if i >= 15360 {
      assert SameFrame(i - 15360, i);
    }
  }

  /** pmm_alloc_page stays out of the buddy allocator's region if and only if a page below 15360 is free. */
  lemma LowPagesFirst(bits: seq<bool>)
    requires |bits| == P.TOTAL_PAGES && P.LowestFree(bits) < P.TOTAL_PAGES
    ensures (forall x: nat :: x < BUDDY_PAGES ==> !SameFrame(x, P.LowestFree(bits))) <==>
            exists i :: 0 <= i < 15360 && !bits[i]
  {
    SharedFrames(P.LowestFree(bits));
  }

  /** Once every page below 15360 is used, the next page it hands out is the first of the buddy allocator's own tables,
      and every later one belongs to the buddy allocator too, which the page allocator does not know. */
  method HandsOutBuddyTables(pmm: P.Pmm) returns (addr: nat)
    requires pmm.Valid() && forall i :: 0 <= i < P.TOTAL_PAGES ==> pmm.Bits()[i] == (i < 15360)
    modifies pmm, pmm.bitmap`contents, pmm.bitmap.bytes
    ensures addr == BUDDY_BASE && B.MetaPages(BUDDY_PAGES) > 0
  {
    P.CountFull(pmm.Bits());
    assert !pmm.Bits()[15360];
    addr := pmm.AllocPage();
  }
}
