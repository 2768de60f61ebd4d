/** mm/pmm.c: the physical page allocator, one bit per 4 KB page above PHYS_FREE_START. */
module Pmm {
  import opened Machine
  import BM = Bitmap

  const PHYS_LOW_MEM_START: nat := 0x0
  const PHYS_HEAP_END: nat := 0x30_0000
  const PHYS_FREE_START: nat := 0x40_0000
  const PHYS_MEMORY_END: nat := 0x800_0000
  const TOTAL_PAGES: nat := 31744
  const WORD32: nat := 0x1_0000_0000

  /** Number of set bits. */
  function Count(s: seq<bool>): (n: nat)
    ensures n <= |s|
  {
    if s == [] then 0 else Count(s[..|s| - 1]) + (if s[|s| - 1] then 1 else 0)
  }

  lemma {:induction false} CountSet(s: seq<bool>, i: nat, b: bool)
    requires i < |s| && s[i] != b
    ensures Count(s[i := b]) == if b then Count(s) + 1 else Count(s) - 1
  {
    var t := s[i := b];
    if i < |s| - 1 {
      CountSet(s[..|s| - 1], i, b);
      assert t[..|s| - 1] == s[..|s| - 1][i := b];
    } else {
      assert t[..|s| - 1] == s[..|s| - 1];
    }
  }

  lemma {:induction false} CountNone(n: nat)
    ensures Count(seq(n, _ => false)) == 0
  {
    if n > 0 {
      CountNone(n - 1);
      assert seq(n, _ => false)[..n - 1] == seq(n - 1, _ => false);
    }
  }

  lemma {:induction false} CountPrefix(s: seq<bool>, k: nat)
    requires forall i :: 0 <= i < |s| ==> s[i] == (i < k)
    ensures Count(s) == if |s| < k then |s| else k
  {
    if s != [] {
      CountPrefix(s[..|s| - 1], k);
    }
  }

  lemma {:induction false} CountFull(s: seq<bool>)
    ensures Count(s) == |s| <==> forall i :: 0 <= i < |s| ==> s[i]
  {
    if s != [] {
      var t := s[..|s| - 1];
      CountFull(t);
      assert forall i :: 0 <= i < |t| ==> t[i] == s[i];
      assert (forall i :: 0 <= i < |s| ==> s[i]) <==> (forall i :: 0 <= i < |t| ==> t[i]) && s[|s| - 1];
    }
  }

  /** Pages a .. a + n - 1 exist and are all free. */
  predicate FreeRun(s: seq<bool>, a: nat, n: nat) {
    a + n <= |s| && forall i :: a <= i < a + n ==> !s[i]
  }

  /** A run of more than n pages that starts at most n before an allocated page covers that page. */
  lemma NoRunThrough(s: seq<bool>, i: nat, n: nat, count: nat)
    requires i < |s| && s[i] && n < count && n <= i && forall a :: 0 <= a < i - n ==> !FreeRun(s, a, count)
    ensures forall a :: 0 <= a <= i ==> !FreeRun(s, a, count)
  {
  }

  /** The lowest free page, or the number of pages. */
  function LowestFree(s: seq<bool>): (i: nat)
    ensures i <= |s| && (forall j :: 0 <= j < i ==> s[j]) && (i < |s| ==> !s[i])
  {
    if s == [] || !s[0] then 0 else 1 + LowestFree(s[1..])
  }

  lemma LowestIs(s: seq<bool>, k: nat)
    requires k < |s| && !s[k] && forall i :: 0 <= i < k ==> s[i]
    ensures LowestFree(s) == k
  {
  }

  function PageToAddr(page: nat): nat {
    PHYS_FREE_START + page * PAGE_SIZE
  }

  class Pmm {
    const bitmap: BM.Bitmap
    var used: nat

    ghost function Bits(): seq<bool>
      reads bitmap
    {
      bitmap.contents
    }

    ghost predicate Valid()
      reads this, bitmap, bitmap.bytes
    {
      bitmap.Valid() && bitmap.bits == TOTAL_PAGES && used == Count(bitmap.contents)
    }

    /** pmm_init */
    constructor ()
      ensures Valid() && fresh(bitmap) && fresh(bitmap.bytes)
      ensures forall i :: 0 <= i < TOTAL_PAGES ==> Bits()[i] == (i < 1024)
      ensures used == 1024 && LowestFree(Bits()) == 1024
    {
      bitmap := new BM.Bitmap(TOTAL_PAGES);
      used := 0;
      new;
      CountNone(TOTAL_PAGES);
      MarkRegionUsed(0x0, 0x10_0000);
      MarkRegionUsed(0x10_0000, 0x20_0000);
      MarkRegionUsed(0x20_0000, 0x30_0000);
      MarkRegionUsed(0x30_0000, 0x40_0000);
      forall i: nat | i < TOTAL_PAGES
        ensures Bits()[i] == (i < 1024)
      {
        InitReservesWrongPages(i);
      }
      CountPrefix(Bits(), 1024);
      LowestIs(Bits(), 1024);
    }

    /** pmm_alloc_page: the lowest free page, or 0 exactly when every page is used. */
    method AllocPage() returns (addr: nat)
      requires Valid()
      modifies this, bitmap`contents, bitmap.bytes
      ensures Valid()
      ensures addr == 0 <==> old(used) == TOTAL_PAGES
      ensures addr == 0 ==> Bits() == old(Bits()) && used == old(used)
      ensures addr != 0 ==> exists i: nat ::
                i < TOTAL_PAGES && addr == PageToAddr(i) && !old(Bits())[i] && (forall j :: 0 <= j < i ==>
                    old(Bits())[j]) &&
                Bits() == old(Bits())[i := true] && used == old(used) + 1
    {
      CountFull(Bits());
      for i := 0 to TOTAL_PAGES
        invariant Valid() && Bits() == old(Bits()) && used == old(used)
        invariant forall j :: 0 <= j < i ==> Bits()[j]
      {
        var b := bitmap.Test(i);
        if !b {
          CountSet(Bits(), i, true);
          bitmap.Set(i);
          used := used + 1;
          return PageToAddr(i);
        }
      }
      return 0;
    }

    /** pmm_alloc_pages: the lowest run of `count` free pages, or 0 exactly when there is none. */
    method AllocPages(count: nat) returns (addr: nat)
      requires Valid()
      modifies this, bitmap`contents, bitmap.bytes
      ensures Valid()
      ensures addr == 0 <==> count == 0 || forall a :: 0 <= a <= TOTAL_PAGES ==> !FreeRun(old(Bits()), a, count)
      ensures addr == 0 ==> Bits() == old(Bits())
      ensures addr != 0 ==> exists a: nat ::
                addr == PageToAddr(a) && FreeRun(old(Bits()), a, count) &&
                (forall b :: 0 <= b < a ==> !FreeRun(old(Bits()), b, count)) &&
                Bits() == Fill(old(Bits()), a, count, true)
    {
      if count == 0 {
        return 0;
      }
      if count == 1 {
        addr := AllocSingle();
        return;
      }
      var found, start := FindRun(count);
      assert Bits() == old(Bits());
      if !found {
        return 0;
      }
      TakeRun(start, count);
      return PageToAddr(start);
    }

    /** The scan of pmm_alloc_pages. */
    method FindRun(count: nat) returns (found: bool, start: nat)
      requires Valid() && count > 0
      ensures found ==> FreeRun(Bits(), start, count) && forall b :: 0 <= b < start ==> !FreeRun(Bits(), b, count)
      ensures !found ==> forall a :: 0 <= a <= TOTAL_PAGES ==> !FreeRun(Bits(), a, count)
    {
      var contiguous := 0;
      start := 0;
      for i := 0 to TOTAL_PAGES
        invariant contiguous < count && contiguous <= i
        invariant contiguous > 0 ==> start == i - contiguous
        invariant FreeRun(Bits(), i - contiguous, contiguous)
        invariant forall a :: 0 <= a < i - contiguous ==> !FreeRun(Bits(), a, count)
      {
        var b := bitmap.Test(i);
        if !b {
          if contiguous == 0 {
            start := i;
          }
          contiguous := contiguous + 1;
          if contiguous == count {
            return true, start;
          }
        } else {
          NoRunThrough(Bits(), i, contiguous, count);
          contiguous := 0;
        }
      }
      return false, 0;
    }

    /** The one-page case of pmm_alloc_pages. */
    method AllocSingle() returns (addr: nat)
      requires Valid()
      modifies this, bitmap`contents, bitmap.bytes
      ensures Valid()
      ensures addr == 0 <==> forall a :: 0 <= a <= TOTAL_PAGES ==> !FreeRun(old(Bits()), a, 1)
      ensures addr == 0 ==> Bits() == old(Bits())
      ensures addr != 0 ==> exists a: nat ::
                addr == PageToAddr(a) && FreeRun(old(Bits()), a, 1) &&
                (forall b :: 0 <= b < a ==> !FreeRun(old(Bits()), b, 1)) &&
                Bits() == Fill(old(Bits()), a, 1, true)
    {
      ghost var s := Bits();
      CountFull(s);
      assert forall a :: 0 <= a <= TOTAL_PAGES ==> (FreeRun(s, a, 1) <==> a < TOTAL_PAGES && !s[a]);
      addr := AllocPage();
      if addr != 0 {
        ghost var i: nat :| i < TOTAL_PAGES && addr == PageToAddr(i) && !s[i] &&
                            (forall j :: 0 <= j < i ==> s[j]) && Bits() == s[i := true];
        assert Bits() == Fill(s, i, 1, true);
      } else {
        assert forall i :: 0 <= i < |s| ==> s[i];
      }
    }

    /** The marking loop of pmm_alloc_pages. */
    method TakeRun(start: nat, count: nat)
      requires Valid() && FreeRun(Bits(), start, count)
      modifies this, bitmap`contents, bitmap.bytes
      ensures Valid() && Bits() == Fill(old(Bits()), start, count, true) && used == old(used) + count
    {
      for j := 0 to count
        invariant bitmap.Valid() && Bits() == Fill(old(Bits()), start, j, true)
        invariant Count(Bits()) == old(used) + j && used == old(used)
      {
        CountSet(Bits(), start + j, true);
        bitmap.Set(start + j);
      }
      used := used + count;
    }

    /** pmm_free_page. Its range test admits only addresses below PHYS_FREE_START, whose page number wraps around to a
        value out of range, so no 64-bit address frees anything. */
    method FreePage(phys: nat)
      requires Valid() && phys < WORD
      modifies this, bitmap`contents, bitmap.bytes
      ensures Valid() && Bits() == old(Bits()) && used == old(used)
    {
      if phys < PHYS_LOW_MEM_START || phys >= PHYS_HEAP_END {
        return;
      }
      if phys % PAGE_SIZE != 0 {
        return;
      }
      WrappedPage(phys);
      ClearPage((((phys + WORD - PHYS_FREE_START) % WORD) / PAGE_SIZE) % WORD32);
    }

    /** The bitmap update of pmm_free_page. */
    method ClearPage(page: nat)
      requires Valid()
      modifies this, bitmap`contents, bitmap.bytes
      ensures Valid()
      ensures Bits() == if page < TOTAL_PAGES then old(Bits())[page := false] else old(Bits())
      ensures used == if page < TOTAL_PAGES && old(Bits())[page] then old(used) - 1 else old(used)
    {
      if page >= TOTAL_PAGES {
        return;
      }
      var b := bitmap.Test(page);
      if b {
        CountSet(Bits(), page, false);
        bitmap.Clear(page);
        used := used - 1;
      }
    }

    /** pmm_mark_region_used: sets the bits of the pages that RegionUsed names and no others. */
    method MarkRegionUsed(start: nat, end: nat)
      requires Valid() && start < WORD && end < WORD
      modifies this, bitmap`contents, bitmap.bytes
      ensures Valid() && |Bits()| == TOTAL_PAGES
      ensures forall i :: 0 <= i < TOTAL_PAGES ==> Bits()[i] == (old(Bits())[i] || RegionUsed(start, end, i))
    {
      var lo := AlignDown(start);
      var hi := AlignUp(end);
      if lo < PHYS_FREE_START {
        lo := PHYS_FREE_START;
        hi := (hi + PHYS_FREE_START) % WORD;
      }
      if hi > PHYS_MEMORY_END {
        hi := PHYS_MEMORY_END;
      }
      if lo >= hi {
        forall i: nat | i < TOTAL_PAGES
          ensures !RegionUsed(start, end, i)
        {
          RegionPages(start, end, i);
        }
        return;
      }
      forall i: nat | i < TOTAL_PAGES
        ensures (lo - PHYS_FREE_START) / PAGE_SIZE <= i < (hi - PHYS_FREE_START) / PAGE_SIZE <==>
            RegionUsed(start, end, i)
      {
        RegionPages(start, end, i);
      }
      MarkPages((lo - PHYS_FREE_START) / PAGE_SIZE, (hi - PHYS_FREE_START) / PAGE_SIZE);
    }

    /** The marking loop of pmm_mark_region_used. */
    method MarkPages(first: nat, last: nat)
      requires Valid() && first <= last
      modifies this, bitmap`contents, bitmap.bytes
      ensures Valid() && |Bits()| == TOTAL_PAGES
      ensures forall j :: 0 <= j < TOTAL_PAGES ==> Bits()[j] == (old(Bits())[j] || first <= j < last)
    {
      var i := first;
      while i < last && i < TOTAL_PAGES
        invariant first <= i <= last && Valid()
        invariant forall j :: 0 <= j < TOTAL_PAGES ==> Bits()[j] == (old(Bits())[j] || first <= j < i)
      {
        var b := bitmap.Test(i);
        if !b {
          CountSet(Bits(), i, true);
          bitmap.Set(i);
          used := used + 1;
        }
        i := i + 1;
      }
    }
  }

  /** The page number of an address below PHYS_FREE_START wraps around. */
  lemma WrappedPage(phys: nat)
    requires phys < PHYS_HEAP_END
    ensures (((phys + WORD - PHYS_FREE_START) % WORD) / PAGE_SIZE) % WORD32 >= TOTAL_PAGES
  {
    var x := phys + WORD - PHYS_FREE_START;
    assert x % WORD == x;
    PageBits(x / PAGE_SIZE);
  }

  lemma PageBits(n: nat)
    requires 0x10_0000_0000_0000 - 1024 <= n < 0x10_0000_0000_0000
    ensures n % WORD32 >= TOTAL_PAGES
  {
    assert n == 0xF_FFFF * WORD32 + (n - 0xF_FFFF * WORD32);
  }

  function AlignDown(x: nat): nat { x / PAGE_SIZE * PAGE_SIZE }

  /** PAGE_ALIGN_UP in 64-bit arithmetic, where the last page of the address space rounds up to 0. */
  function AlignUp(x: nat): nat { (x + PAGE_SIZE - 1) % WORD / PAGE_SIZE * PAGE_SIZE }

  /** The end of the region as pmm_mark_region_used computes it: a region that begins below PHYS_FREE_START has its end
      moved up by PHYS_FREE_START. */
  function RegionEnd(start: nat, end: nat): nat {
    if AlignDown(start) < PHYS_FREE_START then (AlignUp(end) + PHYS_FREE_START) % WORD else AlignUp(end)
  }

  /** Page i is marked by pmm_mark_region_used(start, end). */
  predicate RegionUsed(start: nat, end: nat, i: nat) {
    AlignDown(start) < PageToAddr(i) + PAGE_SIZE && PageToAddr(i) < RegionEnd(start, end)
  }

  lemma RegionPages(start: nat, end: nat, i: nat)
    requires i < TOTAL_PAGES
    ensures var lo := if AlignDown(start) < PHYS_FREE_START then PHYS_FREE_START else AlignDown(start);
            var top := RegionEnd(start, end);
            var hi := if top > PHYS_MEMORY_END then PHYS_MEMORY_END else top;
            && (lo < hi ==> ((lo - PHYS_FREE_START) / PAGE_SIZE <= i < (hi - PHYS_FREE_START) / PAGE_SIZE
                             <==> RegionUsed(start, end, i)))
            && (lo >= hi ==> !RegionUsed(start, end, i))
  {
    EndAligned(start, end);
  }

  lemma EndAligned(start: nat, end: nat)
    ensures AlignDown(start) % PAGE_SIZE == 0 && RegionEnd(start, end) % PAGE_SIZE == 0
  {
  }

  /** Page i shares a byte with [start, end). */
  predicate Overlaps(start: nat, end: nat, i: nat) {
    start < end && start < PageToAddr(i) + PAGE_SIZE && PageToAddr(i) < end
  }

  /** Page i is marked if and only if it should be. */
  predicate MarkedRight(start: nat, end: nat, i: nat) {
    RegionUsed(start, end, i) <==> Overlaps(start, end, i)
  }

  lemma RegionPage(start: nat, end: nat, i: nat)
    requires start < end < WORD && i < TOTAL_PAGES
    ensures MarkedRight(start, end, i) <==>
            if start >= PHYS_FREE_START then end <= WORD - PAGE_SIZE || start >= PageToAddr(i) + PAGE_SIZE
            else if end <= WORD - PHYS_FREE_START - PAGE_SIZE then end <= i * PAGE_SIZE || PageToAddr(i) < end
            else false
  {
  }

  lemma EmptyRegionPage(start: nat, end: nat, i: nat)
    requires end <= start < WORD && i < TOTAL_PAGES
    ensures MarkedRight(start, end, i) <==>
            if start >= PHYS_FREE_START then AlignDown(start) > PageToAddr(i) || PageToAddr(i) >= AlignUp(end)
            else end <= i * PAGE_SIZE
  {
    EndAligned(start, end);
  }

  /** When pmm_mark_region_used marks exactly the managed pages that the region shares a byte with. A proper region must
      start at or above PHYS_FREE_START or reach into the last managed page, and its end must not wrap around where that
      matters. An empty or reversed one must not have its ends rounded apart inside managed memory. */
  predicate MarksRight(start: nat, end: nat) {
    if start < end then
      if start >= PHYS_FREE_START then end <= WORD - PAGE_SIZE || start >= PHYS_MEMORY_END
      else PHYS_MEMORY_END - PAGE_SIZE < end <= WORD - PHYS_FREE_START - PAGE_SIZE
    else if start >= PHYS_FREE_START then AlignUp(end) <= AlignDown(start) || start >= PHYS_MEMORY_END
    else end == 0
  }

  /** A page that shows that marking is not right, if there is one. */
  function Witness(start: nat, end: nat): nat {
    if start >= end then
      if start < PHYS_FREE_START then 0 else (AlignDown(start) - PHYS_FREE_START) / PAGE_SIZE
    else if start >= PHYS_FREE_START then TOTAL_PAGES - 1
    else if end <= PHYS_FREE_START || end > PHYS_MEMORY_END - PAGE_SIZE then 0
    else (end - PHYS_FREE_START + PAGE_SIZE - 1) / PAGE_SIZE
  }

  lemma ProperRegion(start: nat, end: nat)
    requires start < end < WORD
    ensures (forall i: nat :: i < TOTAL_PAGES ==> MarkedRight(start, end, i)) <==> MarksRight(start, end)
  {
    forall i: nat | i < TOTAL_PAGES && MarksRight(start, end)
      ensures MarkedRight(start, end, i)
    {
      RegionPage(start, end, i);
    }
    if !MarksRight(start, end) {
      assert Witness(start, end) < TOTAL_PAGES;
      RegionPage(start, end, Witness(start, end));
    }
  }

  lemma EmptyRegion(start: nat, end: nat)
    requires end <= start < WORD
    ensures (forall i: nat :: i < TOTAL_PAGES ==> MarkedRight(start, end, i)) <==> MarksRight(start, end)
  {
    forall i: nat | i < TOTAL_PAGES && MarksRight(start, end)
      ensures MarkedRight(start, end, i)
    {
      EmptyRegionPage(start, end, i);
    }
    if !MarksRight(start, end) {
      EndAligned(start, end);
      assert Witness(start, end) < TOTAL_PAGES;
      EmptyRegionPage(start, end, Witness(start, end));
    }
  }

  /** For all 64-bit arguments. */
  lemma RegionMarking(start: nat, end: nat)
    requires start < WORD && end < WORD
    ensures (forall i: nat :: i < TOTAL_PAGES ==> MarkedRight(start, end, i)) <==> MarksRight(start, end)
  {
    if start < end {
      ProperRegion(start, end);
    } else {
      EmptyRegion(start, end);
    }
  }

  /** pmm_init reserves four regions that lie wholly below PHYS_FREE_START; what it marks is the first 4 MB of the
      pages it manages, none of which overlaps a reserved region. */
  lemma InitReservesWrongPages(i: nat)
    requires i < TOTAL_PAGES
    ensures (RegionUsed(0x0, 0x10_0000, i) || RegionUsed(0x10_0000, 0x20_0000, i) ||
             RegionUsed(0x20_0000, 0x30_0000, i) || RegionUsed(0x30_0000, 0x40_0000, i)) <==> i < 1024
    ensures !Overlaps(0x0, 0x40_0000, i)
  {
    LowRegion(0x0, 0x10_0000, i);
    LowRegion(0x10_0000, 0x20_0000, i);
    LowRegion(0x20_0000, 0x30_0000, i);
    LowRegion(0x30_0000, 0x40_0000, i);
  }

  /** A page-aligned region below the managed memory marks the pages whose number, not address, is below its end. */
  lemma LowRegion(start: nat, end: nat, i: nat)
    requires start < end <= PHYS_FREE_START && end % PAGE_SIZE == 0
    ensures RegionUsed(start, end, i) <==> i * PAGE_SIZE < end
  {
  }
}
