/** The page tables that boot/boot.asm builds: the first 128 MB mapped with 2 MB pages at three places, at their own
    addresses, in the direct map and in the higher half. */
module BootTables {
  import opened Wrappers
  import opened PageTables

  /** The frames of the seven tables. */
  datatype Boot = Boot(p4: Word, p3: Word, p2: Word, p3High: Word, p2High: Word, p3Direct: Word, p2Direct: Word)

  predicate IsBootTable(b: Boot, t: Word) {
    t == b.p4 || t == b.p3 || t == b.p2 || t == b.p3High || t == b.p2High || t == b.p3Direct || t == b.p2Direct
  }

  predicate DistinctFrames(b: Boot) {
    && b.p4 != b.p3 && b.p4 != b.p2 && b.p4 != b.p3High && b.p4 != b.p2High && b.p4 != b.p3Direct && b.p4 != b.p2Direct
    && b.p3 != b.p2 && b.p3 != b.p3High && b.p3 != b.p2High && b.p3 != b.p3Direct && b.p3 != b.p2Direct
    && b.p2 != b.p3High && b.p2 != b.p2High && b.p2 != b.p3Direct && b.p2 != b.p2Direct
    && b.p3High != b.p2High && b.p3High != b.p3Direct && b.p3High != b.p2Direct
    && b.p2High != b.p3Direct && b.p2High != b.p2Direct && b.p3Direct != b.p2Direct
    && IsFrame(b.p3) && IsFrame(b.p2) && IsFrame(b.p3High) && IsFrame(b.p2High) && IsFrame(b.p3Direct)
    && IsFrame(b.p2Direct)
  }

  /** link.ld places the boot data, and with it the tables, from 1 MB on and below the memory that the page allocator
      manages. */
  ghost predicate LowTables(b: Boot) {
    forall t :: IsBootTable(b, t) ==> 0x10_0000 <= t < 0x40_0000
  }

  /** Entry i of a page directory that maps the first 128 MB with 2 MB pages. */
  function HugeEntry(i: Index): Word {
    if i < 64 then ((i as bv64) << 21) | 0x83 else 0
  }

  /** Entry i of the top-level table. */
  function RootEntry(b: Boot, i: Index): Word {
    if i == 0 then TableEntry(b.p3) else if i == 256 then TableEntry(b.p3Direct)
    else if i == 511 then TableEntry(b.p3High) else 0
  }

  ghost predicate Built(m: Memory, b: Boot) {
    && (forall i: Index :: Entry(m, b.p4, i) == RootEntry(b, i))
    && (forall i: Index :: Entry(m, b.p3, i) == (if i == 0 then TableEntry(b.p2) else 0))
    && (forall i: Index :: Entry(m, b.p3High, i) == (if i == 510 then TableEntry(b.p2High) else 0))
    && (forall i: Index :: Entry(m, b.p3Direct, i) == (if i == 0 then TableEntry(b.p2Direct) else 0))
    && (forall i: Index :: Entry(m, b.p2, i) == HugeEntry(i))
    && (forall i: Index :: Entry(m, b.p2High, i) == HugeEntry(i))
    && (forall i: Index :: Entry(m, b.p2Direct, i) == HugeEntry(i))
  }

  /** The word that kernel_entry.asm clears. */
  const CLEARED: Word := 0x1000

  /** kernel_entry.asm means to remove the identity mapping by clearing the word at 0x1000. That word is the first entry
      of the top-level table if and only if the table lies there, and link.ld places it elsewhere: the tables of boot
      stay as they are. */
  lemma IdentityStays(m: Memory, m': Memory, b: Boot)
    requires DistinctFrames(b) && Built(m, b) && Wrote(m, m', CLEARED, 0, 0)
    ensures !Present(Entry(m', b.p4, 0)) <==> b.p4 == CLEARED
    ensures LowTables(b) ==> Built(m', b)
  {
    TableEntryFacts(b.p3);
    ZeroAbsent();
    if LowTables(b) {
      forall t, i: Index | IsBootTable(b, t)
        ensures Entry(m', t, i) == Entry(m, t, i)
      {
        assert t >= 0x10_0000;
      }
    }
  }

  ghost function BootOwners(b: Boot): Owners {
    map[Table(b.p4) := P4, Table(b.p3) := P3(0), Table(b.p2) := P2(0, 0), Table(b.p3High) := P3(511),
        Table(b.p2High) := P2(511, 510), Table(b.p3Direct) := P3(256), Table(b.p2Direct) := P2(256, 0)]
  }

  /** The owners map as a list of facts. */
  ghost predicate BootOwned(b: Boot, own: Owners) {
    && OwnedAs(own, b.p4, P4) && OwnedAs(own, b.p3, P3(0)) && OwnedAs(own, b.p2, P2(0, 0))
    && OwnedAs(own, b.p3High, P3(511)) && OwnedAs(own, b.p2High, P2(511, 510))
    && OwnedAs(own, b.p3Direct, P3(256)) && OwnedAs(own, b.p2Direct, P2(256, 0))
  }

  lemma HugeBits(i: Index)
    requires i < 64
    ensures (((i as bv64) << 21) | 0x83) & 0x1 != 0 && (((i as bv64) << 21) | 0x83) & 0x80 != 0
    ensures (((i as bv64) << 21) | 0x83) & 0x000FFFFFFFFFF000 == (i as bv64) << 21
  {
  }

  lemma HugeEntryFacts(i: Index)
    ensures Present(HugeEntry(i)) ==> IsHuge(HugeEntry(i))
    ensures i < 64 ==> Present(HugeEntry(i)) && Address(HugeEntry(i)) == (i as bv64) << 21
  {
    ZeroAbsent();
    if i < 64 {
      HugeBits(i);
    }
  }

  lemma BootOwnersLookup(b: Boot)
    requires DistinctFrames(b)
    ensures BootOwned(b, BootOwners(b))
    ensures forall t :: Table(t) in BootOwners(b) ==> IsBootTable(b, t)
  {
  }

  lemma BootEntry(m: Memory, b: Boot, own: Owners, t: Word, i: Index)
    requires DistinctFrames(b) && Built(m, b) && BootOwned(b, own) && IsBootTable(b, t)
    requires PointsToTable(own[Table(t)], Entry(m, t, i))
    ensures OwnedAs(own, Address(Entry(m, t, i)), Child(own[Table(t)], i))
  {
    if t == b.p4 {
      BootRootEntry(m, b, own, i);
    } else if t == b.p3 {
      OnlyChild(m, own, t, 0, b.p2, 0, i);
    } else if t == b.p3High {
      OnlyChild(m, own, t, 511, b.p2High, 510, i);
    } else if t == b.p3Direct {
      OnlyChild(m, own, t, 256, b.p2Direct, 0, i);
    } else {
      HugeEntryFacts(i);
      assert false;
    }
  }

  lemma BootRootEntry(m: Memory, b: Boot, own: Owners, i: Index)
    requires DistinctFrames(b) && Built(m, b) && BootOwned(b, own) && Present(Entry(m, b.p4, i))
    ensures OwnedAs(own, Address(Entry(m, b.p4, i)), P3(i))
  {
    ZeroAbsent();
    TableEntryFacts(b.p3);
    TableEntryFacts(b.p3High);
    TableEntryFacts(b.p3Direct);
  }

  /** A directory-pointer table with one entry, for the page directory d. */
  lemma OnlyChild(m: Memory, own: Owners, t: Word, a: Index, d: Word, k: Index, i: Index)
    requires OwnedAs(own, t, P3(a)) && OwnedAs(own, d, P2(a, k)) && IsFrame(d) && Present(Entry(m, t, i))
    requires forall i: Index :: Entry(m, t, i) == (if i == k then TableEntry(d) else 0)
    ensures OwnedAs(own, Address(Entry(m, t, i)), Child(own[Table(t)], i))
  {
    ZeroAbsent();
    TableEntryFacts(d);
  }

  /** The boot tables satisfy the invariant that vmm_map_page and vmm_unmap_page keep. */
  lemma BootTree(m: Memory, b: Boot)
    requires DistinctFrames(b) && Built(m, b)
    ensures Tree(m, b.p4, BootOwners(b))
  {
    var own := BootOwners(b);
    BootOwnersLookup(b);
    forall t, i: Index {:trigger Entry(m, t, i)} | Table(t) in own && PointsToTable(own[Table(t)], Entry(m, t, i))
      ensures OwnedAs(own, Address(Entry(m, t, i)), Child(own[Table(t)], i))
    {
      BootEntry(m, b, own, t, i);
    }
  }

  lemma DirectIndices(x: Word)
    requires x < 0x800_0000
    ensures ((0xFFFF800000000000 + x) >> 39) & 0x1FF == 256 && ((0xFFFF800000000000 + x) >> 30) & 0x1FF == 0
    ensures ((0xFFFF800000000000 + x) >> 21) & 0x1FF == x >> 21 && x >> 21 < 64
    ensures ((0xFFFF800000000000 + x) >> 12) & 0x1FF == (x >> 12) & 0x1FF
    ensures (0xFFFF800000000000 + x) & 0x1FFFFF == x & 0x1FFFFF
    ensures ((x >> 21) << 21) + (x & 0x1FFFFF) == x
  {
  }

  lemma DirectWalk(m: Memory, b: Boot, i: Index, j: Index)
    requires DistinctFrames(b) && Built(m, b) && i < 64
    ensures Walk(m, b.p4, Indices(256, 0, i, j)) == HugeLeaf(HugeEntry(i))
  {
    TableEntryFacts(b.p3Direct);
    TableEntryFacts(b.p2Direct);
    HugeEntryFacts(i);
  }

  lemma DirectMapIndices(x: Word)
    requires x < 0x800_0000
    ensures x >> 21 < 64
    ensures var v := 0xFFFF800000000000 + x;
            Pml4Index(v) == 256 && PdptIndex(v) == 0 && PdIndex(v) == (x >> 21) as bv9
  {
    DirectIndices(x);
  }

  lemma ResolveHuge(i: Index, x: Word)
    requires x < 0x800_0000 && x >> 21 < 64 && i == (x >> 21) as bv9
    ensures i < 64 && Resolve(HugeLeaf(HugeEntry(i)), 0xFFFF800000000000 + x) == Some(x)
  {
    HugeEntryFacts(i);
    DirectIndices(x);
    assert i as bv64 == x >> 21;
  }

  /** PHYS_TO_VIRT is right: through the boot tables, the direct-map address of every byte of the first 128 MB
      translates to that byte. */
  lemma DirectMap(m: Memory, b: Boot, x: Word)
    requires DistinctFrames(b) && Built(m, b) && x < 0x800_0000
    ensures !NonHugePath(m, b.p4, IndicesOf(0xFFFF800000000000 + x))
    ensures Translate(m, b.p4, 0xFFFF800000000000 + x) == Some(x)
  {
    var v := 0xFFFF800000000000 + x;
    DirectMapIndices(x);
    var i := (x >> 21) as bv9;
    ResolveHuge(i, x);
    DirectWalk(m, b, i, PtIndex(v));
    assert IndicesOf(v) == Indices(256, 0, i, PtIndex(v));
  }

  lemma IdentityIndices(x: Word)
    requires x < 0x800_0000
    ensures ((x >> 39) & 0x1FF) as bv9 == 0 && ((x >> 30) & 0x1FF) as bv9 == 0
    ensures ((x >> 21) & 0x1FF) as bv9 == (x >> 21) as bv9 && x >> 21 < 64 && ((x >> 21) as bv9) < 64
    ensures ((((x >> 21) as bv9) as bv64) << 21) + (x & 0x1FFFFF) == x
  {
  }

  /** Every address below 128 MB is mapped to itself, by a 2 MB page. */
  lemma IdentityMap(m: Memory, b: Boot, x: Word)
    requires DistinctFrames(b) && Built(m, b) && x < 0x800_0000
    ensures !NonHugePath(m, b.p4, IndicesOf(x)) && Translate(m, b.p4, x) == Some(x)
  {
    IdentityIndices(x);
    var i := (x >> 21) as bv9;
    TableEntryFacts(b.p3);
    TableEntryFacts(b.p2);
    HugeEntryFacts(i);
    assert IndicesOf(x) == Indices(0, 0, i, PtIndex(x));
    assert Walk(m, b.p4, IndicesOf(x)) == HugeLeaf(HugeEntry(i));
  }

  /** get_table: where the kernel reads and writes a table. */
  function GetTable(t: Word): Word {
    if t >= 0x40_0000 then 0xFFFF800000000000 + t else t
  }

  /** get_table reaches every frame below 128 MB through the 2 MB pages of boot. */
  lemma TablesReachable(m: Memory, b: Boot, t: Word)
    requires DistinctFrames(b) && Built(m, b) && t < 0x800_0000
    ensures !NonHugePath(m, b.p4, IndicesOf(GetTable(t))) && Translate(m, b.p4, GetTable(t)) == Some(t)
  {
    IdentityMap(m, b, t);
    DirectMap(m, b, t);
  }
}
