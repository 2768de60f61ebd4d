/** mm/vmm.c: mapping and unmapping pages in the four-level tables, with table frames taken from the page allocator. */
module Vmm {
  import opened Machine
  import opened Wrappers
  import opened Errno
  import opened PageTables
  import P = Pmm

  /** A hexadecimal digit as four bits. */
  function Digit(n: nat): bv4
    requires n < 16
  {
    match n
    case 0 => 0 case 1 => 1 case 2 => 2 case 3 => 3 case 4 => 4 case 5 => 5 case 6 => 6 case 7 => 7
    case 8 => 8 case 9 => 9 case 10 => 10 case 11 => 11 case 12 => 12 case 13 => 13 case 14 => 14 case _ => 15
  }

  /** The number four bits stand for. */
  function Num(b: bv4): (n: nat)
    ensures n < 16
  {
    if b == 0 then 0 else if b == 1 then 1 else if b == 2 then 2 else if b == 3 then 3
    else if b == 4 then 4 else if b == 5 then 5 else if b == 6 then 6 else if b == 7 then 7
    else if b == 8 then 8 else if b == 9 then 9 else if b == 10 then 10 else if b == 11 then 11
    else if b == 12 then 12 else if b == 13 then 13 else if b == 14 then 14 else 15
  }

  lemma DigitRoundTrip(n: nat)
    requires n < 16
    ensures Num(Digit(n)) == n
  {
  }

  /** PHYS_FREE_START + page * PAGE_SIZE for the page number with the given hexadecimal digits. */
  function Frame(a: bv4, b: bv4, c: bv4, d: bv4): Word {
    0x40_0000 + ((a as bv64) << 24) + ((b as bv64) << 20) + ((c as bv64) << 16) + ((d as bv64) << 12)
  }

  /** page_to_addr */
  function FrameOf(i: nat): Word
    requires i < P.TOTAL_PAGES
  {
    Frame(Digit(i / 4096), Digit(i / 256 % 16), Digit(i / 16 % 16), Digit(i % 16))
  }

  lemma FrameBits(a: bv4, b: bv4, c: bv4, d: bv4, a': bv4, b': bv4, c': bv4, d': bv4)
    ensures IsFrame(Frame(a, b, c, d))
    ensures Frame(a, b, c, d) == Frame(a', b', c', d') ==> a == a' && b == b' && c == c' && d == d'
  {
  }

  lemma SameDigit(i: nat, j: nat)
    requires i < 16 && j < 16
    ensures Digit(i) == Digit(j) ==> i == j
  {
    DigitRoundTrip(i);
    DigitRoundTrip(j);
  }

  lemma DigitsDetermine(i: nat, j: nat)
    requires i / 4096 == j / 4096 && i / 256 % 16 == j / 256 % 16 && i / 16 % 16 == j / 16 % 16 && i % 16 == j % 16
    ensures i == j
  {
    Digits(i);
    Digits(j);
  }

  lemma Digits(i: nat)
    ensures i == 4096 * (i / 4096) + 256 * (i / 256 % 16) + 16 * (i / 16 % 16) + i % 16
  {
    var a, b := i / 16, i / 256;
    assert a / 16 == b && b / 16 == i / 4096;
    assert i == 16 * a + i % 16 && a == 16 * b + a % 16 && b == 16 * (b / 16) + b % 16;
  }

  /** Distinct page numbers have distinct frames, all page aligned. */
  lemma FrameInjective(i: nat, j: nat)
    requires i < P.TOTAL_PAGES && j < P.TOTAL_PAGES
    ensures IsFrame(FrameOf(i))
    ensures FrameOf(i) == FrameOf(j) ==> i == j
  {
    FrameBits(Digit(i / 4096), Digit(i / 256 % 16), Digit(i / 16 % 16), Digit(i % 16),
              Digit(j / 4096), Digit(j / 256 % 16), Digit(j / 16 % 16), Digit(j % 16));
    SameDigit(i / 4096, j / 4096);
    SameDigit(i / 256 % 16, j / 256 % 16);
    SameDigit(i / 16 % 16, j / 16 % 16);
    SameDigit(i % 16, j % 16);
    if FrameOf(i) == FrameOf(j) {
      DigitsDetermine(i, j);
    }
  }

  /** The number that a word below 2^28 stands for, from its hexadecimal digits. */
  function Value(w: Word): nat
    requires w < 0x1000_0000
  {
    Num((w & 0xF) as bv4) + 0x10 * Num(((w >> 4) & 0xF) as bv4) + 0x100 * Num(((w >> 8) & 0xF) as bv4) +
    0x1000 * Num(((w >> 12) & 0xF) as bv4) + 0x1_0000 * Num(((w >> 16) & 0xF) as bv4) +
    0x10_0000 * Num(((w >> 20) & 0xF) as bv4) + 0x100_0000 * Num(((w >> 24) & 0xF) as bv4)
  }

  lemma FrameDigits(a: bv4, b: bv4, c: bv4, d: bv4)
    requires a < 8
    ensures var w := 0x40_0000 + ((a as bv64) << 24) + ((b as bv64) << 20) + ((c as bv64) << 16) + ((d as bv64) << 12);
            && 0x40_0000 <= w < 0x1000_0000
            && (w & 0xF) as bv4 == 0 && ((w >> 4) & 0xF) as bv4 == 0 && ((w >> 8) & 0xF) as bv4 == 0
            && ((w >> 12) & 0xF) as bv4 == d && ((w >> 16) & 0xF) as bv4 == c
            && ((w >> 20) & 0xF) as bv4 == b + 4
            && ((w >> 24) & 0xF) as bv4 == if b < 12 then a else a + 1
  {
  }

  lemma DigitSums(a: bv4, b: bv4)
    requires a < 8
    ensures Num(b + 4) == if b < 12 then Num(b) + 4 else Num(b) - 12
    ensures Num(a + 1) == Num(a) + 1
  {
  }

  /** The value of a word with the given digits from the fourth on, and zeros before. */
  lemma ValueOfDigits(w: Word, d3: bv4, d4: bv4, d5: bv4, d6: bv4)
    requires w < 0x1000_0000
    requires (w & 0xF) as bv4 == 0 && ((w >> 4) & 0xF) as bv4 == 0 && ((w >> 8) & 0xF) as bv4 == 0
    requires ((w >> 12) & 0xF) as bv4 == d3 && ((w >> 16) & 0xF) as bv4 == d4
    requires ((w >> 20) & 0xF) as bv4 == d5 && ((w >> 24) & 0xF) as bv4 == d6
    ensures Value(w) == 0x1000 * Num(d3) + 0x1_0000 * Num(d4) + 0x10_0000 * Num(d5) + 0x100_0000 * Num(d6)
  {
  }

  lemma FrameWord(a: bv4, b: bv4, c: bv4, d: bv4, w: Word)
    requires a < 8 && w == Frame(a, b, c, d)
    ensures 0x40_0000 <= w < 0x1000_0000
    ensures Value(w) == 0x1000 * Num(d) + 0x1_0000 * Num(c) + 0x10_0000 * Num(b + 4) +
                        0x100_0000 * Num(if b < 12 then a else a + 1)
  {
    FrameDigits(a, b, c, d);
    ValueOfDigits(w, d, c, b + 4, if b < 12 then a else a + 1);
  }

  lemma FrameValue(a: bv4, b: bv4, c: bv4, d: bv4)
    requires a < 8
    ensures 0x40_0000 <= Frame(a, b, c, d) < 0x1000_0000
    ensures Value(Frame(a, b, c, d)) ==
            0x40_0000 + 0x100_0000 * Num(a) + 0x10_0000 * Num(b) + 0x1_0000 * Num(c) + 0x1000 * Num(d)
  {
    FrameWord(a, b, c, d, Frame(a, b, c, d));
    DigitSums(a, b);
  }

  lemma SmallDigit(n: nat)
    requires n < 8
    ensures Digit(n) < 8
  {
  }

  /** FrameOf is page_to_addr. */
  lemma FrameIsPageAddress(i: nat)
    requires i < P.TOTAL_PAGES
    ensures 0x40_0000 <= FrameOf(i) < 0x1000_0000 && Value(FrameOf(i)) == P.PageToAddr(i)
  {
    var a, b, c, d := i / 4096, i / 256 % 16, i / 16 % 16, i % 16;
    Digits(i);
    SmallDigit(a);
    FrameValue(Digit(a), Digit(b), Digit(c), Digit(d));
    DigitRoundTrip(a);
    DigitRoundTrip(b);
    DigitRoundTrip(c);
    DigitRoundTrip(d);
  }

  /** The frame of the lowest free page. */
  predicate IsNext(f: Word, bits: seq<bool>) {
    P.LowestFree(bits) < P.TOTAL_PAGES && f == FrameOf(P.LowestFree(bits))
  }

  class Vmm {
    const root: Word
    const pmm: P.Pmm
    var mem: Memory
    ghost var own: Owners

    /** The tables form a tree, and no table frame is free in the page allocator. */
    ghost predicate Valid()
      reads this, pmm, pmm.bitmap, pmm.bitmap.bytes
    {
      && pmm.Valid()
      && Tree(mem, root, own)
      && forall i :: 0 <= i < P.TOTAL_PAGES && Table(FrameOf(i)) in own ==> pmm.Bits()[i]
    }

    constructor (pml4: Word, tables: Memory, allocator: P.Pmm, ghost owners: Owners)
      requires allocator.Valid() && Tree(tables, pml4, owners)
      requires forall i :: 0 <= i < P.TOTAL_PAGES && Table(FrameOf(i)) in owners ==> allocator.Bits()[i]
      ensures Valid() && root == pml4 && mem == tables && pmm == allocator
    {
      root := pml4;
      pmm := allocator;
      mem := tables;
      own := owners;
    }

    /** pmm_alloc_page for a table: a frame that is no table yet, or nothing when memory is exhausted. */
    method AllocFrame() returns (r: Option<Word>)
      requires Valid()
      modifies pmm, pmm.bitmap`contents, pmm.bitmap.bytes
      ensures Valid()
      ensures r.None? <==> old(pmm.used) == P.TOTAL_PAGES
      ensures r.None? ==> pmm.used == old(pmm.used)
      ensures r.Some? ==> pmm.used == old(pmm.used) + 1 && IsFrame(r.value) && Table(r.value) !in own
      ensures r.Some? ==> exists i :: 0 <= i < P.TOTAL_PAGES && r.value == FrameOf(i) && pmm.Bits()[i]
      ensures r.Some? ==> IsNext(r.value, old(pmm.Bits()))
    {
      var ok, i := TakePage();
      if !ok {
        return None;
      }
      FrameInjective(i, i);
      return Some(FrameOf(i));
    }

    /** pmm_alloc_page, by page number. */
    method TakePage() returns (ok: bool, i: nat)
      requires pmm.Valid()
      modifies pmm, pmm.bitmap`contents, pmm.bitmap.bytes
      ensures pmm.Valid() && (ok <==> old(pmm.used) != P.TOTAL_PAGES)
      ensures !ok ==> pmm.Bits() == old(pmm.Bits()) && pmm.used == old(pmm.used)
      ensures ok ==> i < P.TOTAL_PAGES && !old(pmm.Bits())[i] && pmm.Bits() == old(pmm.Bits())[i := true] &&
                     pmm.used == old(pmm.used) + 1
      ensures ok ==> i == P.LowestFree(old(pmm.Bits()))
    {
      var addr := pmm.AllocPage();
      ok := addr != 0;
      i := if ok then (addr - P.PHYS_FREE_START) / PAGE_SIZE else 0;
    }

    /** One level of vmm_map_page: follows slot i of table t, creating the table below when the slot is absent. */
    method GetOrCreate(t: Word, i: Index) returns (r: Option<Word>)
      requires Valid() && Table(t) in own && !own[Table(t)].P1?
      modifies this`mem, this`own, pmm, pmm.bitmap`contents, pmm.bitmap.bytes
      ensures Valid()
      ensures r.None? <==> !Present(old(Entry(mem, t, i))) && old(pmm.used) == P.TOTAL_PAGES
      ensures r.None? ==> mem == old(mem) && pmm.used == old(pmm.used)
      ensures r.Some? ==> Present(Entry(mem, t, i)) && r.value == Address(Entry(mem, t, i))
      ensures Present(old(Entry(mem, t, i))) ==> mem == old(mem) && own == old(own) && pmm.used == old(pmm.used)
      ensures r.Some? && !Present(old(Entry(mem, t, i))) ==>
                && pmm.used == old(pmm.used) + 1 && IsFrame(r.value) && Table(r.value) !in old(own)
                && Installed(old(mem), mem, t, i, r.value) && IsNext(r.value, old(pmm.Bits()))
      ensures Present(old(Entry(mem, t, i))) ==> pmm.Bits() == old(pmm.Bits())
      ensures forall x :: Walk(mem, root, x) == old(Walk(mem, root, x))
      ensures forall s :: s in old(own) ==> s in own && own[s] == old(own[s])
    {
      var e := Entry(mem, t, i);
      if Present(e) {
        return Some(Address(e));
      }
      r := AllocFrame();
      if r.None? {
        return;
      }
      var f := r.value;
      InstallTable(mem, root, own, t, i, f);
      TableEntryFacts(f);
      NewFrameTaken(f);
      mem := ClearTable(mem, f);
      mem := mem[(t, i) := TableEntry(f)];
      own := own[Table(f) := Child(own[Table(t)], i)];
    }

    lemma NewFrameTaken(f: Word)
      requires Valid()
      requires exists i :: 0 <= i < P.TOTAL_PAGES && f == FrameOf(i) && pmm.Bits()[i]
      ensures forall i :: 0 <= i < P.TOTAL_PAGES && FrameOf(i) == f ==> pmm.Bits()[i]
    {
      forall i, j | 0 <= i < P.TOTAL_PAGES && 0 <= j < P.TOTAL_PAGES && FrameOf(i) == FrameOf(j)
        ensures i == j
      {
        FrameInjective(i, j);
      }
    }

    /** vmm_map_page. Unless the page-directory entry on the way is a 2 MB mapping, which the code does not test, the
        page's translations change as asked and no others do. Otherwise a slot of the mapped frame is overwritten. */
    method MapPage(v: Word, p: Word, flags: Word) returns (err: Kerr)
      requires Valid()
      modifies this`mem, this`own, pmm, pmm.bitmap`contents, pmm.bitmap.bytes
      ensures err == E_OK || err == E_NOMEM || err == E_INVALID
      ensures err == E_INVALID <==> v & OFFSET_MASK != 0 || p & OFFSET_MASK != 0
      ensures err == E_NOMEM <==>
                err != E_INVALID && old(Demand(IndicesOf(v))) > P.TOTAL_PAGES
      ensures err != E_OK ==> Valid() && forall y :: Walk(mem, root, y) == old(Walk(mem, root, y))
      ensures old(NonHugePath(mem, root, IndicesOf(v))) ==> Valid()
      ensures err == E_OK && old(NonHugePath(mem, root, IndicesOf(v))) ==>
                && Mapping(old(mem), mem, root, IndicesOf(v), p | flags)
                && FirstTableNext(IndicesOf(v), old(MissingTables(mem, root, IndicesOf(v))), old(pmm.Bits()))
      ensures err == E_OK && !old(NonHugePath(mem, root, IndicesOf(v))) ==>
                && own == old(own) && pmm.used == old(pmm.used)
                && mem == old(WriteSlot(mem, root, IndicesOf(v), p | flags))
    {
      if v & OFFSET_MASK != 0 || p & OFFSET_MASK != 0 {
        return E_INVALID;
      }
      var x := IndicesOf(v);
      var ok := EnsureTables(x);
      if !ok {
        return E_NOMEM;
      }
      ghost var m1 := mem;
      MapWrite(v, p | flags);
      if NonHugePath(m1, root, x) {
        MappingAfter(old(mem), m1, mem, root, x, p | flags);
      }
      return E_OK;
    }

    /** The slot write of vmm_map_page. */
    method MapWrite(v: Word, e: Word)
      requires Valid() && MissingTables(mem, root, IndicesOf(v)) == 0
      modifies this`mem
      ensures mem == old(WriteSlot(mem, root, IndicesOf(v), e))
      ensures old(NonHugePath(mem, root, IndicesOf(v))) ==>
                && Valid() && Mapping(old(mem), mem, root, IndicesOf(v), e)
                && (forall k :: TableFor(mem, root, IndicesOf(v), k) == old(TableFor(mem, root, IndicesOf(v), k)))
    {
      var x := IndicesOf(v);
      if NonHugePath(mem, root, x) {
        WriteEffect(mem, root, own, x, e);
      }
      mem := mem[(PtAt(mem, root, x), x.l1) := e];
    }

    /** Pages in use once the tables on the way to x exist: each level of vmm_map_page keeps this sum. */
    ghost function Demand(x: Indices): nat
      reads this, pmm
    {
      pmm.used + MissingTables(mem, root, x)
    }

    /** All tables on the way to x exist, and the first of those that were missing got the lowest free frame. */
    ghost predicate FirstTableNext(x: Indices, missing: nat, bits: seq<bool>)
      reads this
    {
      MissingTables(mem, root, x) == 0 && (missing > 0 ==> IsNext(TableFor(mem, root, x, missing), bits))
    }

    /** Where no table was missing, nothing has changed. */
    ghost predicate Kept(x: Indices, missing: nat, mem0: Memory, own0: Owners, used0: nat)
      reads this, pmm
    {
      missing == 0 ==> mem == mem0 && own == own0 && pmm.used == used0
    }

    /** The first "get or create" level of vmm_map_page. */
    method EnsurePdpt(x: Indices) returns (ok: bool)
      requires Valid()
      modifies this`mem, this`own, pmm, pmm.bitmap`contents, pmm.bitmap.bytes
      ensures Valid() && Demand(x) == old(Demand(x))
      ensures Kept(x, old(MissingTables(mem, root, x)), old(mem), old(own), old(pmm.used))
      ensures forall y :: Walk(mem, root, y) == old(Walk(mem, root, y))
      ensures if ok then MissingTables(mem, root, x) <= 2 else MissingTables(mem, root, x) > P.TOTAL_PAGES - pmm.used
      ensures ok ==> Step4(old(mem), mem, root, x)
      ensures ok && old(MissingTables(mem, root, x)) == 3 ==> IsNext(PdptAt(mem, root, x), old(pmm.Bits()))
      ensures old(MissingTables(mem, root, x)) < 3 ==> mem == old(mem) && pmm.Bits() == old(pmm.Bits())
    {
      var r := GetOrCreate(root, x.l4);
      ok := r.Some?;
      if ok && !Present(old(Entry(mem, root, x.l4))) {
        NewPdpt(old(mem), mem, root, x, r.value);
      }
    }

    /** The second level. */
    method EnsurePd(x: Indices) returns (ok: bool)
      requires Valid() && MissingTables(mem, root, x) <= 2
      modifies this`mem, this`own, pmm, pmm.bitmap`contents, pmm.bitmap.bytes
      ensures Valid() && Demand(x) == old(Demand(x))
      ensures Kept(x, old(MissingTables(mem, root, x)), old(mem), old(own), old(pmm.used))
      ensures forall y :: Walk(mem, root, y) == old(Walk(mem, root, y))
      ensures if ok then MissingTables(mem, root, x) <= 1 else MissingTables(mem, root, x) > P.TOTAL_PAGES - pmm.used
      ensures ok ==> Step3(old(mem), mem, root, x)
      ensures ok && old(MissingTables(mem, root, x)) == 2 ==> IsNext(PdAt(mem, root, x), old(pmm.Bits()))
      ensures old(MissingTables(mem, root, x)) < 2 ==> mem == old(mem) && pmm.Bits() == old(pmm.Bits())
    {
      var pdpt := PdptAt(mem, root, x);
      PdptOwned(mem, root, own, x);
      var r := GetOrCreate(pdpt, x.l3);
      ok := r.Some?;
      if ok && !Present(old(Entry(mem, pdpt, x.l3))) {
        NewPd(old(mem), mem, root, x, r.value);
      }
    }

    /** The third level. */
    method EnsurePt(x: Indices) returns (ok: bool)
      requires Valid() && MissingTables(mem, root, x) <= 1
      modifies this`mem, this`own, pmm, pmm.bitmap`contents, pmm.bitmap.bytes
      ensures Valid() && Demand(x) == old(Demand(x))
      ensures Kept(x, old(MissingTables(mem, root, x)), old(mem), old(own), old(pmm.used))
      ensures forall y :: Walk(mem, root, y) == old(Walk(mem, root, y))
      ensures if ok then MissingTables(mem, root, x) == 0 else MissingTables(mem, root, x) > P.TOTAL_PAGES - pmm.used
      ensures ok ==> Step2(old(mem), mem, root, x)
      ensures ok && old(MissingTables(mem, root, x)) == 1 ==> IsNext(PtAt(mem, root, x), old(pmm.Bits()))
    {
      var pd := PdAt(mem, root, x);
      PdptOwned(mem, root, own, x);
      PdOwned(mem, root, own, x);
      var r := GetOrCreate(pd, x.l2);
      ok := r.Some?;
      if ok && !Present(old(Entry(mem, pd, x.l2))) {
        NewPt(old(mem), mem, root, x, r.value);
      }
    }

    /** The three "get or create" levels of vmm_map_page. */
    method EnsureTables(x: Indices) returns (ok: bool)
      requires Valid()
      modifies this`mem, this`own, pmm, pmm.bitmap`contents, pmm.bitmap.bytes
      ensures Valid() && Kept(x, old(MissingTables(mem, root, x)), old(mem), old(own), old(pmm.used))
      ensures ok <==> old(Demand(x)) <= P.TOTAL_PAGES
      ensures ok ==> MissingTables(mem, root, x) == 0
      ensures forall y :: Walk(mem, root, y) == old(Walk(mem, root, y))
      ensures ok ==> UpperKept(old(mem), mem, root, x)
      ensures ok && old(MissingTables(mem, root, x)) > 0 ==>
                IsNext(TableFor(mem, root, x, old(MissingTables(mem, root, x))), old(pmm.Bits()))
    {
      ghost var m0, bits := mem, pmm.Bits();
      ok := EnsurePdpt(x);
      if !ok {
        return;
      }
      ghost var m1 := mem;
      ok := EnsurePd(x);
      if !ok {
        return;
      }
      ghost var m2 := mem;
      ok := EnsurePt(x);
      UsedBound();
      if ok {
        UpperChain(m0, m1, m2, mem, root, x);
      }
    }

    /** vmm_unmap_page. On the way to a 2 MB mapping it takes a word of the mapped frame for the entry. */
    method UnmapPage(v: Word) returns (err: Kerr)
      requires Valid()
      modifies this`mem
      ensures err == E_OK || err == E_NOTFOUND || err == E_INVALID
      ensures err == E_INVALID <==> v & OFFSET_MASK != 0
      ensures err == E_NOTFOUND <==> err != E_INVALID && !old(SlotPresent(mem, root, IndicesOf(v)))
      ensures err != E_OK ==> mem == old(mem)
      ensures err == E_OK ==> mem == old(WriteSlot(mem, root, IndicesOf(v), 0))
      ensures old(NonHugePath(mem, root, IndicesOf(v))) ==> Valid()
      ensures old(NonHugePath(mem, root, IndicesOf(v))) && err != E_INVALID ==>
                (err == E_NOTFOUND <==> old(Translate(mem, root, v)).None?)
      ensures old(NonHugePath(mem, root, IndicesOf(v))) && err == E_OK ==>
                Mapping(old(mem), mem, root, IndicesOf(v), 0)
    {
      if v & OFFSET_MASK != 0 {
        return E_INVALID;
      }
      var x := IndicesOf(v);
      SlotTranslates(mem, root, v);
      if !Present(Entry(mem, root, x.l4)) {
        return E_NOTFOUND;
      }
      var pdpt := Address(Entry(mem, root, x.l4));
      if !Present(Entry(mem, pdpt, x.l3)) {
        return E_NOTFOUND;
      }
      var pd := Address(Entry(mem, pdpt, x.l3));
      if !Present(Entry(mem, pd, x.l2)) {
        return E_NOTFOUND;
      }
      var pt := Address(Entry(mem, pd, x.l2));
      if !Present(Entry(mem, pt, x.l1)) {
        return E_NOTFOUND;
      }
      ZeroAbsent();
      MapWrite(v, 0);
      return E_OK;
    }

    /** Mapping a page that was not mapped and unmapping it again restores every translation. */
    method MapThenUnmap(v: Word, p: Word, flags: Word) returns (err: Kerr)
      requires Valid() && Translate(mem, root, v).None?
      requires v & OFFSET_MASK == 0 && p & OFFSET_MASK == 0 && flags & 0x1 != 0
      modifies this`mem, this`own, pmm, pmm.bitmap`contents, pmm.bitmap.bytes
      ensures Valid()
      ensures err == E_OK || err == E_NOMEM
      ensures forall w :: Translate(mem, root, w) == old(Translate(mem, root, w))
    {
      TranslateNone(mem, root, v);
      err := MapPage(v, p, flags);
      if err == E_OK {
        ghost var m1 := mem;
        MappingTranslates(old(mem), m1, root, v, p | flags);
        PageUnmapped(old(mem), root, v);
        OffsetLiteral(p);
        MappedToFrame(p, flags, v);
        err := UnmapPage(v);
        ZeroAbsent();
        MappingTranslates(m1, mem, root, v, 0);
      }
    }

    lemma UsedBound()
      requires Valid()
      ensures pmm.used <= P.TOTAL_PAGES
    {
    }
  }

  /** m is m0 with page x mapped by the entry e: the entry is in place, flags included, every walk but that to x ends as
      before, and of the upper entries those that were missing are now present and writable. */
  ghost predicate Mapping(m0: Memory, m: Memory, root: Word, x: Indices, e: Word) {
    && MissingTables(m, root, x) == 0 && Entry(m, PtAt(m, root, x), x.l1) == e && UpperKept(m0, m, root, x)
    && forall y :: Walk(m, root, y) == if y == x then LeafOf(e) else Walk(m0, root, y)
  }

  /** What that means for addresses: those of the page translate by the new entry, and all others as before. */
  lemma MappingTranslates(m0: Memory, m: Memory, root: Word, v: Word, e: Word)
    requires Mapping(m0, m, root, IndicesOf(v), e) && NonHugePath(m0, root, IndicesOf(v))
    ensures forall w :: Translate(m, root, w) == if SamePage(v, w) then Mapped(e, w) else Translate(m0, root, w)
    ensures forall y :: NonHugePath(m, root, y) == NonHugePath(m0, root, y)
  {
    LeafTranslations(m0, m0, m, root, v, e);
    LeafNotHuge(m0, m, root, IndicesOf(v));
  }

  lemma MappingAfter(m0: Memory, m1: Memory, m: Memory, root: Word, x: Indices, e: Word)
    requires UpperKept(m0, m1, root, x) && MissingTables(m1, root, x) == 0 && Mapping(m1, m, root, x, e)
    requires forall y :: Walk(m1, root, y) == Walk(m0, root, y)
    ensures Mapping(m0, m, root, x, e)
  {
  }

  /** What the slot write does off 2 MB pages. */
  lemma WriteEffect(m: Memory, root: Word, own: Owners, x: Indices, e: Word)
    requires Tree(m, root, own) && MissingTables(m, root, x) == 0 && NonHugePath(m, root, x)
    ensures var m' := WriteSlot(m, root, x, e);
            && Tree(m', root, own) && Mapping(m, m', root, x, e)
            && (forall k :: TableFor(m', root, x, k) == TableFor(m, root, x, k))
  {
    TablesStay(m, root, own, x, e);
    WriteLeaf(m, root, own, e, x);
  }

  /** The effect of each of the three levels on the upper entries. */
  predicate Step4(m0: Memory, m: Memory, root: Word, x: Indices) {
    && MissingTables(m, root, x) <= 2
    && if MissingTables(m0, root, x) < 3 then m ==
        m0 else MissingTables(m, root, x) == 2 && Flags(Upper4(m, root, x)) == 0x3
  }

  predicate Step3(m0: Memory, m: Memory, root: Word, x: Indices) {
    && Upper4(m, root, x) == Upper4(m0, root, x)
    && if MissingTables(m0, root, x) < 2 then m ==
        m0 else MissingTables(m, root, x) == 1 && Flags(Upper3(m, root, x)) == 0x3
  }

  predicate Step2(m0: Memory, m: Memory, root: Word, x: Indices) {
    && Upper4(m, root, x) == Upper4(m0, root, x) && Upper3(m, root, x) == Upper3(m0, root, x)
    && if MissingTables(m0, root, x) < 1 then m == m0 else Flags(Upper2(m, root, x)) == 0x3
  }

  lemma UpperChain(m0: Memory, m1: Memory, m2: Memory, m3: Memory, root: Word, x: Indices)
    requires Step4(m0, m1, root, x) && Step3(m1, m2, root, x) && Step2(m2, m3, root, x)
    ensures UpperKept(m0, m3, root, x)
  {
  }

  lemma LeafNotHuge(m: Memory, m': Memory, root: Word, x: Indices)
    requires NonHugePath(m, root, x) && NonHugePath(m', root, x)
    requires forall y :: y != x ==> Walk(m', root, y) == Walk(m, root, y)
    ensures forall y :: NonHugePath(m', root, y) == NonHugePath(m, root, y)
  {
  }

  /** All three upper levels are present, and so is the word that vmm_unmap_page takes for the entry. */
  predicate SlotPresent(m: Memory, root: Word, x: Indices) {
    MissingTables(m, root, x) == 0 && Present(Entry(m, PtAt(m, root, x), x.l1))
  }

  lemma SlotTranslates(m: Memory, root: Word, v: Word)
    ensures NonHugePath(m, root, IndicesOf(v)) ==> (SlotPresent(m, root, IndicesOf(v)) <==> Translate(m, root, v).Some?)
  {
    TranslateNone(m, root, v);
  }

  lemma TranslateNone(m: Memory, root: Word, v: Word)
    ensures Translate(m, root, v).None? <==> Walk(m, root, IndicesOf(v)).NoLeaf?
  {
  }

  lemma OffsetLiteral(p: Word)
    ensures p & OFFSET_MASK == p & 0xFFF
  {
  }

  lemma SamePageSelf(v: Word)
    ensures SamePage(v, v)
  {
  }

  /** When one address of a page is not mapped, none is. */
  lemma PageUnmapped(m: Memory, root: Word, v: Word)
    requires Translate(m, root, v).None?
    ensures forall w :: SamePage(v, w) ==> Translate(m, root, w).None?
    ensures SamePage(v, v)
  {
    TranslateNone(m, root, v);
    SamePageSelf(v);
    forall w | SamePage(v, w)
      ensures Translate(m, root, w).None?
    {
      SamePageIffIndices(v, w);
      TranslateNone(m, root, w);
    }
  }

  lemma PdptOwned(m: Memory, root: Word, own: Owners, x: Indices)
    requires Tree(m, root, own) && MissingTables(m, root, x) <= 2
    ensures OwnedAs(own, PdptAt(m, root, x), P3(x.l4)) && Present(Entry(m, root, x.l4))
  {
  }

  lemma PdOwned(m: Memory, root: Word, own: Owners, x: Indices)
    requires Tree(m, root, own) && MissingTables(m, root, x) <= 1
    ensures OwnedAs(own, PdAt(m, root, x), P2(x.l4, x.l3)) && Present(Entry(m, PdptAt(m, root, x), x.l3))
  {
    PdptOwned(m, root, own, x);
  }

  lemma NewPdpt(m: Memory, m': Memory, root: Word, x: Indices, f: Word)
    requires !Present(Entry(m, root, x.l4)) && f != root && IsFrame(f) && Installed(m, m', root, x.l4, f)
    ensures MissingTables(m, root, x) == 3 && MissingTables(m', root, x) == 2 && PdptAt(m', root, x) == f
    ensures Flags(Upper4(m', root, x)) == 0x3
  {
    TableEntryFacts(f);
    ZeroAbsent();
  }

  lemma NewPd(m: Memory, m': Memory, root: Word, x: Indices, f: Word)
    requires Present(Entry(m, root, x.l4)) && !Present(Entry(m, PdptAt(m, root, x), x.l3))
    requires f != root && f != PdptAt(m, root, x) && root != PdptAt(m, root, x) && IsFrame(f)
    requires Installed(m, m', PdptAt(m, root, x), x.l3, f)
    ensures MissingTables(m, root, x) == 2 && MissingTables(m', root, x) == 1 && PdAt(m', root, x) == f
    ensures Upper4(m', root, x) == Upper4(m, root, x) && Flags(Upper3(m', root, x)) == 0x3
  {
    TableEntryFacts(f);
    ZeroAbsent();
  }

  lemma NewPt(m: Memory, m': Memory, root: Word, x: Indices, f: Word)
    requires Present(Entry(m, root, x.l4)) && Present(Entry(m, PdptAt(m, root, x), x.l3))
    requires !Present(Entry(m, PdAt(m, root, x), x.l2))
    requires f != root && f != PdptAt(m, root, x) && f != PdAt(m, root, x) && IsFrame(f)
    requires root != PdAt(m, root, x) && PdptAt(m, root, x) != PdAt(m, root, x)
    requires Installed(m, m', PdAt(m, root, x), x.l2, f)
    ensures MissingTables(m, root, x) == 1 && MissingTables(m', root, x) == 0 && PtAt(m', root, x) == f
    ensures Upper4(m', root, x) == Upper4(m, root, x) && Upper3(m', root, x) == Upper3(m, root, x)
    ensures Flags(Upper2(m', root, x)) == 0x3
  {
    TableEntryFacts(f);
  }

  /** The translation that a leaf entry e gives to an address w of its page. */
  function Mapped(e: Word, w: Word): Option<Word> {
    if Present(e) then Some(Address(e) + (w & OFFSET_MASK)) else None
  }

  lemma MappedBits(p: Word, flags: Word)
    ensures p & 0xFFF == 0 ==> ((p | flags) & 0x1 != 0 <==> flags & 0x1 != 0)
    ensures p & 0xFFF == 0 ==>
             ((p | flags) & 0x000FFFFFFFFFF000 == p <==> (p | flags) & 0xFFFFFFFFFFFFF000 & 0x000FFFFFFFFFF000 == p)
    ensures p & 0x000FFFFFFFFFF000 == p && flags & 0x000FFFFFFFFFF000 == 0 ==> (p | flags) & 0x000FFFFFFFFFF000 == p
  {
  }

  /** What vmm_map_page promises: with PRESENT set, a frame address below 2^52 and flags outside the address field,
      every address of the page translates to p plus its offset. */
  lemma MappedToFrame(p: Word, flags: Word, w: Word)
    requires p & 0xFFF == 0
    ensures IsFrame(p) && flags & 0x1 != 0 && flags & 0x000FFFFFFFFFF000 == 0 ==>
              Mapped(p | flags, w) == Some(p + (w & OFFSET_MASK))
    ensures Mapped(p | flags, w).None? <==> flags & 0x1 == 0
  {
    MappedBits(p, flags);
  }

  lemma LeafResolve(l0: Leaf, l2: Leaf, same: bool, e: Word, w: Word)
    requires l2 == if same then (if Present(e) then PageLeaf(e) else NoLeaf) else l0
    ensures Resolve(l2, w) == if same then Mapped(e, w) else Resolve(l0, w)
  {
  }

  /** From walks to translations, for a write that changes one leaf. */
  lemma LeafTranslation(m0: Memory, m2: Memory, root: Word, v: Word, e: Word, w: Word)
    requires Walk(m2, root, IndicesOf(v)) == (if Present(e) then PageLeaf(e) else NoLeaf)
    requires IndicesOf(w) != IndicesOf(v) ==> Walk(m2, root, IndicesOf(w)) == Walk(m0, root, IndicesOf(w))
    ensures Translate(m2, root, w) == if IndicesOf(w) == IndicesOf(v) then Mapped(e, w) else Translate(m0, root, w)
  {
    var x, y := IndicesOf(v), IndicesOf(w);
    LeafResolve(Walk(m0, root, y), Walk(m2, root, y), x == y, e, w);
  }

  lemma LeafTranslations(m0: Memory, m1: Memory, m2: Memory, root: Word, v: Word, e: Word)
    requires forall y :: Walk(m1, root, y) == Walk(m0, root, y)
    requires Walk(m2, root, IndicesOf(v)) == (if Present(e) then PageLeaf(e) else NoLeaf)
    requires forall y :: y != IndicesOf(v) ==> Walk(m2, root, y) == Walk(m1, root, y)
    ensures forall w :: Translate(m2, root, w) == (if SamePage(v, w) then Mapped(e, w) else Translate(m0, root, w))
  {
    forall w
      ensures Translate(m2, root, w) == (if SamePage(v, w) then Mapped(e, w) else Translate(m0, root, w))
    {
      SamePageIffIndices(v, w);
      LeafTranslation(m0, m2, root, v, e, w);
    }
  }
}
