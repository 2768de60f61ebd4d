/** The four-level page tables of mm/vmm.c as words of physical memory, and the walk that vmm_get_physical performs.
    Layout constants follow mm/memory_layout.h; the format is 4-level paging, section 4.5 of the Intel SDM Volume 3A. */
module PageTables {
  import opened Machine
  import opened Wrappers

  type Word = bv64
  type Index = bv9

  const PRESENT: Word := 0x1
  const WRITE: Word := 0x2
  const HUGE: Word := 0x80
  const ADDRESS_MASK: Word := 0x000FFFFFFFFFF000
  const OFFSET_MASK: Word := 0xFFF

  /** Entry i of the table at physical address t; words never written read as zero. */
  type Memory = map<(Word, Index), Word>

  function Entry(m: Memory, t: Word, i: Index): Word {
    if (t, i) in m then m[(t, i)] else 0
  }

  /** PAGE_PRESENT */
  predicate Present(e: Word) {
    e & PRESENT != 0
  }

  /** PAGE_HUGE */
  predicate IsHuge(e: Word) {
    e & HUGE != 0
  }

  /** pte_get_address */
  function Address(e: Word): Word {
    e & ADDRESS_MASK
  }

  /** The flags in the low twelve bits. */
  function Flags(e: Word): Word {
    e & OFFSET_MASK
  }

  function Pml4Index(v: Word): Index { ((v >> 39) & 0x1FF) as bv9 }
  function PdptIndex(v: Word): Index { ((v >> 30) & 0x1FF) as bv9 }
  function PdIndex(v: Word): Index { ((v >> 21) & 0x1FF) as bv9 }
  function PtIndex(v: Word): Index { ((v >> 12) & 0x1FF) as bv9 }

  /** The table indices of an address: page-map level 4, directory pointer, directory, table. */
  datatype Indices = Indices(l4: Index, l3: Index, l2: Index, l1: Index)

  function IndicesOf(v: Word): Indices {
    Indices(Pml4Index(v), PdptIndex(v), PdIndex(v), PtIndex(v))
  }

  /** Two addresses of one 4 KB page, selected by 36 bits; bits 48 to 63 take no part in the walk. */
  predicate SamePage(v: Word, w: Word) {
    v & 0x0000FFFFFFFFF000 == w & 0x0000FFFFFFFFF000
  }

  lemma IndexBits(v: Word, w: Word)
    ensures v & 0x0000FFFFFFFFF000 == w & 0x0000FFFFFFFFF000 <==>
            && ((v >> 39) & 0x1FF) as bv9 == ((w >> 39) & 0x1FF) as bv9
            && ((v >> 30) & 0x1FF) as bv9 == ((w >> 30) & 0x1FF) as bv9
            && ((v >> 21) & 0x1FF) as bv9 == ((w >> 21) & 0x1FF) as bv9
            && ((v >> 12) & 0x1FF) as bv9 == ((w >> 12) & 0x1FF) as bv9
  {
  }

  lemma IndexFields(v: Word, w: Word)
    ensures v & 0x0000FFFFFFFFF000 == w & 0x0000FFFFFFFFF000 <==>
            && Pml4Index(v) == Pml4Index(w) && PdptIndex(v) == PdptIndex(w)
            && PdIndex(v) == PdIndex(w) && PtIndex(v) == PtIndex(w)
  {
    IndexBits(v, w);
  }

  lemma IndicesFields(v: Word, w: Word)
    ensures IndicesOf(v) == IndicesOf(w) <==>
            && Pml4Index(v) == Pml4Index(w) && PdptIndex(v) == PdptIndex(w)
            && PdIndex(v) == PdIndex(w) && PtIndex(v) == PtIndex(w)
  {
  }

  /** The four indices identify exactly the 4 KB page. */
  lemma SamePageIffIndices(v: Word, w: Word)
    ensures SamePage(v, w) <==> IndicesOf(v) == IndicesOf(w)
  {
    IndexFields(v, w);
    IndicesFields(v, w);
  }

  // ---------------------------------------------------------------- the walk

  /** The entry that ends the walk, with its page kind. */
  datatype Leaf = NoLeaf | HugeLeaf(e: Word) | PageLeaf(e: Word)

  function Walk(m: Memory, root: Word, x: Indices): Leaf {
    var e4 := Entry(m, root, x.l4);
    if !Present(e4) then NoLeaf else
    var e3 := Entry(m, Address(e4), x.l3);
    if !Present(e3) then NoLeaf else
    var e2 := Entry(m, Address(e3), x.l2);
    if !Present(e2) then NoLeaf else
    if IsHuge(e2) then HugeLeaf(e2) else
    var e1 := Entry(m, Address(e2), x.l1);
    if !Present(e1) then NoLeaf else PageLeaf(e1)
  }

  /** The walk that ends in the entry e of a lowest-level table. */
  function LeafOf(e: Word): Leaf {
    if Present(e) then PageLeaf(e) else NoLeaf
  }

  /** The address that a walk result gives to v. */
  function Resolve(leaf: Leaf, v: Word): Option<Word> {
    match leaf
    case NoLeaf => None
    case HugeLeaf(e) => Some(Address(e) + (v & 0x1FFFFF))
    case PageLeaf(e) => Some(Address(e) + (v & OFFSET_MASK))
  }

  /** The translation of v, or None where a level is not present. */
  function Translate(m: Memory, root: Word, v: Word): Option<Word> {
    Resolve(Walk(m, root, IndicesOf(v)), v)
  }

  /** What vmm_get_physical returns for a translation: 0 stands for "not mapped". */
  function Physical(t: Option<Word>): Word {
    match t
    case None => 0
    case Some(p) => p
  }

  /** vmm_get_physical */
  function GetPhysical(m: Memory, root: Word, v: Word): Word {
    Physical(Translate(m, root, v))
  }

  /** The page-directory entry on the way to x is not a 2 MB mapping. */
  predicate NonHugePath(m: Memory, root: Word, x: Indices) {
    !Walk(m, root, x).HugeLeaf?
  }

  /** How many tables a mapping at x still needs. */
  function MissingTables(m: Memory, root: Word, x: Indices): nat {
    var e4 := Entry(m, root, x.l4);
    if !Present(e4) then 3 else
    var e3 := Entry(m, Address(e4), x.l3);
    if !Present(e3) then 2 else
    if !Present(Entry(m, Address(e3), x.l2)) then 1 else 0
  }

  // ---------------------------------------------------------------- the tree invariant

  /** A path of indices from the root to a table. */
  datatype Path = P4 | P3(a: Index) | P2(a: Index, b: Index) | P1(a: Index, b: Index, c: Index)

  function Child(p: Path, i: Index): Path {
    match p
    case P4 => P3(i)
    case P3(a) => P2(a, i)
    case P2(a, b) => P1(a, b, i)
    case P1(_, _, _) => p
  }

  /** A table, named by the physical address of its frame. */
  datatype Table = Table(addr: Word)

  type Owners = map<Table, Path>

  /** An entry of a table on path p that points to a table below. */
  predicate PointsToTable(p: Path, e: Word) {
    Present(e) && !p.P1? && !(p.P2? && IsHuge(e))
  }

  predicate OwnedAs(own: Owners, t: Word, p: Path) {
    Table(t) in own && own[Table(t)] == p
  }

  /** Every table frame lies on exactly one path from the root. */
  ghost predicate Tree(m: Memory, root: Word, own: Owners) {
    && Table(root) in own && own[Table(root)] == P4
    && forall t, i: Index {:trigger Entry(m, t, i)} ::
         Table(t) in own && PointsToTable(own[Table(t)], Entry(m, t, i)) ==>
           OwnedAs(own, Address(Entry(m, t, i)), Child(own[Table(t)], i))
  }

  /** The walk to x reads entry i of the table on path p. */
  predicate Reads(p: Path, i: Index, x: Indices) {
    match p
    case P4 => i == x.l4
    case P3(a) => a == x.l4 && i == x.l3
    case P2(a, b) => a == x.l4 && b == x.l3 && i == x.l2
    case P1(a, b, c) => a == x.l4 && b == x.l3 && c == x.l2 && i == x.l1
  }

  /** m' is m with entry i of table t set to e. */
  ghost predicate Wrote(m: Memory, m': Memory, t: Word, i: Index, e: Word) {
    forall s, j: Index {:trigger Entry(m', s, j)} :: Entry(m', s, j) == if s == t && j == i then e else Entry(m, s, j)
  }

  /** The tables that a walk visits lie on the paths that its indices spell. */
  lemma WalkOwned(m: Memory, root: Word, own: Owners, x: Indices)
    requires Tree(m, root, own)
    ensures var e4 := Entry(m, root, x.l4);
            Present(e4) ==>
              && OwnedAs(own, Address(e4), P3(x.l4))
              && var e3 := Entry(m, Address(e4), x.l3);
                 Present(e3) ==>
                   && OwnedAs(own, Address(e3), P2(x.l4, x.l3))
                   && var e2 := Entry(m, Address(e3), x.l2);
                      Present(e2) && !IsHuge(e2) ==> OwnedAs(own, Address(e2), P1(x.l4, x.l3, x.l2))
  {
  }

  /** Changing one entry leaves every walk that does not read that entry. */
  lemma WriteLocal(m: Memory, m': Memory, root: Word, own: Owners, t: Word, i: Index, e: Word, x: Indices)
    requires Tree(m, root, own) && Table(t) in own && !Reads(own[Table(t)], i, x) && Wrote(m, m', t, i, e)
    ensures Walk(m', root, x) == Walk(m, root, x)
  {
    WalkOwned(m, root, own, x);
  }

  // ---------------------------------------------------------------- installing tables and leaves

  /** A physical frame address: page aligned and below 2^52. */
  predicate IsFrame(f: Word) {
    f & 0x000FFFFFFFFFF000 == f
  }

  /** The entry vmm_map_page writes for a new table. */
  function TableEntry(f: Word): Word {
    f | PRESENT | WRITE
  }

  lemma TableEntryBits(f: Word)
    requires f & 0x000FFFFFFFFFF000 == f
    ensures (f | 0x1 | 0x2) & 0x1 != 0 && (f | 0x1 | 0x2) & 0x80 == 0 && (f | 0x1 | 0x2) & 0x000FFFFFFFFFF000 == f
    ensures (f | 0x1 | 0x2) & 0xFFF == 0x3
  {
  }

  lemma TableEntryFacts(f: Word)
    requires IsFrame(f)
    ensures Present(TableEntry(f)) && !IsHuge(TableEntry(f)) && Address(TableEntry(f)) == f
    ensures Flags(TableEntry(f)) == 0x3
  {
    TableEntryBits(f);
  }

  /** memset(table, 0, PAGE_SIZE) */
  function ClearTable(m: Memory, f: Word): (r: Memory)
    ensures forall t, i: Index :: Entry(r, t, i) == if t == f then 0 else Entry(m, t, i)
  {
    map k | k in m && k.0 != f :: m[k]
  }

  /** m' is m with the zeroed frame f linked from slot (t, i). */
  ghost predicate Installed(m: Memory, m': Memory, t: Word, i: Index, f: Word) {
    forall s, j: Index {:trigger Entry(m', s, j)} ::
      Entry(m', s, j) == if s == t && j == i then TableEntry(f) else if s == f then 0 else Entry(m, s, j)
  }

  lemma InstallTree(m: Memory, m': Memory, root: Word, own: Owners, t: Word, i: Index, f: Word)
    requires Tree(m, root, own) && Table(t) in own && !own[Table(t)].P1? && Table(f) !in own && IsFrame(f)
    requires Installed(m, m', t, i, f)
    ensures Tree(m', root, own[Table(f) := Child(own[Table(t)], i)])
  {
    TableEntryFacts(f);
    ZeroAbsent();
  }

  lemma InstallWalk(m: Memory, m': Memory, root: Word, own: Owners, t: Word, i: Index, f: Word, x: Indices)
    requires Tree(m, root, own) && Table(t) in own && !own[Table(t)].P1? && Table(f) !in own && IsFrame(f)
    requires !Present(Entry(m, t, i))
    requires Installed(m, m', t, i, f)
    ensures Walk(m', root, x) == Walk(m, root, x)
  {
    TableEntryFacts(f);
    ZeroAbsent();
    WalkOwned(m, root, own, x);
  }

  /** Installing a zeroed fresh frame in an absent slot keeps the tree and changes no walk at all. */
  lemma InstallTable(m: Memory, root: Word, own: Owners, t: Word, i: Index, f: Word)
    requires Tree(m, root, own) && Table(t) in own && !own[Table(t)].P1? && !Present(Entry(m, t, i))
    requires Table(f) !in own && IsFrame(f)
    ensures var m' := ClearTable(m, f)[(t, i) := TableEntry(f)];
            && Tree(m', root, own[Table(f) := Child(own[Table(t)], i)])
            && Installed(m, m', t, i, f)
            && forall x :: Walk(m', root, x) == Walk(m, root, x)
  {
    var m' := ClearTable(m, f)[(t, i) := TableEntry(f)];
    assert Installed(m, m', t, i, f);
    InstallTree(m, m', root, own, t, i, f);
    forall x
      ensures Walk(m', root, x) == Walk(m, root, x)
    {
      InstallWalk(m, m', root, own, t, i, f, x);
    }
  }

  lemma ZeroAbsent()
    ensures !Present(0)
  {
  }

  /** The table of the given level on the way to x. */
  function PdptAt(m: Memory, root: Word, x: Indices): Word { Address(Entry(m, root, x.l4)) }
  function PdAt(m: Memory, root: Word, x: Indices): Word { Address(Entry(m, PdptAt(m, root, x), x.l3)) }
  function PtAt(m: Memory, root: Word, x: Indices): Word { Address(Entry(m, PdAt(m, root, x), x.l2)) }

  /** The three upper entries on the way to x. */
  function Upper4(m: Memory, root: Word, x: Indices): Word { Entry(m, root, x.l4) }
  function Upper3(m: Memory, root: Word, x: Indices): Word { Entry(m, PdptAt(m, root, x), x.l3) }
  function Upper2(m: Memory, root: Word, x: Indices): Word { Entry(m, PdAt(m, root, x), x.l2) }

  /** The upper entries that were there are as they were, and those that were missing are present and writable, with no
      other flag. */
  predicate UpperKept(m0: Memory, m: Memory, root: Word, x: Indices) {
    var missing := MissingTables(m0, root, x);
    && (if missing < 3 then Upper4(m, root, x) == Upper4(m0, root, x) else Flags(Upper4(m, root, x)) == 0x3)
    && (if missing < 2 then Upper3(m, root, x) == Upper3(m0, root, x) else Flags(Upper3(m, root, x)) == 0x3)
    && (if missing < 1 then Upper2(m, root, x) == Upper2(m0, root, x) else Flags(Upper2(m, root, x)) == 0x3)
  }

  /** The first table that was missing on the way to x, when `missing` were, and the slot of it that the walk reads. */
  function TableFor(m: Memory, root: Word, x: Indices, missing: nat): Word {
    if missing == 3 then PdptAt(m, root, x) else if missing == 2 then PdAt(m, root, x) else PtAt(m, root, x)
  }

  function SlotFor(x: Indices, missing: nat): Index {
    if missing == 3 then x.l3 else if missing == 2 then x.l2 else x.l1
  }

  /** Clearing the slot that a walk reads in one of its tables ends the walk there. */
  lemma CutWalk(m: Memory, m': Memory, root: Word, own: Owners, x: Indices, missing: nat, e: Word)
    requires Tree(m, root, own) && MissingTables(m, root, x) == 0 && NonHugePath(m, root, x) && !Present(e)
    requires 1 <= missing <= 3 && Wrote(m, m', TableFor(m, root, x, missing), SlotFor(x, missing), e)
    ensures Walk(m', root, x) == NoLeaf
  {
    WalkOwned(m, root, own, x);
  }

  /** Writing the leaf leaves the tables on the way to it where they are. */
  lemma TablesStay(m: Memory, root: Word, own: Owners, x: Indices, e: Word)
    requires Tree(m, root, own) && MissingTables(m, root, x) == 0 && NonHugePath(m, root, x)
    ensures var m' := m[(PtAt(m, root, x), x.l1) := e];
            && MissingTables(m', root, x) == 0 && PdptAt(m', root, x) == PdptAt(m, root, x)
            && PdAt(m', root, x) == PdAt(m, root, x) && PtAt(m', root, x) == PtAt(m, root, x)
            && Upper4(m', root, x) == Upper4(m, root, x) && Upper3(m', root, x) == Upper3(m, root, x)
            && Upper2(m', root, x) == Upper2(m, root, x) && Entry(m', PtAt(m', root, x), x.l1) == e
  {
    WalkOwned(m, root, own, x);
    assert Wrote(m, m[(PtAt(m, root, x), x.l1) := e], PtAt(m, root, x), x.l1, e);
  }

  lemma PtOwned(m: Memory, root: Word, own: Owners, x: Indices)
    requires Tree(m, root, own) && MissingTables(m, root, x) == 0 && NonHugePath(m, root, x)
    ensures OwnedAs(own, PtAt(m, root, x), P1(x.l4, x.l3, x.l2))
  {
  }

  /** Writing the slot of a lowest-level table changes exactly the walk to that slot. */
  lemma WriteLeaf(m: Memory, root: Word, own: Owners, e: Word, x: Indices)
    requires Tree(m, root, own) && MissingTables(m, root, x) == 0 && NonHugePath(m, root, x)
    ensures var m' := m[(PtAt(m, root, x), x.l1) := e];
            && Tree(m', root, own)
            && Walk(m', root, x) == (if Present(e) then PageLeaf(e) else NoLeaf)
            && forall y :: y != x ==> Walk(m', root, y) == Walk(m, root, y)
  {
    PtOwned(m, root, own, x);
    var t := PtAt(m, root, x);
    var m' := m[(t, x.l1) := e];
    assert Wrote(m, m', t, x.l1, e);
    WroteTree(m, m', root, own, t, x.l1, e);
    WroteWalk(m, m', root, own, e, x);
    forall y | y != x
      ensures Walk(m', root, y) == Walk(m, root, y)
    {
      WriteLocal(m, m', root, own, t, x.l1, e, y);
    }
  }

  lemma WroteTree(m: Memory, m': Memory, root: Word, own: Owners, t: Word, i: Index, e: Word)
    requires Tree(m, root, own) && Table(t) in own && own[Table(t)].P1? && Wrote(m, m', t, i, e)
    ensures Tree(m', root, own)
  {
  }

  lemma WroteWalk(m: Memory, m': Memory, root: Word, own: Owners, e: Word, x: Indices)
    requires Tree(m, root, own) && MissingTables(m, root, x) == 0 && NonHugePath(m, root, x)
    requires Wrote(m, m', PtAt(m, root, x), x.l1, e)
    ensures Walk(m', root, x) == if Present(e) then PageLeaf(e) else NoLeaf
  {
    PtOwned(m, root, own, x);
    assert OwnedAs(own, PdptAt(m, root, x), P3(x.l4));
    assert OwnedAs(own, PdAt(m, root, x), P2(x.l4, x.l3));
  }

  /** The slot write that ends vmm_map_page. */
  function WriteSlot(m: Memory, root: Word, x: Indices, e: Word): Memory {
    m[(PtAt(m, root, x), x.l1) := e]
  }

  /** vmm_map_page does not test PAGE_HUGE: with all levels present, writing the slot makes the walk to x end in the new
      entry and leaves every other walk alone exactly when the page-directory entry is not a 2 MB mapping. */
  lemma MapIffNonHuge(m: Memory, root: Word, own: Owners, e: Word, x: Indices)
    requires Tree(m, root, own) && MissingTables(m, root, x) == 0 && Present(e)
    ensures var m' := WriteSlot(m, root, x, e);
            (Walk(m', root, x) == PageLeaf(e) && forall y :: y != x ==> Walk(m', root, y) == Walk(m, root, y)) <==>
            NonHugePath(m, root, x)
  {
    if NonHugePath(m, root, x) {
      WriteLeaf(m, root, own, e, x);
    } else {
      var y := x.(l1 := if x.l1 == 0 then 1 else 0);
      SameDirectory(m, root, x, y);
      SameDirectory(WriteSlot(m, root, x, e), root, x, y);
    }
  }

  /** Pages that share their page-directory entry are in a 2 MB mapping together. */
  lemma SameDirectory(m: Memory, root: Word, x: Indices, y: Indices)
    requires x.l4 == y.l4 && x.l3 == y.l3 && x.l2 == y.l2
    ensures Walk(m, root, x).HugeLeaf? <==> Walk(m, root, y).HugeLeaf?
  {
  }

  /** On a 2 MB path the write lands in the mapped frame. If that frame holds no table, no walk changes. */
  lemma HugeMissesTables(m: Memory, root: Word, own: Owners, e: Word, x: Indices)
    requires Tree(m, root, own) && !NonHugePath(m, root, x) && Table(PtAt(m, root, x)) !in own
    ensures forall y :: Walk(WriteSlot(m, root, x, e), root, y) == Walk(m, root, y)
  {
    var m' := WriteSlot(m, root, x, e);
    SlotWrote(m, root, x, e);
    forall y
      ensures Walk(m', root, y) == Walk(m, root, y)
    {
      WriteUnowned(m, m', root, own, PtAt(m, root, x), x.l1, e, y);
    }
  }

  lemma SlotWrote(m: Memory, root: Word, x: Indices, e: Word)
    ensures Wrote(m, WriteSlot(m, root, x, e), PtAt(m, root, x), x.l1, e)
  {
  }

  /** If that frame is the lowest-level table on the way to y, the mapping of the page in the same slot of that table is
      overwritten, and the page asked for stays in its 2 MB page. */
  lemma HugeHitsTable(m: Memory, root: Word, own: Owners, e: Word, x: Indices, y: Indices)
    requires Tree(m, root, own) && !NonHugePath(m, root, x)
    requires MissingTables(m, root, y) == 0 && NonHugePath(m, root, y)
    requires PtAt(m, root, y) == PtAt(m, root, x) && y.l1 == x.l1
    ensures x != y && WriteSlot(m, root, x, e) == WriteSlot(m, root, y, e)
    ensures Walk(WriteSlot(m, root, x, e), root, y) == if Present(e) then PageLeaf(e) else NoLeaf
    ensures Walk(WriteSlot(m, root, x, e), root, x) == Walk(m, root, x)
  {
    WriteLeaf(m, root, own, e, y);
  }

  /** A write to a frame that is no table changes no walk. */
  lemma WriteUnowned(m: Memory, m': Memory, root: Word, own: Owners, t: Word, i: Index, e: Word, x: Indices)
    requires Tree(m, root, own) && Table(t) !in own && Wrote(m, m', t, i, e)
    ensures Walk(m', root, x) == Walk(m, root, x)
  {
    WalkOwned(m, root, own, x);
  }
}
