/** Runs of vmm_map_page and vmm_unmap_page from the tables and the page allocator that boot leaves. */
module VmmRuns {
  import opened Wrappers
  import opened Errno
  import opened PageTables
  import opened BootTables
  import P = Pmm
  import V = Vmm

  datatype Op = MapOp(v: Word, p: Word, flags: Word) | UnmapOp(v: Word)

  /** What one call makes of the leaf of page x. */
  function After(l: Leaf, op: Op, err: Kerr, x: Indices): Leaf {
    if err != E_OK || IndicesOf(op.v) != x then l
    else match op
      case MapOp(_, p, flags) => LeafOf(p | flags)
      case UnmapOp(_) => NoLeaf
  }

  /** A plain map from pages to entries, flags included, updated by every call that succeeds. */
  ghost function PlainMap(m: Memory, root: Word, ops: seq<Op>, errs: seq<Kerr>, x: Indices): Leaf
    requires |ops| == |errs|
  {
    if ops == [] then Walk(m, root, x)
    else
      var n := |ops| - 1;
      After(PlainMap(m, root, ops[..n], errs[..n], x), ops[n], errs[n], x)
  }

  lemma PlainMapStep(m: Memory, root: Word, ops: seq<Op>, errs: seq<Kerr>, op: Op, err: Kerr, x: Indices)
    requires |ops| == |errs|
    ensures PlainMap(m, root, ops + [op], errs + [err], x) == After(PlainMap(m, root, ops, errs, x), op, err, x)
  {
    assert (ops + [op])[..|ops|] == ops && (errs + [err])[..|errs|] == errs;
  }

  lemma NoTableManaged(b: Boot, i: nat)
    requires DistinctFrames(b) && LowTables(b) && i < P.TOTAL_PAGES
    ensures Table(V.FrameOf(i)) !in BootOwners(b)
  {
    V.FrameIsPageAddress(i);
    BootOwnersLookup(b);
  }

  /** The state after boot: the page allocator that pmm_init leaves and the boot tables. */
  method Boot(m: Memory, b: Boot) returns (vm: V.Vmm)
    requires DistinctFrames(b) && Built(m, b) && LowTables(b)
    ensures fresh(vm) && fresh(vm.pmm) && fresh(vm.pmm.bitmap) && fresh(vm.pmm.bitmap.bytes)
    ensures vm.Valid() && vm.root == b.p4 && vm.mem == m
    ensures vm.pmm.used == 1024 && P.LowestFree(vm.pmm.Bits()) == 1024
  {
    BootTree(m, b);
    NoneManaged(b, BootOwners(b));
    var pmm := new P.Pmm();
    vm := Start(m, b.p4, pmm, BootOwners(b));
  }

  method Start(m: Memory, root: Word, pmm: P.Pmm, ghost own: Owners) returns (vm: V.Vmm)
    requires pmm.Valid() && Tree(m, root, own)
    requires forall i: nat :: i < P.TOTAL_PAGES ==> Table(V.FrameOf(i)) !in own
    ensures fresh(vm) && vm.Valid() && vm.root == root && vm.mem == m && vm.pmm == pmm
  {
    vm := new V.Vmm(root, m, pmm, own);
  }

  lemma NoneManaged(b: Boot, own: Owners)
    requires DistinctFrames(b) && LowTables(b) && own == BootOwners(b)
    ensures forall i: nat :: i < P.TOTAL_PAGES ==> Table(V.FrameOf(i)) !in own
  {
    forall i: nat | i < P.TOTAL_PAGES
      ensures Table(V.FrameOf(i)) !in own
    {
      NoTableManaged(b, i);
    }
  }

  method Do(vm: V.Vmm, op: Op) returns (err: Kerr)
    requires vm.Valid() && NonHugePath(vm.mem, vm.root, IndicesOf(op.v))
    modifies vm`mem, vm`own, vm.pmm, vm.pmm.bitmap`contents, vm.pmm.bitmap.bytes
    ensures vm.Valid()
    ensures forall x :: Walk(vm.mem, vm.root, x) == After(old(Walk(vm.mem, vm.root, x)), op, err, x)
  {
    match op
    case MapOp(v, p, flags) => err := DoMap(vm, v, p, flags);
    case UnmapOp(v) => err := DoUnmap(vm, v);
  }

  method DoMap(vm: V.Vmm, v: Word, p: Word, flags: Word) returns (err: Kerr)
    requires vm.Valid() && NonHugePath(vm.mem, vm.root, IndicesOf(v))
    modifies vm`mem, vm`own, vm.pmm, vm.pmm.bitmap`contents, vm.pmm.bitmap.bytes
    ensures vm.Valid()
    ensures forall x :: Walk(vm.mem, vm.root, x) == After(old(Walk(vm.mem, vm.root, x)), MapOp(v, p, flags), err, x)
  {
    err := vm.MapPage(v, p, flags);
    MapAfter(old(vm.mem), vm.mem, vm.root, v, p, flags, err);
  }

  /** A map that has succeeded or failed is one step of the plain map. */
  lemma MapAfter(m0: Memory, m: Memory, root: Word, v: Word, p: Word, flags: Word, err: Kerr)
    requires err == E_OK ==> V.Mapping(m0, m, root, IndicesOf(v), p | flags)
    requires err != E_OK ==> forall y :: Walk(m, root, y) == Walk(m0, root, y)
    ensures forall x :: Walk(m, root, x) == After(Walk(m0, root, x), MapOp(v, p, flags), err, x)
  {
    forall x
      ensures Walk(m, root, x) == After(Walk(m0, root, x), MapOp(v, p, flags), err, x)
    {
      LeafAfter(Walk(m0, root, x), Walk(m, root, x), x, v, p, flags, err);
    }
  }

  lemma LeafAfter(l0: Leaf, l: Leaf, x: Indices, v: Word, p: Word, flags: Word, err: Kerr)
    requires l == if err == E_OK && x == IndicesOf(v) then LeafOf(p | flags) else l0
    ensures l == After(l0, MapOp(v, p, flags), err, x)
  {
  }

  method DoUnmap(vm: V.Vmm, v: Word) returns (err: Kerr)
    requires vm.Valid() && NonHugePath(vm.mem, vm.root, IndicesOf(v))
    modifies vm`mem
    ensures vm.Valid()
    ensures forall x :: Walk(vm.mem, vm.root, x) == After(old(Walk(vm.mem, vm.root, x)), UnmapOp(v), err, x)
  {
    ZeroAbsent();
    err := vm.UnmapPage(v);
  }

  /** A run on tables that satisfy the invariant; its addresses lie outside the 2 MB mappings, exactly where
      vmm_map_page does what it promises. */
  method DoAll(vm: V.Vmm, ops: seq<Op>) returns (errs: seq<Kerr>)
    requires vm.Valid() && forall i :: 0 <= i < |ops| ==> NonHugePath(vm.mem, vm.root, IndicesOf(ops[i].v))
    modifies vm`mem, vm`own, vm.pmm, vm.pmm.bitmap`contents, vm.pmm.bitmap.bytes
    ensures vm.Valid() && |errs| == |ops|
    ensures forall x :: Walk(vm.mem, vm.root, x) == PlainMap(old(vm.mem), vm.root, ops, errs, x)
  {
    ghost var m := vm.mem;
    errs := [];
    for i := 0 to |ops|
      invariant vm.Valid() && |errs| == i
      invariant forall x :: Walk(vm.mem, vm.root, x) == PlainMap(m, vm.root, ops[..i], errs, x)
      invariant forall y :: NonHugePath(vm.mem, vm.root, y) == NonHugePath(m, vm.root, y)
    {
      ghost var before := errs;
      var err := Do(vm, ops[i]);
      errs := errs + [err];
      assert ops[..i + 1] == ops[..i] + [ops[i]];
      forall x
        ensures Walk(vm.mem, vm.root, x) == PlainMap(m, vm.root, ops[..i + 1], errs, x)
      {
        PlainMapStep(m, vm.root, ops[..i], before, ops[i], err, x);
      }
    }
    assert ops[..|ops|] == ops;
  }

  /** Calls on other pages leave an entry alone, and no page of a 2 MB mapping is one that the run is about. */
  lemma {:induction false} HugeUntouched(m: Memory, root: Word, ops: seq<Op>, errs: seq<Kerr>, x: Indices)
    requires |ops| == |errs| && !NonHugePath(m, root, x)
    requires forall i :: 0 <= i < |ops| ==> NonHugePath(m, root, IndicesOf(ops[i].v))
    ensures PlainMap(m, root, ops, errs, x) == Walk(m, root, x)
  {
    if ops != [] {
      var n := |ops| - 1;
      HugeUntouched(m, root, ops[..n], errs[..n], x);
    }
  }

  /** Over every run from boot, every page's entry, flags included, is what the plain map says, vmm_get_physical agrees
      with it, and get_table keeps reaching every frame. */
  method RunFromBoot(m: Memory, b: Boot, ops: seq<Op>) returns (vm: V.Vmm, errs: seq<Kerr>)
    requires DistinctFrames(b) && Built(m, b) && LowTables(b)
    requires forall i :: 0 <= i < |ops| ==> NonHugePath(m, b.p4, IndicesOf(ops[i].v))
    ensures vm.Valid() && vm.root == b.p4 && |errs| == |ops|
    ensures forall x :: Walk(vm.mem, b.p4, x) == PlainMap(m, b.p4, ops, errs, x)
    ensures forall w ::
              GetPhysical(vm.mem, b.p4, w) == Physical(Resolve(PlainMap(m, b.p4, ops, errs, IndicesOf(w)), w))
    ensures forall t :: t < 0x800_0000 ==> Translate(vm.mem, b.p4, GetTable(t)) == Some(t)
  {
    vm := Boot(m, b);
    errs := DoAll(vm, ops);
    forall t | t < 0x800_0000
      ensures Translate(vm.mem, b.p4, GetTable(t)) == Some(t)
    {
      TablesReachable(m, b, t);
      HugeUntouched(m, b.p4, ops, errs, IndicesOf(GetTable(t)));
    }
  }

  /** vmm_get_physical cannot tell an unmapped address from one mapped to physical address 0, and nothing else. */
  lemma ZeroIsAmbiguous(m: Memory, root: Word, v: Word)
    ensures GetPhysical(m, root, v) == 0 <==> Translate(m, root, v).None? || Translate(m, root, v) == Some(0)
  {
  }

  // ---------------------------------------------------------------- mapping a direct-map address

  /** The direct-map address of the first byte at 8 MB, and of its page j. */
  function Window(j: Index): Word {
    0xFFFF800000800000 + ((j as bv64) << 12)
  }

  lemma WindowBits(j: Index)
    ensures var v := 0xFFFF800000800000 + ((j as bv64) << 12);
            && ((v >> 39) & 0x1FF) as bv9 == 256 && ((v >> 30) & 0x1FF) as bv9 == 0
            && ((v >> 21) & 0x1FF) as bv9 == 4 && ((v >> 12) & 0x1FF) as bv9 == j
            && v & 0xFFF == 0
  {
  }

  lemma WindowIndices(j: Index)
    ensures IndicesOf(Window(j)) == Indices(256, 0, 4, j) && Window(j) & OFFSET_MASK == 0
  {
    WindowBits(j);
  }

  lemma WindowStart()
    ensures Window(0) == 0xFFFF800000000000 + 0x80_0000 && Window(0) & 0x1FFFFF == 0
  {
  }

  lemma FirstFrame()
    ensures V.FrameOf(1024) == 0x80_0000
  {
  }

  /** The direct map shows the frame at 8 MB through a 2 MB page, as boot leaves it. */
  predicate WindowOpen(m: Memory, root: Word) {
    !NonHugePath(m, root, Indices(256, 0, 4, 0)) && Translate(m, root, Window(0)) == Some(0x80_0000)
  }

  /** vmm_map_page of the direct-map address of page j of that frame overwrites its word j. The frame is that of page
      1024, the first that the page allocator hands out after pmm_init. */
  lemma DirectMapReachesFirstFrame(m: Memory, root: Word, j: Index, e: Word)
    requires WindowOpen(m, root)
    ensures var x := IndicesOf(Window(j));
            && MissingTables(m, root, x) == 0 && !NonHugePath(m, root, x)
            && PtAt(m, root, x) == 0x80_0000 == V.FrameOf(1024)
            && WriteSlot(m, root, x, e) == m[(V.FrameOf(1024), j) := e]
  {
    WindowIndices(0);
    WindowIndices(j);
    WindowStart();
    FirstFrame();
  }

  lemma BootWindow(m: Memory, b: Boot)
    requires DistinctFrames(b) && Built(m, b)
    ensures WindowOpen(m, b.p4)
  {
    WindowStart();
    WindowIndices(0);
    DirectMap(m, b, 0x80_0000);
  }

  /** A call with the given flags, none of which is PRESENT, writes an absent entry. */
  lemma AbsentEntry(q: Word, flags: Word)
    requires q & OFFSET_MASK == 0 && flags & 0x1 == 0
    ensures !Present(q | flags)
  {
    V.OffsetLiteral(q);
    V.MappedBits(q, flags);
  }

  /** The first page mapped after boot that needs a table gets the frame at 8 MB for the first of them, whatever its
      level. A call for the direct-map address of that frame's page, without PRESENT, then reports success, leaves the
      direct map as it was and unmaps the first page. */
  method FirstMappingLost(m: Memory, b: Boot, v: Word, p: Word, flags: Word, q: Word, flags': Word)
    returns (ghost before: Memory, vm: V.Vmm, first: Kerr, second: Kerr)
    requires DistinctFrames(b) && Built(m, b) && LowTables(b)
    requires NonHugePath(m, b.p4, IndicesOf(v)) && MissingTables(m, b.p4, IndicesOf(v)) > 0
    requires v & OFFSET_MASK == 0 && p & OFFSET_MASK == 0 && q & OFFSET_MASK == 0 && flags' & 0x1 == 0
    ensures first == E_OK && Translate(before, b.p4, v) == V.Mapped(p | flags, v)
    ensures second == E_OK && Translate(vm.mem, b.p4, v) == None
  {
    var x := IndicesOf(v);
    ghost var missing := MissingTables(m, b.p4, x);
    BootWindow(m, b);
    vm := Boot(m, b);
    first := vm.MapPage(v, p, flags);
    before := vm.mem;
    V.SamePageSelf(v);
    V.MappingTranslates(m, before, b.p4, v, p | flags);
    WindowKept(m, before, b.p4, v);
    var j := SlotFor(x, MissingTables(m, b.p4, x));
    FirstFrame();
    DirectMapReachesFirstFrame(before, b.p4, j, q | flags');
    WindowIndices(j);
    second := vm.MapPage(Window(j), q, flags');
    AbsentEntry(q, flags');
    SlotWrote(before, b.p4, IndicesOf(Window(j)), q | flags');
    CutWalk(before, vm.mem, b.p4, vm.own, x, missing, q | flags');
    V.TranslateNone(vm.mem, b.p4, v);
  }

  /** Mapping a page outside the 2 MB mappings leaves the window open. */
  lemma WindowKept(m: Memory, m': Memory, root: Word, v: Word)
    requires WindowOpen(m, root) && NonHugePath(m, root, IndicesOf(v))
    requires forall y :: NonHugePath(m', root, y) == NonHugePath(m, root, y)
    requires !SamePage(v, Window(0)) ==> Translate(m', root, Window(0)) == Translate(m, root, Window(0))
    ensures WindowOpen(m', root)
  {
    WindowIndices(0);
    SamePageIffIndices(v, Window(0));
  }
}
