/** What every run of the buddy allocator keeps, proved on the value model of BuddySpec. */
module BuddyProofs {
  import opened Machine
  import opened Bits
  import opened Tiling
  import opened Wrappers
  import opened Links
  import opened BuddySpec

  // ---------------------------------------------------------------- list edits and the block set

  lemma InFreeSet(f: Lists, b: Block)
    ensures b in FreeSet(f) <==> b.order <= MAX_ORDER && b.start in f[b.order]
  {
  }

  lemma PutSet(f: Lists, o: nat, x: nat)
    requires o <= MAX_ORDER
    ensures FreeSet(Put(f, o, x)) == FreeSet(f) + {Block(x, o)}
  {
    var g := Put(f, o, x);
    forall b
      ensures b in FreeSet(g) <==> b in FreeSet(f) + {Block(x, o)}
    {
      InFreeSet(f, b);
      InFreeSet(g, b);
    }
  }

  lemma DelSet(f: Lists, o: nat, x: nat)
    requires o <= MAX_ORDER && x in f[o] && NoDup(f[o])
    ensures FreeSet(Del(f, o, x)) == FreeSet(f) - {Block(x, o)}
    ensures NoDup(Del(f, o, x)[o]) && x !in Del(f, o, x)[o]
    ensures Block(x, o) in FreeSet(f)
  {
    var g := Del(f, o, x);
    RemoveFacts(f[o], x);
    forall b
      ensures b in FreeSet(g) <==> b in FreeSet(f) - {Block(x, o)}
    {
      InFreeSet(f, b);
      InFreeSet(g, b);
    }
    InFreeSet(f, Block(x, o));
  }

  // ---------------------------------------------------------------- splitting

  lemma SplitStep(g: Lists, o: nat, x: nat, L: set<Block>, lo: nat, hi: nat)
    requires o < MAX_ORDER && x in g[o + 1] && Partition(g, L, lo, hi)
    ensures Partition(SplitOnce(g, o, x), L, lo, hi)
  {
    var b := Block(x, o + 1);
    DelSet(g, o + 1, x);
    var g1 := Del(g, o + 1, x);
    PutSet(g1, o, x);
    PutSet(Put(g1, o, x), o, x + Pow2(o));
    SplitKeepsTiling(FreeSet(g) + L, b, lo, hi);
    InFreeSet(g, Left(b));
    InFreeSet(g, Right(b));
    assert FreeSet(SplitOnce(g, o, x)) + L == FreeSet(g) + L - {b} + {Left(b), Right(b)};
  }

  lemma {:induction false} SplitKeeps(f: Lists, o: nat, L: set<Block>, lo: nat, hi: nat)
    requires Partition(f, L, lo, hi)
    ensures Split(f, o).Some? ==> Partition(Split(f, o).value, L, lo, hi) && Split(f, o).value[o] != []
    decreases MAX_ORDER - o
  {
    if o < MAX_ORDER {
      if f[o + 1] == [] {
        SplitKeeps(f, o + 1, L, lo, hi);
      }
      var up := if f[o + 1] == [] then Split(f, o + 1) else Some(f);
      if up.Some? {
        SplitStep(up.value, o, up.value[o + 1][0], L, lo, hi);
      }
    }
  }

  /** The smallest non-empty order at or above o, or MAX_ORDER + 1. */
  function BestOrder(f: Lists, o: nat): (k: nat)
    requires o <= MAX_ORDER + 1
    ensures o <= k <= MAX_ORDER + 1
    ensures forall j :: o <= j < k ==> f[j] == []
    ensures k <= MAX_ORDER ==> f[k] != []
    decreases MAX_ORDER + 1 - o
  {
    if o > MAX_ORDER || f[o] != [] then o else BestOrder(f, o + 1)
  }

  /** Closed form of the free lists after a split down to order o. */
  ghost predicate SplitResult(f: Lists, g: Lists, o: nat, k: nat)
    requires o < k <= MAX_ORDER && f[k] != []
  {
    var top := f[k][0] + Pow2(k);
    && g[k] == f[k][1..]
    && |g[o]| == 2 && g[o][0] + Pow2(o) == top && g[o][1] + Pow2(o + 1) == top
    && (forall j {:trigger g[j]} :: o < j < k ==> Remainder(g[j], j, top))
    && (forall j {:trigger g[j]} :: 0 <= j <= MAX_ORDER && !(o <= j <= k) ==> g[j] == f[j])
  }

  /** The list of order j holds one block, which ends where the two last blocks of that size below top meet. */
  predicate Remainder(l: seq<nat>, j: nat, top: nat) {
    |l| == 1 && l[0] + Pow2(j + 1) == top
  }

  /** g' is g with the first block of order o + 1 split. */
  ghost predicate Halved(g: Lists, g': Lists, o: nat)
    requires o < MAX_ORDER && g[o + 1] != []
  {
    && g'[o] == [g[o + 1][0] + Pow2(o), g[o + 1][0]] + g[o]
    && g'[o + 1] == g[o + 1][1..]
    && forall j {:trigger g'[j]} :: 0 <= j <= MAX_ORDER && j != o && j != o + 1 ==> g'[j] == g[j]
  }

  lemma SplitOnceHalves(g: Lists, o: nat)
    requires o < MAX_ORDER && g[o + 1] != []
    ensures Halved(g, SplitOnce(g, o, g[o + 1][0]), o)
  {
  }

  /** One split step from order o + 1, in closed form. */
  lemma SplitResultStep(f: Lists, g: Lists, g': Lists, o: nat, k: nat)
    requires o + 1 < k <= MAX_ORDER && f[k] != [] && f[o] == []
    requires SplitResult(f, g, o + 1, k) && Halved(g, g', o)
    ensures SplitResult(f, g', o, k)
  {
    var top := f[k][0] + Pow2(k);
    assert g[o] == [];
    assert g'[k] == g[k];
    forall j {:trigger g'[j]} | o < j < k
      ensures Remainder(g'[j], j, top)
    {
      assert j != o + 1 ==> g'[j] == g[j];
    }
    forall j {:trigger g'[j]} | 0 <= j <= MAX_ORDER && !(o <= j <= k)
      ensures g'[j] == f[j]
    {
      assert g'[j] == g[j];
    }
  }

  lemma SplitResultBase(f: Lists, o: nat)
    requires o < MAX_ORDER && f[o] == [] && f[o + 1] != []
    ensures SplitResult(f, SplitOnce(f, o, f[o + 1][0]), o, o + 1)
  {
  }

  lemma {:induction false} SplitClosedForm(f: Lists, o: nat)
    requires o < MAX_ORDER && f[o] == []
    ensures var k := BestOrder(f, o + 1);
            if k > MAX_ORDER then Split(f, o).None?
            else Split(f, o).Some? && SplitResult(f, Split(f, o).value, o, k)
    decreases MAX_ORDER - o
  {
    var k := BestOrder(f, o + 1);
    if f[o + 1] != [] {
      SplitResultBase(f, o);
    } else if o + 1 == MAX_ORDER {
      assert Split(f, o + 1) == None;
      assert Upper(f, o) == None;
    } else {
      assert Upper(f, o) == Split(f, o + 1);
      SplitClosedForm(f, o + 1);
      assert k == BestOrder(f, o + 2);
      if k <= MAX_ORDER {
        var g := Split(f, o + 1).value;
        SplitOnceHalves(g, o);
        SplitResultStep(f, g, SplitOnce(g, o, g[o + 1][0]), o, k);
      }
    }
  }

  // ---------------------------------------------------------------- side tables

  lemma TablesAfterAlloc(h: Heap, L: set<Block>, b: Block)
    requires TablesAgree(h, L) && End(b) <= h.pages
    requires forall c :: c in L ==> Apart(b, c)
    ensures TablesAgree(h.(bit := Fill(h.bit, b.start, Pow2(b.order), true),
                           ord := Fill(h.ord, b.start, Pow2(b.order), b.order)), L + {b})
  {
    forall p | 0 <= p < h.pages
      ensures Covered(L + {b}, p) <==> Covered(L, p) || Covers(b, p)
    {
      if Covers(b, p) {
        assert b in L + {b};
      }
      if Covered(L, p) {
        var c :| c in L && Covers(c, p);
        assert c in L + {b};
      }
    }
  }

  lemma TablesAfterFree(h: Heap, L: set<Block>, b: Block)
    requires TablesAgree(h, L) && b in L
    requires forall c :: c in L && c != b ==> Apart(b, c)
    ensures TablesAgree(h.(bit := Fill(h.bit, b.start, Pow2(b.order), false),
                           ord := Fill(h.ord, b.start, Pow2(b.order), 0)), L - {b})
  {
    forall p | 0 <= p < h.pages
      ensures Covered(L - {b}, p) <==> Covered(L, p) && !Covers(b, p)
    {
      if Covered(L, p) && !Covers(b, p) {
        var c :| c in L && Covers(c, p);
        assert c in L - {b};
      }
    }
  }

  lemma LiveSetAdd(live: map<nat, nat>, x: nat, o: nat)
    requires x !in live
    ensures LiveSet(live[x := o]) == LiveSet(live) + {Block(x, o)}
  {
    var live' := live[x := o];
    forall b
      ensures b in LiveSet(live') <==> b in LiveSet(live) + {Block(x, o)}
    {
      if b in LiveSet(live) {
        assert b.start in live' && live'[b.start] == b.order;
      }
      if b == Block(x, o) {
        assert x in live';
      }
    }
  }

  lemma LiveSetRemove(live: map<nat, nat>, x: nat)
    requires x in live
    ensures LiveSet(live - {x}) == LiveSet(live) - {Block(x, live[x])}
  {
    var live' := live - {x};
    forall b
      ensures b in LiveSet(live') <==> b in LiveSet(live) - {Block(x, live[x])}
    {
      if b in LiveSet(live) && b != Block(x, live[x]) {
        assert b.start in live' && live'[b.start] == b.order;
      }
    }
  }

  // ---------------------------------------------------------------- allocation

  /** The free lists g after allocating order o from the head of list k: the last 2^o pages of that block are gone,
      and its remainder is one block in each order from o to k - 1, lists that were empty before. */
  ghost predicate BestFit(f: Lists, g: Lists, o: nat, k: nat, x: nat)
    requires o <= k <= MAX_ORDER && f[k] != []
  {
    var top := f[k][0] + Pow2(k);
    && x + Pow2(o) == top
    && g[k] == f[k][1..]
    && (forall j {:trigger g[j]} :: o <= j < k ==> f[j] == [] && Remainder(g[j], j, top))
    && (forall j {:trigger g[j]} :: 0 <= j <= MAX_ORDER && !(o <= j <= k) ==> g[j] == f[j])
  }

  lemma SplitThenTake(f: Lists, g: Lists, o: nat, k: nat)
    requires o < k <= MAX_ORDER && f[k] != [] && SplitResult(f, g, o, k)
    requires forall j :: o <= j < k ==> f[j] == []
    ensures BestFit(f, Del(g, o, g[o][0]), o, k, g[o][0])
  {
    var g': Lists := Del(g, o, g[o][0]);
    assert g'[o] == g[o][1..];
    forall j {:trigger g'[j]} | 0 <= j <= MAX_ORDER && j != o
      ensures g'[j] == g[j]
    {
    }
  }

  /** Allocation fails exactly when no block of order o or above is free, and then changes nothing; otherwise it
      takes the block from the smallest sufficient order. */
  lemma AllocBestFit(h: Heap, o: nat)
    requires o <= MAX_ORDER
    ensures var k := BestOrder(h.free, o);
            var (h', r) := Alloc(h, o);
            if k > MAX_ORDER then r.None? && h' == h else r.Some? && BestFit(h.free, h'.free, o, k, r.value)
  {
    var k := BestOrder(h.free, o);
    if h.free[o] != [] {
      assert Alloc(h, o).0.free == Del(h.free, o, h.free[o][0]);
    } else if o < MAX_ORDER {
      SplitClosedForm(h.free, o);
      assert k == BestOrder(h.free, o + 1);
      if k <= MAX_ORDER {
        SplitThenTake(h.free, Split(h.free, o).value, o, k);
      }
    }
  }

  lemma AllocCoalesced(h: Heap, o: nat)
    requires Coalesced(h.free) && o <= MAX_ORDER
    ensures Coalesced(Alloc(h, o).0.free)
  {
    AllocBestFit(h, o);
    var k := BestOrder(h.free, o);
    if k <= MAX_ORDER {
      BestFitCoalesced(h.free, Alloc(h, o).0.free, o, k, Alloc(h, o).1.value);
    }
  }

  lemma BestFitCoalesced(f: Lists, g: Lists, o: nat, k: nat, x: nat)
    requires Coalesced(f) && o <= k <= MAX_ORDER && f[k] != [] && BestFit(f, g, o, k, x)
    ensures Coalesced(g)
  {
    forall j, y | 0 <= j < MAX_ORDER && y in g[j]
      ensures Xor(y, Pow2(j)) !in g[j]
    {
      if o <= j < k {
        RemainderAlone(g[j], j, f[k][0] + Pow2(k), y);
      } else {
        NoNewBlock(f, g, o, k, x, j);
        assert y in f[j];
      }
    }
  }

  lemma RemainderAlone(l: seq<nat>, j: nat, top: nat, y: nat)
    requires Remainder(l, j, top) && y in l
    ensures Xor(y, Pow2(j)) !in l
  {
    BuddyInvolution(y, j);
  }

  lemma NoNewBlock(f: Lists, g: Lists, o: nat, k: nat, x: nat, j: nat)
    requires o <= k <= MAX_ORDER && f[k] != [] && BestFit(f, g, o, k, x) && j <= MAX_ORDER && !(o <= j < k)
    ensures forall z :: z in g[j] ==> z in f[j]
  {
    if j == k {
      assert g[k] == f[k][1..];
    } else {
      assert g[j] == f[j];
    }
  }

  /** A block apart from every live block starts where none of them does. */
  lemma NewBlock(live: map<nat, nat>, b: Block)
    requires forall c :: c in LiveSet(live) ==> Apart(b, c)
    ensures b.start !in live
  {
    forall x | x in live
      ensures x != b.start
    {
      assert Block(x, live[x]) in LiveSet(live);
    }
  }

  /** The invariant survives every allocation; a returned block is new, in range and recorded as live. */
  lemma AllocKeepsInv(h: Heap, live: map<nat, nat>, o: nat)
    requires Inv(h, live)
    ensures var (h', r) := Alloc(h, o);
            if r.None? then h' == h
            else r.value !in live && Inv(h', live[r.value := o]) && h'.pages == h.pages && h'.meta == h.meta
  {
    var L := LiveSet(live);
    var (h', r) := Alloc(h, o);
    if r.Some? {
      var x := r.value;
      var b := Block(x, o);
      SplitKeeps(h.free, o, L, h.meta, h.pages);
      var f := if h.free[o] == [] then Split(h.free, o).value else h.free;
      TakeKeepsPartition(f, L, x, o, h.meta, h.pages);
      NewBlock(live, b);
      LiveSetAdd(live, x, o);
      TablesAfterAlloc(h, L, b);
      AllocCoalesced(h, o);
    }
  }

  /** Moving a free block to the live ones keeps the partition. */
  lemma TakeKeepsPartition(f: Lists, L: set<Block>, x: nat, o: nat, lo: nat, hi: nat)
    requires o <= MAX_ORDER && x in f[o] && Partition(f, L, lo, hi)
    ensures Partition(Del(f, o, x), L + {Block(x, o)}, lo, hi)
    ensures End(Block(x, o)) <= hi && forall c :: c in L ==> Apart(Block(x, o), c)
  {
    var b := Block(x, o);
    DelSet(f, o, x);
    assert b in FreeSet(f) + L;
    assert FreeSet(Del(f, o, x)) + (L + {b}) == FreeSet(f) + L;
  }

  // ---------------------------------------------------------------- merging and freeing

  /** Coalesced, except possibly for the pair formed by block x of order o and its buddy. */
  ghost predicate CoalescedExcept(f: Lists, x: nat, o: nat) {
    forall j, y :: 0 <= j < MAX_ORDER && y in f[j] && Xor(y, Pow2(j)) in f[j] ==>
      j == o && (y == x || Xor(y, Pow2(j)) == x)
  }

  /** Taking x and its buddy out and putting the merged block in keeps the partition. */
  lemma MergeStep(f: Lists, L: set<Block>, x: nat, b: nat, o: nat, lo: nat, hi: nat)
    requires o < MAX_ORDER && x in f[o] && b in f[o] && (b == x + Pow2(o) || x == b + Pow2(o))
    requires Partition(f, L, lo, hi)
    ensures Partition(MergeOnce(f, o, x, b), L, lo, hi)
  {
    var big := Block(Min(x, b), o + 1);
    var two := {Block(x, o), Block(b, o)};
    assert two == {Left(big), Right(big)};
    InFreeSet(f, Block(x, o));
    InFreeSet(f, Block(b, o));
    MergeKeepsTiling(FreeSet(f) + L, big, lo, hi);
    InFreeSet(f, big);
    MergeSet(f, o, x, b);
    MergeUnion(FreeSet(f), L, two, big);
  }

  lemma MergeUnion(F: set<Block>, L: set<Block>, two: set<Block>, big: Block)
    requires F !! L && two <= F && big !in L
    ensures (F - two + {big}) !! L && (F - two + {big}) + L == F + L - two + {big}
  {
  }

  /** What a merge does to the set of free blocks. */
  lemma MergeSet(f: Lists, o: nat, x: nat, b: nat)
    requires o < MAX_ORDER && x in f[o] && b in f[o] && x != b && Min(x, b) !in f[o + 1]
    requires forall j :: 0 <= j <= MAX_ORDER ==> NoDup(f[j])
    ensures FreeSet(MergeOnce(f, o, x, b)) == FreeSet(f) - {Block(x, o), Block(b, o)} + {Block(Min(x, b), o + 1)}
    ensures forall j :: 0 <= j <= MAX_ORDER ==> NoDup(MergeOnce(f, o, x, b)[j])
  {
    DelSet(f, o, b);
    var f1 := Del(f, o, b);
    RemoveFacts(f[o], b);
    DelSet(f1, o, x);
    PutSet(Del(f1, o, x), o + 1, Min(x, b));
  }

  lemma MergeOnceMembers(f: Lists, o: nat, x: nat, b: nat, j: nat, y: nat)
    requires o < MAX_ORDER && x in f[o] && b in f[o] && x != b && NoDup(f[o]) && j <= MAX_ORDER
    ensures y in MergeOnce(f, o, x, b)[j] <==>
            if j == o then y in f[o] && y != x && y != b
            else y in f[j] || (j == o + 1 && y == Min(x, b))
  {
    RemoveFacts(f[o], b);
    RemoveFacts(Remove(f[o], b), x);
  }

  lemma MergeStepCoalesced(f: Lists, x: nat, o: nat)
    requires o < MAX_ORDER && x in f[o] && Xor(x, Pow2(o)) in f[o] && NoDup(f[o])
    requires CoalescedExcept(f, x, o)
    ensures var b := Xor(x, Pow2(o)); CoalescedExcept(MergeOnce(f, o, x, b), Min(x, b), o + 1)
  {
    BuddyInvolution(x, o);
    var b := Xor(x, Pow2(o));
    var g := MergeOnce(f, o, x, b);
    forall j, y | 0 <= j < MAX_ORDER && y in g[j] && Xor(y, Pow2(j)) in g[j]
      ensures j == o + 1 && (y == Min(x, b) || Xor(y, Pow2(j)) == Min(x, b))
    {
      MergeOnceMembers(f, o, x, b, j, y);
      MergeOnceMembers(f, o, x, b, j, Xor(y, Pow2(j)));
    }
  }

  lemma {:induction false} TryMergeKeeps(f: Lists, bit: seq<bool>, L: set<Block>, x: nat, o: nat, lo: nat)
    requires o <= MAX_ORDER && x in f[o]
    requires Partition(f, L, lo, |bit|)
    requires forall p :: 0 <= p < |bit| ==> (bit[p] <==> Covered(L, p))
    requires CoalescedExcept(f, x, o)
    ensures Partition(TryMerge(f, bit, x, o), L, lo, |bit|)
    ensures Coalesced(TryMerge(f, bit, x, o))
    decreases MAX_ORDER - o
  {
    if o < MAX_ORDER {
      var b := Xor(x, Pow2(o));
      if b in f[o] {
        BuddyInvolution(x, o);
        BuddyPageFree(f, L, b, o, lo, |bit|);
        MergeStep(f, L, x, b, o, lo, |bit|);
        MergeStepCoalesced(f, x, o);
        TryMergeKeeps(MergeOnce(f, o, x, b), bit, L, Min(x, b), o + 1, lo);
      } else {
        LonelyBlock(f, x, o);
      }
    }
  }

  lemma LonelyBlock(f: Lists, x: nat, o: nat)
    requires o < MAX_ORDER && CoalescedExcept(f, x, o) && Xor(x, Pow2(o)) !in f[o]
    ensures Coalesced(f)
  {
    forall j, y | 0 <= j < MAX_ORDER && y in f[j]
      ensures Xor(y, Pow2(j)) !in f[j]
    {
      BuddyInvolution(y, j);
    }
  }

  /** The first page of a free block is in range and belongs to no live block. */
  lemma BuddyPageFree(f: Lists, L: set<Block>, b: nat, o: nat, lo: nat, hi: nat)
    requires o <= MAX_ORDER && b in f[o] && Partition(f, L, lo, hi)
    ensures b < hi && !Covered(L, b)
  {
    InFreeSet(f, Block(b, o));
    forall c | c in L
      ensures !Covers(c, b)
    {
      assert c in FreeSet(f) + L && Block(b, o) in FreeSet(f) + L;
      assert Apart(c, Block(b, o));
    }
  }

  /** Freeing a live block recovers its order, keeps the invariant and removes exactly that block from the live set. */
  lemma FreeKeepsInv(h: Heap, live: map<nat, nat>, x: nat)
    requires Inv(h, live) && x in live
    ensures x < |h.bit| == |h.ord| && h.bit[x] && h.ord[x] == live[x]
    ensures Inv(Free(h, x), live - {x})
    ensures Free(h, x).pages == h.pages && Free(h, x).meta == h.meta
  {
    var L := LiveSet(live);
    var o := live[x];
    var b := Block(x, o);
    var B := FreeSet(h.free) + L;
    assert b in L && b in B && Covers(b, x);
    assert Covered(L, x);
    forall c | c in L && c != b
      ensures Apart(b, c)
    {
      assert c in B;
    }
    TablesAfterFree(h, L, b);
    LiveSetRemove(live, x);
    var bit := Fill(h.bit, x, Pow2(o), false);
    var f := Put(h.free, o, x);
    PutSet(h.free, o, x);
    InFreeSet(h.free, b);
    assert FreeSet(f) + (L - {b}) == B;
    forall j, y | 0 <= j < MAX_ORDER && y in f[j] && Xor(y, Pow2(j)) in f[j]
      ensures j == o && (y == x || Xor(y, Pow2(j)) == x)
    {
    }
    TryMergeKeeps(f, bit, L - {b}, x, o, h.meta);
  }

  /** Freeing a page that no live block covers (metadata, free or out of range) changes nothing. */
  lemma FreeOutsideLive(h: Heap, live: map<nat, nat>, x: nat)
    requires Inv(h, live) && !Covered(LiveSet(live), x)
    ensures Free(h, x) == h
  {
  }

  /** The exact contract of buddy_free: it keeps the invariant if and only if the page is not strictly inside a live
      block. (A strictly interior page has its allocation bit set, so the code frees from the middle.) */
  lemma FreeKeepsInvIff(h: Heap, live: map<nat, nat>, x: nat)
    requires Inv(h, live)
    ensures Inv(Free(h, x), live - {x}) <==> x in live || !Covered(LiveSet(live), x)
  {
    var L := LiveSet(live);
    if x in live {
      FreeKeepsInv(h, live, x);
    } else {
      assert live - {x} == live;
      if Covered(L, x) {
        var b :| b in L && Covers(b, x);
        assert b in FreeSet(h.free) + L;
        assert !Free(h, x).bit[x];
      }
    }
  }

  // ---------------------------------------------------------------- initialisation

  lemma ExtendTiling(B: set<Block>, lo: nat, cur: nat, o: nat)
    requires lo <= cur && Tiles(B, lo, cur)
    ensures Tiles(B + {Block(cur, o)}, lo, cur + Pow2(o))
  {
    var B' := B + {Block(cur, o)};
    forall p | lo <= p < cur + Pow2(o)
      ensures Covered(B', p)
    {
      if p < cur {
        assert Covered(B, p);
        var c :| c in B && Covers(c, p);
        assert c in B';
      } else {
        assert Covers(Block(cur, o), p);
      }
    }
  }

  /** At most one block has been carved for each order in (o, MAX_ORDER), none below o, and what remains is too
      small for a second block of order o. */
  ghost predicate Carving(f: Lists, rem: nat, o: nat) {
    && (forall j {:trigger f[j]} :: 0 <= j < o && j <= MAX_ORDER ==> f[j] == [])
    && (forall j {:trigger f[j]} :: o < j < MAX_ORDER ==> |f[j]| <= 1)
    && (o < MAX_ORDER ==> if f[o] == [] then rem < Pow2(o + 1) else |f[o]| == 1 && rem < Pow2(o))
  }

  lemma CarveOne(f: Lists, lo: nat, cur: nat, o: nat)
    requires o <= MAX_ORDER && lo <= cur && Partition(f, {}, lo, cur)
    ensures Partition(Put(f, o, cur), {}, lo, cur + Pow2(o))
  {
    assert FreeSet(f) + {} == FreeSet(f);
    PutSet(f, o, cur);
    ExtendTiling(FreeSet(f), lo, cur, o);
    InFreeSet(f, Block(cur, o));
    assert FreeSet(Put(f, o, cur)) + {} == FreeSet(Put(f, o, cur));
    assert cur !in f[o];
  }

  lemma CarvingPut(f: Lists, cur: nat, rem: nat, o: nat)
    requires o <= MAX_ORDER && rem >= Pow2(o) && Carving(f, rem, o)
    ensures Carving(Put(f, o, cur), rem - Pow2(o), o)
  {
  }

  lemma CarvingNext(f: Lists, rem: nat, o: nat)
    requires 0 < o <= MAX_ORDER && rem < Pow2(o) && Carving(f, rem, o)
    ensures Carving(f, rem, o - 1)
  {
  }

  lemma {:induction false} CarveKeeps(f: Lists, lo: nat, cur: nat, rem: nat, o: nat)
    requires o <= MAX_ORDER && lo <= cur
    requires Partition(f, {}, lo, cur) && Carving(f, rem, o)
    ensures var g := Carve(f, cur, rem, o);
            Partition(g, {}, lo, cur + rem) && Singles(g)
    decreases o, rem
  {
    if rem >= Pow2(o) {
      CarveOne(f, lo, cur, o);
      CarvingPut(f, cur, rem, o);
      CarveKeeps(Put(f, o, cur), lo, cur + Pow2(o), rem - Pow2(o), o);
    } else if o > 0 {
      CarvingNext(f, rem, o);
      CarveKeeps(f, lo, cur, rem, o - 1);
    } else {
      CarvingDone(f, rem);
    }
  }

  /** At most one block of each order below the top. */
  predicate Singles(f: Lists) {
    forall j {:trigger f[j]} :: 0 <= j < MAX_ORDER ==> |f[j]| <= 1
  }

  lemma CarvingDone(f: Lists, rem: nat)
    requires Carving(f, rem, 0) && rem < Pow2(0)
    ensures rem == 0 && Singles(f)
  {
  }

  /** The state that buddy_init leaves satisfies the invariant with no live block. */
  lemma InitInv(pages: nat)
    ensures Inv(Init(pages), map[])
    ensures Init(pages).pages == pages && Init(pages).meta == MetaPages(pages)
  {
    var m := MetaPages(pages);
    var empty := NoBlocks();
    assert FreeSet(empty) == {};
    CarveKeeps(empty, m, m, pages - m, MAX_ORDER);
    assert LiveSet(map[]) == {};
    SinglesCoalesced(Init(pages).free);
  }

  lemma SinglesCoalesced(f: Lists)
    requires Singles(f)
    ensures Coalesced(f)
  {
    forall o, x | 0 <= o < MAX_ORDER && x in f[o]
      ensures Xor(x, Pow2(o)) !in f[o]
    {
      BuddyInvolution(x, o);
    }
  }

  // ---------------------------------------------------------------- runs

  datatype Op = AllocOp(order: nat) | FreeOp(page: nat)

  /** The allocator together with the blocks its clients hold. */
  datatype Sys = Sys(heap: Heap, live: map<nat, nat>)

  function Step(s: Sys, op: Op): Sys {
    match op
    case AllocOp(o) =>
      var (h, r) := Alloc(s.heap, o);
      Sys(h, if r.Some? then s.live[r.value := o] else s.live)
    case FreeOp(x) => Sys(Free(s.heap, x), s.live - {x})
  }

  function Run(s: Sys, ops: seq<Op>): Sys
    decreases |ops|
  {
    if ops == [] then s else Run(Step(s, ops[0]), ops[1..])
  }

  /** Clients free only block addresses they hold, or pages that no live block covers. */
  ghost predicate Legal(s: Sys, op: Op) {
    op.FreeOp? ==> op.page in s.live || !Covered(LiveSet(s.live), op.page)
  }

  ghost predicate LegalRun(s: Sys, ops: seq<Op>)
    decreases |ops|
  {
    ops == [] || (Legal(s, ops[0]) && LegalRun(Step(s, ops[0]), ops[1..]))
  }

  lemma StepKeepsInv(s: Sys, op: Op)
    requires Inv(s.heap, s.live) && Legal(s, op)
    ensures Inv(Step(s, op).heap, Step(s, op).live)
    ensures Step(s, op).heap.pages == s.heap.pages && Step(s, op).heap.meta == s.heap.meta
  {
    match op
    case AllocOp(o) => AllocKeepsInv(s.heap, s.live, o);
    case FreeOp(x) =>
      if x in s.live {
        FreeKeepsInv(s.heap, s.live, x);
      } else {
        assert s.live - {x} == s.live;
      }
  }

  lemma {:induction false} RunKeepsInv(s: Sys, ops: seq<Op>)
    requires Inv(s.heap, s.live) && LegalRun(s, ops)
    ensures var t := Run(s, ops); Inv(t.heap, t.live) && t.heap.pages == s.heap.pages && t.heap.meta == s.heap.meta
    decreases |ops|
  {
    if ops != [] {
      StepKeepsInv(s, ops[0]);
      RunKeepsInv(Step(s, ops[0]), ops[1..]);
    }
  }

  // ---------------------------------------------------------------- conservation

  /** buddy_get_free_memory in pages: block counts weighted by block size, over orders below k. */
  function FreePages(f: Lists, k: nat): nat
    requires k <= MAX_ORDER + 1
  {
    if k == 0 then 0 else FreePages(f, k - 1) + |f[k - 1]| * Pow2(k - 1)
  }

  ghost function BlocksOf(s: seq<nat>, o: nat): set<Block> {
    set x | x in s :: Block(x, o)
  }

  lemma OneMore(n: nat, size: nat)
    ensures (n + 1) * size == size + n * size
  {
  }

  lemma BlocksOfCons(x: nat, t: seq<nat>, o: nat)
    requires x !in t
    ensures Pages(BlocksOf([x] + t, o)) == Pow2(o) + Pages(BlocksOf(t, o))
  {
    var b := Block(x, o);
    var s := [x] + t;
    assert x in s;
    assert b in BlocksOf(s, o);
    assert BlocksOf(s, o) - {b} == BlocksOf(t, o);
    PagesRemove(BlocksOf(s, o), b);
  }

  lemma {:induction false} PagesOfList(s: seq<nat>, o: nat, size: nat)
    requires NoDup(s) && size == Pow2(o)
    ensures Pages(BlocksOf(s, o)) == |s| * size
  {
    if s == [] {
      assert BlocksOf(s, o) == {};
    } else {
      var t := s[1..];
      NoDupTail(s);
      PagesOfList(t, o, size);
      BlocksOfCons(s[0], t, o);
      assert s == [s[0]] + t;
      OneMore(|t|, size);
    }
  }

  ghost function FreeBelow(f: Lists, k: nat): set<Block> {
    set b | b in FreeSet(f) && b.order < k
  }

  lemma {:induction false} FreePagesIsSum(f: Lists, k: nat)
    requires k <= MAX_ORDER + 1
    requires forall o :: 0 <= o <= MAX_ORDER ==> NoDup(f[o])
    ensures Pages(FreeBelow(f, k)) == FreePages(f, k)
  {
    if k == 0 {
      assert FreeBelow(f, k) == {};
    } else {
      FreePagesIsSum(f, k - 1);
      PagesOfList(f[k - 1], k - 1, Pow2(k - 1));
      var C := BlocksOf(f[k - 1], k - 1);
      assert FreeBelow(f, k) == FreeBelow(f, k - 1) + C;
      PagesUnion(FreeBelow(f, k - 1), C);
    }
  }

  /** Free memory is the region minus the metadata minus the live blocks. */
  lemma FreePagesConserved(h: Heap, live: map<nat, nat>)
    requires Inv(h, live)
    ensures FreePages(h.free, MAX_ORDER + 1) + h.meta + Pages(LiveSet(live)) == h.pages
  {
    var F, L := FreeSet(h.free), LiveSet(live);
    TilingConserves(F + L, h.meta, h.pages);
    PagesUnion(F, L);
    FreePagesIsSum(h.free, MAX_ORDER + 1);
    assert FreeBelow(h.free, MAX_ORDER + 1) == F;
  }

  /** Over every legal run from buddy_init the invariant holds and free memory is conserved. */
  lemma EveryRun(pages: nat, ops: seq<Op>)
    requires LegalRun(Sys(Init(pages), map[]), ops)
    ensures var t := Run(Sys(Init(pages), map[]), ops);
            Inv(t.heap, t.live) &&
            FreePages(t.heap.free, MAX_ORDER + 1) == pages - MetaPages(pages) - Pages(LiveSet(t.live))
  {
    InitInv(pages);
    RunKeepsInv(Sys(Init(pages), map[]), ops);
    var t := Run(Sys(Init(pages), map[]), ops);
    FreePagesConserved(t.heap, t.live);
  }

  /** buddy_get_free_memory right after buddy_init, in bytes: the most whole pages that leave room for a bit and a byte
      per page. */
  lemma FreeAfterInit(pages: nat)
    ensures var bytes, tables := FreePages(Init(pages).free, MAX_ORDER + 1) * PAGE_SIZE, (pages + 7) / 8 + pages;
            && bytes % PAGE_SIZE == 0 && bytes + tables <= pages * PAGE_SIZE
            && (pages > 0 ==> pages * PAGE_SIZE < bytes + tables + PAGE_SIZE)
  {
    InitInv(pages);
    FreePagesConserved(Init(pages), map[]);
    NothingLive();
  }

  lemma NothingLive()
    ensures Pages(LiveSet(map[])) == 0
  {
    assert LiveSet(map[]) == {};
  }

  /** The region of kernel.c: 64 MB less five pages. */
  lemma KernelFreeAfterInit(pages: nat)
    requires pages == 16384
    ensures FreePages(Init(pages).free, MAX_ORDER + 1) * PAGE_SIZE == 67088384
  {
    FreeAfterInit(pages);
  }

  // ---------------------------------------------------------------- how much is free

  /** An allocation takes as many free pages as its block has. */
  lemma AllocTakesPages(h: Heap, live: map<nat, nat>, o: nat)
    requires Inv(h, live) && Alloc(h, o).1.Some?
    ensures FreePages(Alloc(h, o).0.free, MAX_ORDER + 1) + Pow2(o) == FreePages(h.free, MAX_ORDER + 1)
  {
    AllocKeepsInv(h, live, o);
    var (h', r) := Alloc(h, o);
    var live' := live[r.value := o];
    FreePagesConserved(h, live);
    FreePagesConserved(h', live');
    LiveSetAdd(live, r.value, o);
    OneBlockMore(LiveSet(live), LiveSet(live'), Block(r.value, o));
  }

  /** Freeing a live block gives them back. */
  lemma FreeGivesPages(h: Heap, live: map<nat, nat>, x: nat)
    requires Inv(h, live) && x in live
    ensures FreePages(Free(h, x).free, MAX_ORDER + 1) == FreePages(h.free, MAX_ORDER + 1) + Pow2(live[x])
  {
    FreeKeepsInv(h, live, x);
    FreePagesConserved(h, live);
    FreePagesConserved(Free(h, x), live - {x});
    LiveSetRemove(live, x);
    OneBlockMore(LiveSet(live - {x}), LiveSet(live), Block(x, live[x]));
  }

  lemma OneBlockMore(L: set<Block>, L': set<Block>, b: Block)
    requires b !in L && L' == L + {b}
    ensures Pages(L') == Pages(L) + Pow2(b.order)
  {
    PagesRemove(L', b);
    assert L' - {b} == L;
  }

  lemma InitSingles(pages: nat)
    ensures Singles(Init(pages).free)
  {
    var m := MetaPages(pages);
    assert FreeSet(NoBlocks()) == {};
    CarveKeeps(NoBlocks(), m, m, pages - m, MAX_ORDER);
  }

  /** Allocation leaves at most one block of each order below the top, if there was no more before. */
  lemma SinglesAlloc(h: Heap, o: nat)
    requires Singles(h.free) && o <= MAX_ORDER
    ensures Singles(Alloc(h, o).0.free)
  {
    AllocBestFit(h, o);
    var k := BestOrder(h.free, o);
    if k <= MAX_ORDER {
      BestFitSingles(h.free, Alloc(h, o).0.free, o, k, Alloc(h, o).1.value);
    }
  }

  lemma BestFitSingles(f: Lists, g: Lists, o: nat, k: nat, x: nat)
    requires Singles(f) && o <= k <= MAX_ORDER && f[k] != [] && BestFit(f, g, o, k, x)
    ensures Singles(g)
  {
    forall j {:trigger g[j]} | 0 <= j < MAX_ORDER
      ensures |g[j]| <= 1
    {
      assert o <= j < k ==> Remainder(g[j], j, f[k][0] + Pow2(k));
      assert !(o <= j <= k) ==> g[j] == f[j];
    }
  }

  lemma {:induction false} EmptyLists(f: Lists, k: nat, n: nat)
    requires k <= n <= MAX_ORDER + 1 && forall j :: k <= j < n ==> f[j] == []
    ensures FreePages(f, n) == FreePages(f, k)
  {
    if k < n {
      EmptyLists(f, k, n - 1);
    }
  }

  /** Where a page is free there is a block to take. */
  lemma SomeBlock(f: Lists)
    requires FreePages(f, MAX_ORDER + 1) > 0
    ensures !(forall j :: 0 <= j <= MAX_ORDER ==> f[j] == [])
  {
    if forall j :: 0 <= j <= MAX_ORDER ==> f[j] == [] {
      EmptyLists(f, 0, MAX_ORDER + 1);
      assert false;
    }
  }

  /** Eight free pages with at most one block per order cannot all be in blocks of fewer than eight pages. */
  lemma LargeBlock(f: Lists)
    requires Singles(f) && FreePages(f, MAX_ORDER + 1) >= 8
    ensures !(forall j :: 3 <= j <= MAX_ORDER ==> f[j] == [])
  {
    if forall j :: 3 <= j <= MAX_ORDER ==> f[j] == [] {
      EmptyLists(f, 3, MAX_ORDER + 1);
      FewPages(f);
      assert false;
    }
  }

  lemma FewPages(f: Lists)
    requires Singles(f)
    ensures FreePages(f, 3) <= 7
  {
    assert |f[0]| <= 1 && |f[1]| <= 1 && |f[2]| <= 1;
    assert Pow2(0) == 1 && Pow2(1) == 2 && Pow2(2) == 4;
    assert FreePages(f, 1) == |f[0]| * Pow2(0);
    assert FreePages(f, 2) == FreePages(f, 1) + |f[1]| * Pow2(1);
  }
}
