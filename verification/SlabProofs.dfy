/** The three-list invariant of the slab caches, for unlinking under the old state. */
module SlabProofs {
  import opened Wrappers
  import opened Links
  import opened SlabSpec

  /** A new area that overlaps no slab of the cache, as the page allocator provides. */
  predicate Fresh(c: Cache, start: nat) {
    forall s :: 0 <= s < |c.slabs| ==>
      c.slabs[s].start + c.n * c.size <= start || start + c.n * c.size <= c.slabs[s].start
  }

  lemma ObjectsDiffer(start: nat, size: nat, i: nat, j: nat)
    requires size > 0 && i < j
    ensures ObjectAt(start, size, i) + size <= ObjectAt(start, size, j)
  {
    Distribute(i, j - i, size);
    AtLeastOne(j - i, size);
  }

  lemma Distribute(i: nat, d: nat, size: nat)
    ensures (i + d) * size == i * size + d * size
  {
  }

  lemma AtLeastOne(d: nat, size: nat)
    requires d > 0
    ensures d * size >= size
  {
  }

  lemma {:induction false} FreshObjectsFacts(start: nat, size: nat, n: nat)
    requires size > 0
    ensures |FreshObjects(start, size, n)| == n && NoDup(FreshObjects(start, size, n))
    ensures forall a :: a in FreshObjects(start, size, n) ==> IsObject(start, size, n, a)
  {
    if n > 0 {
      FreshObjectsFacts(start, size, n - 1);
      var rest := FreshObjects(start, size, n - 1);
      var a := ObjectAt(start, size, n - 1);
      forall b | b in rest
        ensures a != b && IsObject(start, size, n, b)
      {
        var i: nat :| i < n - 1 && b == ObjectAt(start, size, i);
        ObjectsDiffer(start, size, i, n - 1);
      }
      assert IsObject(start, size, n, a);
      NoDupCons(a, rest);
    }
  }

  lemma NoDupCons(a: nat, s: seq<nat>)
    requires NoDup(s) && a !in s
    ensures NoDup([a] + s)
  {
    var t := [a] + s;
    forall i, j | 0 <= i < j < |t|
      ensures t[i] != t[j]
    {
      assert t[j] == s[j - 1];
    }
  }

  // ---------------------------------------------------------------- the invariant is kept

  lemma MoveKeeps(c: Cache, s: nat, sl: Slab, st: nat)
    requires WellFormed(c) && ListsOk(c) && s < |c.slabs| && sl.state == c.slabs[s].state
    requires st == ListOf(|sl.free|, c.n)
    ensures WellFormed(Move(c, s, sl, st)) && ListsOk(Move(c, s, sl, st))
  {
    var c' := Move(c, s, sl, st);
    assert sl.state == ListOf(|c.slabs[s].free|, c.n);
    if st != sl.state {
      DistinctDel(c.lists, sl.state, s);
      DistinctPut(Del(c.lists, sl.state, s), st, s);
      RemoveFacts(c.lists[sl.state], s);
      forall t | 0 <= t < |c.slabs| && t != s
        ensures t in c'.lists[ListOf(|c.slabs[t].free|, c.n)]
      {
        assert t in c.lists[ListOf(|c.slabs[t].free|, c.n)];
      }
      forall o, i | 0 <= o < 3 && 0 <= i < |c'.lists[o]|
        ensures c'.lists[o][i] < |c'.slabs|
      {
        MovedMember(c.lists, sl.state, st, s, o, i, |c.slabs|);
      }
    }
  }

  lemma MovedMember(f: seq<seq<nat>>, from: nat, to: nat, s: nat, o: nat, i: nat, bound: nat)
    requires |f| == 3 && from < 3 && to < 3 && from != to && o < 3 && s < bound && s in f[from] && NoDup(f[from])
    requires forall o, i :: 0 <= o < 3 && 0 <= i < |f[o]| ==> f[o][i] < bound
    requires i < |Put(Del(f, from, s), to, s)[o]|
    ensures Put(Del(f, from, s), to, s)[o][i] < bound
  {
    RemoveFacts(f[from], s);
    var l := Put(Del(f, from, s), to, s)[o];
    assert l[i] in l;
    assert o == from ==> l[i] in f[from];
  }

  lemma DistinctPut(f: seq<seq<nat>>, o: nat, x: nat)
    requires Distinct(f) && o < |f| && Unlisted(f, x)
    ensures Distinct(Put(f, o, x))
  {
    NoDupCons(x, f[o]);
  }

  lemma PickKeeps(c: Cache, mem: Option<nat>)
    requires Inv(c) && (mem.Some? ==> Fresh(c, mem.value))
    ensures var (c', r) := Pick(c, mem);
            && Inv(c') && c'.n == c.n && c'.size == c.size
            && (r.Some? ==> r.value < |c'.slabs| && c'.slabs[r.value].free != [])
            && (r.None? <==> mem.None? && forall s :: 0 <= s < |c.slabs| ==> c.slabs[s].free == [])
  {
    var (c', r) := Pick(c, mem);
    if c.lists[PARTIAL] != [] {
      HeadClass(c, PARTIAL);
    } else if c.lists[EMPTY] != [] {
      HeadClass(c, EMPTY);
    } else {
      AllFull(c);
      if mem.Some? {
        FreshObjectsFacts(mem.value, c.size, c.n);
        NewSlabKeeps(c, mem.value);
      }
    }
  }

  /** The head of a list is a slab of that list's class. */
  lemma HeadClass(c: Cache, o: nat)
    requires WellFormed(c) && ListsOk(c) && o < 3 && c.lists[o] != []
    ensures c.lists[o][0] < |c.slabs| && ListOf(|c.slabs[c.lists[o][0]].free|, c.n) == o
  {
    var s := c.lists[o][0];
    assert s in c.lists[o];
    assert s in c.lists[ListOf(|c.slabs[s].free|, c.n)];
  }

  lemma AllFull(c: Cache)
    requires Inv(c) && c.lists[PARTIAL] == [] && c.lists[EMPTY] == []
    ensures forall s :: 0 <= s < |c.slabs| ==> c.slabs[s].free == []
  {
    forall s | 0 <= s < |c.slabs|
      ensures c.slabs[s].free == []
    {
      assert s in c.lists[ListOf(|c.slabs[s].free|, c.n)];
    }
  }

  lemma NewSlabKeeps(c: Cache, start: nat)
    requires Inv(c) && Fresh(c, start)
    ensures var sl := Slab(start, FreshObjects(start, c.size, c.n), EMPTY);
            Inv(c.(slabs := c.slabs + [sl], lists := Put(c.lists, EMPTY, |c.slabs|)))
  {
    var sl := Slab(start, FreshObjects(start, c.size, c.n), EMPTY);
    FreshObjectsFacts(start, c.size, c.n);
    var c' := c.(slabs := c.slabs + [sl], lists := Put(c.lists, EMPTY, |c.slabs|));
    forall o, x | 0 <= o < 3 && x in c.lists[o]
      ensures x < |c.slabs|
    {
      var i :| 0 <= i < |c.lists[o]| && c.lists[o][i] == x;
    }
    DistinctPut(c.lists, EMPTY, |c.slabs|);
    forall s | 0 <= s < |c.slabs|
      ensures s in c'.lists[ListOf(|c.slabs[s].free|, c.n)]
    {
      assert s in c.lists[ListOf(|c.slabs[s].free|, c.n)];
    }
  }

  /** Allocation keeps every slab on the list its free count dictates; it fails only when no slab has a free object
      and no new slab can be had, and otherwise hands out an object that was free. */
  lemma AllocKeeps(c: Cache, mem: Option<nat>)
    requires Inv(c) && (mem.Some? ==> Fresh(c, mem.value))
    ensures var (c', r) := Alloc(c, mem);
            && Inv(c')
            && (r.None? <==> mem.None? && forall s :: 0 <= s < |c.slabs| ==> c.slabs[s].free == [])
            && (r.Some? ==> exists s :: 0 <= s < |c'.slabs| && IsObject(c'.slabs[s].start, c.size, c.n, r.value) &&
                              r.value !in c'.slabs[s].free)
  {
    PickKeeps(c, mem);
    var (c1, p) := Pick(c, mem);
    if p.Some? {
      TakeKeeps(c1, p.value);
    }
  }

  lemma TakeKeeps(c: Cache, s: nat)
    requires Inv(c) && s < |c.slabs| && c.slabs[s].free != []
    ensures var sl := c.slabs[s];
            var c' := Move(c, s, sl.(free := sl.free[1..]), if sl.free[1..] == [] then FULL else PARTIAL);
            Inv(c') && IsObject(c'.slabs[s].start, c.size, c.n, sl.free[0]) && sl.free[0] !in c'.slabs[s].free
  {
    var sl := c.slabs[s];
    NoDupTail(sl.free);
    MoveKeeps(c, s, sl.(free := sl.free[1..]), if sl.free[1..] == [] then FULL else PARTIAL);
    assert sl.free[0] in sl.free;
    assert IsObject(sl.start, c.size, c.n, sl.free[0]);
    assert forall a :: a in sl.free[1..] ==> a in sl.free;
  }

  /** Freeing a live object keeps the invariant. */
  lemma FreeKeeps(c: Cache, s: nat, a: nat)
    requires Inv(c) && s < |c.slabs| && IsObject(c.slabs[s].start, c.size, c.n, a) && a !in c.slabs[s].free
    ensures Inv(Free(c, s, a))
  {
    var sl := c.slabs[s];
    NoDupCons(a, sl.free);
    ObjectsBound(sl.start, c.size, c.n, [a] + sl.free);
    MoveKeeps(c, s, sl.(free := [a] + sl.free), if |sl.free| + 1 == c.n then EMPTY else PARTIAL);
  }

  /** Which slab slab_alloc turns to: a partly used one if there is one, else an empty one, else a new one. */
  lemma PicksUsedFirst(c: Cache, mem: Option<nat>)
    requires Inv(c) && (mem.Some? ==> Fresh(c, mem.value)) && Pick(c, mem).1.Some?
    ensures var (c1, p) := Pick(c, mem);
            && p.value < |c1.slabs|
            && ((exists s :: 0 <= s < |c.slabs| && 0 < |c.slabs[s].free| < c.n) ==>
                  c1 == c && 0 < |c.slabs[p.value].free| < c.n)
            && ((exists s :: 0 <= s < |c.slabs| && c.slabs[s].free != []) <==> c1 == c)
            && (c1 != c ==> p.value == |c.slabs| && |c1.slabs| == |c.slabs| + 1 && c1.slabs[p.value].start == mem.value)
  {
    PickKeeps(c, mem);
    if c.lists[PARTIAL] != [] {
      HeadClass(c, PARTIAL);
    } else if c.lists[EMPTY] != [] {
      HeadClass(c, EMPTY);
      NoPartial(c);
    } else {
      AllFull(c);
      assert |Pick(c, mem).0.slabs| == |c.slabs| + 1;
    }
  }

  lemma NoPartial(c: Cache)
    requires WellFormed(c) && ListsOk(c) && c.lists[PARTIAL] == []
    ensures forall s :: 0 <= s < |c.slabs| ==> !(0 < |c.slabs[s].free| < c.n)
  {
    forall s | 0 <= s < |c.slabs|
      ensures !(0 < |c.slabs[s].free| < c.n)
    {
      assert s in c.lists[ListOf(|c.slabs[s].free|, c.n)];
    }
  }

  /** slab_free puts the object first on its slab's free list and touches no other slab. */
  lemma FreePutsFirst(c: Cache, s: nat, a: nat)
    requires WellFormed(c) && s < |c.slabs|
    ensures var c' := Free(c, s, a);
            && |c'.slabs| == |c.slabs| && c'.slabs[s].start == c.slabs[s].start
            && c'.slabs[s].free == [a] + c.slabs[s].free
            && forall t :: 0 <= t < |c.slabs| && t != s ==> c'.slabs[t] == c.slabs[t]
  {
  }

  /** A new slab's free list: the last object first, one object apart. */
  lemma {:induction false} FreshObjectAt(start: nat, size: nat, n: nat, i: nat)
    requires i < n
    ensures |FreshObjects(start, size, n)| == n && FreshObjects(start, size, n)[i] == start + (n - 1 - i) * size
    decreases n
  {
    if i > 0 {
      FreshObjectAt(start, size, n - 1, i - 1);
    } else if n > 1 {
      FreshObjectAt(start, size, n - 1, 0);
    }
  }

  /** An allocation takes one object from one slab, an old one or a new one, and leaves every other slab alone; freeing
      that object at once gives the slab back exactly as it was. */
  lemma AllocTakesOne(c: Cache, mem: Option<nat>)
    requires Inv(c) && (mem.Some? ==> Fresh(c, mem.value)) && Alloc(c, mem).1.Some?
    ensures var (c', r) := Alloc(c, mem);
            var (c1, p) := Pick(c, mem);
            && p.Some? && p.value < |c1.slabs| == |c'.slabs| && c.slabs <= c1.slabs
            && [r.value] + c'.slabs[p.value].free == c1.slabs[p.value].free
            && (forall t :: 0 <= t < |c'.slabs| && t != p.value ==> c'.slabs[t] == c1.slabs[t])
            && WellFormed(c') && Free(c', p.value, r.value).slabs == c1.slabs
  {
    PickKeeps(c, mem);
    var (c1, p) := Pick(c, mem);
    assert c.slabs <= c1.slabs;
    TakeBack(c1, p.value);
  }

  lemma TakeBack(c: Cache, s: nat)
    requires Inv(c) && s < |c.slabs| && c.slabs[s].free != []
    ensures var sl := c.slabs[s];
            var c' := Move(c, s, sl.(free := sl.free[1..]), if sl.free[1..] == [] then FULL else PARTIAL);
            && WellFormed(c') && c'.n == c.n && [sl.free[0]] + c'.slabs[s].free == sl.free
            && Free(c', s, sl.free[0]).slabs == c.slabs
  {
    var sl := c.slabs[s];
    TakeKeeps(c, s);
    assert [sl.free[0]] + sl.free[1..] == sl.free;
    assert sl.state == ListOf(|sl.free|, c.n);
  }

  // ---------------------------------------------------------------- runs

  datatype Op = AllocOp(mem: Option<nat>) | FreeOp(s: nat, a: nat)

  /** New slabs come from free memory, and clients free live objects. */
  ghost predicate Legal(c: Cache, op: Op) {
    match op
    case AllocOp(mem) => mem.Some? ==> Fresh(c, mem.value)
    case FreeOp(s, a) => s < |c.slabs| && IsObject(c.slabs[s].start, c.size, c.n, a) && a !in c.slabs[s].free
  }

  function Step(c: Cache, op: Op): Cache
    requires WellFormed(c)
  {
    match op
    case AllocOp(mem) => Alloc(c, mem).0
    case FreeOp(s, a) => if s < |c.slabs| then Free(c, s, a) else c
  }

  ghost predicate RunsTo(c: Cache, ops: seq<Op>, d: Cache)
    decreases |ops|
  {
    if ops == [] then d == c
    else WellFormed(c) && Legal(c, ops[0]) && RunsTo(Step(c, ops[0]), ops[1..], d)
  }

  /** With unlinking under the old state, every run keeps every slab on exactly the list its free count dictates. */
  lemma {:induction false} RunKeeps(c: Cache, ops: seq<Op>, d: Cache)
    requires Inv(c) && RunsTo(c, ops, d)
    ensures Inv(d)
    decreases |ops|
  {
    if ops != [] {
      match ops[0] {
        case AllocOp(mem) => AllocKeeps(c, mem);
        case FreeOp(s, a) => FreeKeeps(c, s, a);
      }
      RunKeeps(Step(c, ops[0]), ops[1..], d);
    }
  }

  /** Pigeonhole: distinct objects of a slab number at most n. */
  lemma {:induction false} ObjectsBound(start: nat, size: nat, n: nat, l: seq<nat>)
    requires NoDup(l) && forall a :: a in l ==> IsObject(start, size, n, a)
    ensures |l| <= n
    decreases n
  {
    if n == 0 {
      if l != [] {
        SomeMember(l);
        assert false;
      }
    } else {
      var top := ObjectAt(start, size, n - 1);
      if top in l {
        RemoveFacts(l, top);
        DropTop(start, size, n, Remove(l, top));
        ObjectsBound(start, size, n - 1, Remove(l, top));
      } else {
        DropTop(start, size, n, l);
        ObjectsBound(start, size, n - 1, l);
      }
    }
  }

  lemma SomeMember(l: seq<nat>)
    requires l != []
    ensures exists a :: a in l
  {
    assert l[0] in l;
  }

  lemma DropTop(start: nat, size: nat, n: nat, l: seq<nat>)
    requires n > 0 && (forall a :: a in l ==> IsObject(start, size, n, a)) && ObjectAt(start, size, n - 1) !in l
    ensures forall a :: a in l ==> IsObject(start, size, n - 1, a)
  {
    forall a | a in l
      ensures IsObject(start, size, n - 1, a)
    {
      var i: nat :| i < n && a == ObjectAt(start, size, i);
      assert i != n - 1;
    }
  }
}
