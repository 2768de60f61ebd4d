/** mm/allocators/slab.c: slab caches updated in place. slab_alloc and slab_free store the slab's new state before
    remove_slab_from_list reads the state to choose which list head to fix. SlabCache keeps that order, as written;
    RepairedSlabCache passes the old state to the unlink. */
module Slab {
  import opened Wrappers
  import opened Links
  import opened SlabSpec
  import opened SlabProofs
  import NL = NodeLists

  // ---------------------------------------------------------------- unlinking under the old state

  class RepairedSlabCache {
    const size: nat
    const n: nat
    const links: NL.NodeLists
    var slabs: seq<Slab>

    ghost predicate Shape()
      reads this, links
    {
      links.Valid() && |links.lists| == 3 && |links.next| == |slabs|
    }

    ghost function View(): Cache
      reads this, links
    {
      Cache(size, n, slabs, links.lists)
    }

    ghost predicate Valid()
      reads this, links
    {
      Shape() && Inv(View())
    }

    /** slab_cache_create for objects of the given size */
    constructor (objectSize: nat)
      requires objectSize > 0 && ObjectsPerSlab(AlignSize(objectSize)) > 0
      ensures Valid() && slabs == [] && size == AlignSize(objectSize) && n == ObjectsPerSlab(size) && fresh(links)
    {
      size := AlignSize(objectSize);
      n := ObjectsPerSlab(AlignSize(objectSize));
      links := new NL.NodeLists(0, 3);
      slabs := [];
    }

    /** allocate_slab and add_slab_to_list */
    method NewSlab(start: nat)
      requires Shape() && Unlisted(links.lists, |slabs|)
      modifies this`slabs, links
      ensures Shape() && slabs == old(slabs) + [Slab(start, FreshObjects(start, size, n), EMPTY)]
      ensures links.lists == Put(old(links.lists), EMPTY, |old(slabs)|)
    {
      var free := BuildFreeList(start, size, n);
      links.NewNode();
      slabs := slabs + [Slab(start, free, EMPTY)];
      links.Add(|slabs| - 1, EMPTY);
    }

    /** Stores the slab's new record and moves it between the lists, unlinking under the old state. */
    method Relist(s: nat, sl: Slab, st: nat)
      requires Shape() && s < |slabs| && sl.state < 3 && st < 3 && s in links.lists[sl.state]
      modifies this`slabs, links
      ensures Shape() && View() == Move(old(View()), s, sl, st)
    {
      slabs := slabs[s := sl.(state := st)];
      if st != sl.state {
        DistinctDel(links.lists, sl.state, s);
        links.Remove(s, sl.state);
        links.Add(s, st);
      }
    }

    /** The choice of a slab in slab_alloc. */
    method PickSlab(mem: Option<nat>) returns (s: int)
      requires Valid()
      modifies this`slabs, links
      ensures Shape() && View() == Pick(old(View()), mem).0
      ensures s == match Pick(old(View()), mem).1 case None => NULL case Some(x) => x
    {
      s := links.First(PARTIAL);
      if s == NULL {
        s := links.First(EMPTY);
      }
      if s == NULL && mem.Some? {
        NotListed(View());
        s := |slabs|;
        NewSlab(mem.value);
      }
    }

    /** slab_alloc */
    method SlabAlloc(mem: Option<nat>) returns (r: Option<nat>)
      requires Valid() && (mem.Some? ==> Fresh(View(), mem.value))
      modifies this`slabs, links
      ensures Valid() && View() == Alloc(old(View()), mem).0 && r == Alloc(old(View()), mem).1
    {
      AllocKeeps(View(), mem);
      PickKeeps(View(), mem);
      var s := PickSlab(mem);
      if s == NULL {
        return None;
      }
      var sl := slabs[s];
      r := Some(sl.free[0]);
      Relist(s, sl.(free := sl.free[1..]), if sl.free[1..] == [] then FULL else PARTIAL);
    }

    /** The walk of slab_free over one list. */
    method FindIn(o: nat, a: nat) returns (s: int)
      requires Shape() && o < 3 && WellFormed(View())
      ensures NULL <= s < |slabs|
      ensures s != NULL ==> Holds(View(), slabs[s], a)
      ensures s == NULL ==> forall i :: 0 <= i < |links.lists[o]| ==> !Holds(View(), slabs[links.lists[o][i]], a)
    {
      s := links.First(o);
      ghost var i := 0;
      while s != NULL && !(slabs[s].start <= a < slabs[s].start + n * size)
        invariant 0 <= i <= |links.lists[o]| && s == At(links.lists[o], i)
        invariant forall j :: 0 <= j < i ==> !Holds(View(), slabs[links.lists[o][j]], a)
        decreases |links.lists[o]| - i
      {
        s := links.Next(o, s, i);
        i := i + 1;
      }
    }

    /** The search of slab_free: the slab whose object area holds the address, if there is one. */
    method FindSlab(a: nat) returns (s: int)
      requires Valid()
      ensures NULL <= s < |slabs|
      ensures s != NULL ==> Holds(View(), slabs[s], a)
      ensures s == NULL ==> forall t :: 0 <= t < |slabs| ==> !Holds(View(), slabs[t], a)
    {
      s := FindIn(FULL, a);
      if s != NULL {
        return;
      }
      s := FindIn(PARTIAL, a);
      if s != NULL {
        return;
      }
      s := FindIn(EMPTY, a);
      if s == NULL {
        forall t | 0 <= t < |slabs|
          ensures !Holds(View(), slabs[t], a)
        {
          assert t in links.lists[ListOf(|slabs[t].free|, n)];
        }
      }
    }

    /** slab_free of a live object, or of an address that no slab holds. */
    method SlabFree(a: nat)
      requires Valid()
      requires forall s :: 0 <= s < |slabs| && Holds(View(), slabs[s], a) ==>
                 IsObject(slabs[s].start, size, n, a) && a !in slabs[s].free
      modifies this`slabs, links
      ensures Valid()
      ensures forall s :: 0 <= s < |old(slabs)| && Holds(old(View()), old(slabs)[s], a) ==>
          View() == Free(old(View()), s, a)
      ensures (forall s :: 0 <= s < |old(slabs)| ==> !Holds(old(View()), old(slabs)[s], a)) ==> View() == old(View())
    {
      var s := FindSlab(a);
      if s == NULL {
        return;
      }
      OneHolder(View(), s, a);
      FreeKeeps(View(), s, a);
      var sl := slabs[s];
      assert s in links.lists[ListOf(|sl.free|, n)];
      Relist(s, sl.(free := [a] + sl.free), if |[a] + sl.free| == n then EMPTY else PARTIAL);
    }
  }

  lemma NotListed(c: Cache)
    requires WellFormed(c)
    ensures Unlisted(c.lists, |c.slabs|)
  {
  }

  /** Object areas are apart, so an address has at most one slab. */
  lemma OneHolder(c: Cache, s: nat, a: nat)
    requires Inv(c) && s < |c.slabs| && Holds(c, c.slabs[s], a)
    ensures forall t :: 0 <= t < |c.slabs| && Holds(c, c.slabs[t], a) ==> t == s
  {
  }

  /** The free-list loop of allocate_slab. */
  method BuildFreeList(start: nat, size: nat, n: nat) returns (free: seq<nat>)
    ensures free == FreshObjects(start, size, n)
  {
    free := [];
    var obj := start;
    for i := 0 to n
      invariant free == FreshObjects(start, size, i) && obj == ObjectAt(start, size, i)
    {
      free := [obj] + free;
      obj := obj + size;
      NextObject(start, size, i);
    }
  }

  lemma NextObject(start: nat, size: nat, i: nat)
    ensures ObjectAt(start, size, i + 1) == ObjectAt(start, size, i) + size
  {
    Distribute(i, 1, size);
  }

  // ---------------------------------------------------------------- unlinking as written

  /** The one slab a cache ever has, by its free objects; None before the first allocation. */
  type OneSlab = Option<seq<nat>>

  /** What slab_alloc does as written. */
  function WrittenAlloc(v: OneSlab, size: nat, n: nat, mem: Option<nat>): (OneSlab, Option<nat>) {
    if v.None? && mem.None? then (None, None)
    else
      var free := if v.Some? then v.value else FreshObjects(mem.value, size, n);
      if free == [] then (Some(free), None) else (Some(free[1..]), Some(free[0]))
  }

  /** What slab_free does as written, for an address in the slab. */
  function WrittenFree(v: OneSlab, a: nat): OneSlab {
    if v.None? then None else Some([a] + v.value)
  }

  class SlabCache {
    const size: nat
    const n: nat
    const links: NL.NodeLists
    var slabs: seq<Slab>

    ghost function View(): OneSlab
      reads this
    {
      if slabs == [] then None else Some(slabs[0].free)
    }

    /** There is at most one slab, its free list names distinct objects of it, and its state is what their number
        dictates. It has no neighbours, and the heads of the empty list and of its own list both point to it; the other
        heads are null or point to it as well. */
    ghost predicate Valid()
      reads this, links
    {
      && size > 0 && |slabs| <= 1
      && (slabs != [] ==> FreeOk(slabs[0], size, n) && slabs[0].state == ListOf(|slabs[0].free|, n))
      && |links.next| == |links.prev| == |slabs| && |links.heads| == 3
      && (slabs == [] ==> links.heads == [NULL, NULL, NULL])
      && (slabs != [] ==>
            && links.next[0] == NULL && links.prev[0] == NULL && slabs[0].state < 3
            && links.heads[EMPTY] == 0 && links.heads[slabs[0].state] == 0
            && (links.heads[PARTIAL] == NULL || links.heads[PARTIAL] == 0)
            && (links.heads[FULL] == NULL || links.heads[FULL] == 0))
    }

    constructor (objectSize: nat)
      requires objectSize > 0
      ensures Valid() && slabs == [] && size == AlignSize(objectSize) && n == ObjectsPerSlab(size) && fresh(links)
    {
      size := AlignSize(objectSize);
      n := ObjectsPerSlab(AlignSize(objectSize));
      links := new NL.NodeLists(0, 3);
      slabs := [];
      new;
      assert links.heads == [NULL, NULL, NULL];
    }

    /** allocate_slab and add_slab_to_list, for the first slab */
    method FirstSlab(start: nat)
      requires Valid() && slabs == []
      modifies this`slabs, links
      ensures Valid() && slabs == [Slab(start, FreshObjects(start, size, n), EMPTY)] && links.heads == [0, NULL, NULL]
    {
      var free := BuildFreeList(start, size, n);
      FreshObjectsFacts(start, size, n);
      links.Extend();
      slabs := [Slab(start, free, EMPTY)];
      links.Link(0, EMPTY);
    }

    /** Stores the new state, then unlinks under that new state and relinks. */
    method Relist(s: nat, free: seq<nat>, st: nat)
      requires Valid() && s < |slabs| && st == ListOf(|free|, n) && FreeOk(slabs[s].(free := free), size, n)
      modifies this`slabs, links
      ensures Valid() && |slabs| == old(|slabs|) && View() == Some(free) && slabs[0].start == old(slabs[0].start)
      ensures slabs[0].state == st && links.heads == old(links.heads)[st := 0]
    {
      var before := slabs[s].state;
      slabs := slabs[s := slabs[s].(free := free, state := st)];
      if before != slabs[s].state {
        links.Unlink(s, slabs[s].state);
        links.Link(s, slabs[s].state);
      }
    }

    /** slab_alloc as written: while the one slab is used up every call fails, whatever memory there is. Each list head
        the slab has ever been on keeps pointing to it. */
    method SlabAlloc(mem: Option<nat>) returns (r: Option<nat>)
      requires Valid()
      modifies this`slabs, links
      ensures Valid() && |slabs| <= 1
      ensures View() == WrittenAlloc(old(View()), size, n, mem).0 && r == WrittenAlloc(old(View()), size, n, mem).1
      ensures r.Some? ==> slabs[0].state == (if View() == Some([]) then FULL else PARTIAL)
      ensures r.Some? ==>
               links.heads == (if old(slabs) == [] then [0, NULL, NULL] else old(links.heads))[slabs[0].state := 0]
    {
      var s := links.heads[PARTIAL];
      if s == NULL {
        s := links.heads[EMPTY];
      }
      if s == NULL {
        if mem.None? {
          return None;
        }
        FirstSlab(mem.value);
        s := 0;
      }
      var free := slabs[s].free;
      if free == [] {
        return None;
      }
      NoDupTail(free);
      assert forall a :: a in free[1..] ==> a in free;
      Relist(s, free[1..], if free[1..] == [] then FULL else PARTIAL);
      return Some(free[0]);
    }

    /** The one slab's object area holds the address. */
    predicate InSlab(a: nat)
      reads this
    {
      slabs != [] && slabs[0].start <= a < slabs[0].start + n * size
    }

    /** The walk of slab_free from one list head. */
    method FindIn(o: nat, a: nat) returns (s: int)
      requires Valid() && o < 3
      ensures s == if InSlab(a) && links.heads[o] == 0 then 0 else NULL
    {
      s := links.heads[o];
      while s != NULL && !(slabs[s].start <= a < slabs[s].start + n * size)
        invariant s == NULL || (s == 0 && links.heads[o] == 0)
        invariant s == NULL ==> links.heads[o] == NULL || !InSlab(a)
        decreases s
      {
        s := links.next[s];
      }
    }

    /** slab_free as written, of a live object: the empty list's head always leads to the slab, so the object is found
        whatever list its slab should be on. Addresses outside the slab are ignored. */
    method SlabFree(a: nat)
      requires Valid() && (InSlab(a) ==> IsObject(slabs[0].start, size, n, a) && a !in slabs[0].free)
      modifies this`slabs, links
      ensures Valid()
      ensures old(slabs) != [] ==> slabs != [] && slabs[0].start == old(slabs[0].start)
      ensures View() == if old(InSlab(a)) then WrittenFree(old(View()), a) else old(View())
      ensures old(InSlab(a)) ==> slabs[0].state == (if |View().value| == n then EMPTY else PARTIAL)
      ensures old(InSlab(a)) ==> links.heads == old(links.heads)[slabs[0].state := 0]
    {
      var s := FindIn(FULL, a);
      if s == NULL {
        s := FindIn(PARTIAL, a);
      }
      if s == NULL {
        s := FindIn(EMPTY, a);
      }
      if s == NULL {
        return;
      }
      var free := [a] + slabs[s].free;
      NoDupCons(a, slabs[s].free);
      ObjectsBound(slabs[s].start, size, n, free);
      Relist(s, free, if |free| == n then EMPTY else PARTIAL);
    }

    /** What slab_cache_shrink works on. */
    ghost function ShrinkView(): Shrinking
      requires Valid() && slabs != []
      reads this, links
    {
      Shrinking(links.heads, links.next[0], links.prev[0], slabs[0].state)
    }

    /** One round of slab_cache_shrink: the unlink under the slab's state, and free_slab, after which buddy_free has put
        its own words where the slab keeps its links. Through a link that is no longer null the unlink writes into
        another free block, which is not part of the cache. */
    method ShrinkRound(junkNext: int, junkPrev: int)
      requires |slabs| == 1 && |links.next| == |links.prev| == 1 && |links.heads| == 3 && slabs[0].state < 3
      requires links.heads[EMPTY] == 0
      modifies links`heads, links`next, links`prev
      ensures |links.next| == |links.prev| == 1
      ensures Shrinking(links.heads, links.next[0], links.prev[0], slabs[0].state) ==
              Round(old(Shrinking(links.heads, links.next[0], links.prev[0], slabs[0].state)), junkNext, junkPrev)
    {
      var s := links.heads[EMPTY];
      if links.prev[s] == NULL {
        links.heads := links.heads[slabs[s].state := links.next[s]];
      }
      links.next := links.next[s := junkNext];
      links.prev := links.prev[s := junkPrev];
    }

    /** slab_cache_shrink ends if and only if the cache has no slab or all objects of its slab are back. When it ends,
        every list the slab has been on but the empty one still leads to the block that was given back. */
    lemma ShrinkEnds(junk: seq<(int, int)>)
      requires Valid() && junk != []
      ensures links.heads[EMPTY] == NULL <==> slabs == []
      ensures slabs != [] ==>
                && (Rounds(ShrinkView(), junk).heads[EMPTY] == NULL <==> |slabs[0].free| == n)
                && (|slabs[0].free| == n ==> Rounds(ShrinkView(), junk).heads == links.heads[EMPTY := NULL])
    {
      if slabs != [] {
        ShrinkEndsIff(ShrinkView(), junk);
      }
    }
  }

  // ---------------------------------------------------------------- slab_cache_shrink

  /** The list heads, and the links and state of the one slab. */
  datatype Shrinking = Shrinking(heads: seq<int>, next: int, prev: int, state: nat)

  /** One round; free_slab leaves the given words in the slab's links. */
  function Round(s: Shrinking, junkNext: int, junkPrev: int): (r: Shrinking)
    requires |s.heads| == 3 && s.state < 3
    ensures |r.heads| == 3 && r.state == s.state
  {
    s.(heads := if s.prev == NULL then s.heads[s.state := s.next] else s.heads, next := junkNext, prev := junkPrev)
  }

  /** As many rounds as there are words given, or fewer when the loop ends. */
  function Rounds(s: Shrinking, junk: seq<(int, int)>): (r: Shrinking)
    requires |s.heads| == 3 && s.state < 3
    ensures |r.heads| == 3
    decreases |junk|
  {
    if junk == [] || s.heads[EMPTY] == NULL then s else Rounds(Round(s, junk[0].0, junk[0].1), junk[1..])
  }

  /** While the slab is not empty no round changes the head of the empty list, whatever its links have become. */
  lemma {:induction false} ShrinkNeverEnds(s: Shrinking, junk: seq<(int, int)>)
    requires |s.heads| == 3 && EMPTY < s.state < 3 && s.heads[EMPTY] == 0
    ensures Rounds(s, junk).heads[EMPTY] == 0
    decreases |junk|
  {
    if junk != [] {
      ShrinkNeverEnds(Round(s, junk[0].0, junk[0].1), junk[1..]);
    }
  }

  lemma ShrinkEndsIff(s: Shrinking, junk: seq<(int, int)>)
    requires |s.heads| == 3 && s.state < 3 && s.heads[EMPTY] == 0 && s.next == NULL && s.prev == NULL && junk != []
    ensures Rounds(s, junk).heads[EMPTY] == NULL <==> s.state == EMPTY
    ensures s.state == EMPTY ==> Rounds(s, junk).heads == s.heads[EMPTY := NULL]
  {
    if s.state != EMPTY {
      ShrinkNeverEnds(s, junk);
    } else {
      var t := Round(s, junk[0].0, junk[0].1);
      assert t.heads[EMPTY] == NULL;
      assert Rounds(t, junk[1..]) == t;
    }
  }

  // ---------------------------------------------------------------- the two orders compared

  /** A run as written, by the operations of SlabProofs. */
  function WrittenRun(v: OneSlab, size: nat, n: nat, ops: seq<Op>): OneSlab {
    if ops == [] then v
    else
      var before := WrittenRun(v, size, n, ops[..|ops| - 1]);
      match ops[|ops| - 1]
      case AllocOp(mem) => WrittenAlloc(before, size, n, mem).0
      case FreeOp(_, a) => WrittenFree(before, a)
  }

  /** k allocations in a row; memory for a slab is offered to the first. */
  function Allocations(start: nat, k: nat): (ops: seq<Op>)
    requires k > 0
    ensures |ops| == k
  {
    [AllocOp(Some(start))] + seq(k - 1, _ => AllocOp(None))
  }

  /** As many allocations as a slab has objects use it up. */
  lemma {:induction false} WrittenExhausts(size: nat, n: nat, k: nat, start: nat)
    requires 0 < k <= n
    ensures |FreshObjects(start, size, n)| == n
    ensures WrittenRun(None, size, n, Allocations(start, k)) == Some(FreshObjects(start, size, n)[k..])
    ensures var before := WrittenRun(None, size, n, Allocations(start, k)[..k - 1]);
            WrittenAlloc(before, size, n, Some(start)).1 == Some(FreshObjects(start, size, n)[k - 1])
  {
    FreshLength(start, size, n);
    var ops := Allocations(start, k);
    if k > 1 {
      assert ops[..k - 1] == Allocations(start, k - 1);
      WrittenExhausts(size, n, k - 1, start);
      assert FreshObjects(start, size, n)[k - 1..][1..] == FreshObjects(start, size, n)[k..];
    } else {
      assert ops[..0] == [];
    }
  }

  lemma {:induction false} FreshLength(start: nat, size: nat, n: nat)
    ensures |FreshObjects(start, size, n)| == n
  {
    if n > 0 {
      FreshLength(start, size, n - 1);
    }
  }

  /** After the same n allocations from a new cache, with memory at hand for another slab, the next allocation fails as
      written and succeeds with the unlink under the old state. As written it fails whatever memory is offered, until
      an object is freed. */
  lemma OrdersDiffer(empty: Cache, start: nat, c: Cache, area: nat, mem: Option<nat>, a: nat)
    requires Inv(empty) && empty.slabs == [] && RunsTo(empty, Allocations(start, empty.n), c) && Fresh(c, area)
    ensures var n, size := empty.n, empty.size;
            var v := WrittenRun(None, size, n, Allocations(start, n));
            && WrittenAlloc(v, size, n, mem) == (v, None)
            && WrittenAlloc(WrittenFree(v, a), size, n, mem).1 == Some(a)
    ensures WellFormed(c) && Alloc(c, Some(area)).1.Some?
  {
    WrittenExhausts(empty.size, empty.n, empty.n, start);
    RunKeeps(empty, Allocations(start, empty.n), c);
    AllocKeeps(c, Some(area));
  }
}
