/** Intrusive doubly linked lists over one set of nodes, one head per list: the free lists of mm/allocators/buddy.c,
    whose nodes are free blocks named by their first page, and the slab lists of mm/allocators/slab.c. NULL is -1. */
module NodeLists {
  import opened Links

  /** Starting at `head`, the links spell out l in both directions. */
  ghost predicate Linked(next: seq<int>, prev: seq<int>, l: seq<nat>, head: int) {
    && |next| == |prev|
    && head == At(l, 0)
    && (forall i :: 0 <= i < |l| ==> l[i] < |next|)
    && (forall i {:trigger next[l[i]]} :: 0 <= i < |l| ==> next[l[i]] == At(l, i + 1))
    && (forall i {:trigger prev[l[i]]} :: 0 <= i < |l| ==> prev[l[i]] == At(l, i - 1))
  }

  /** The link updates of add_to_free_list. */
  function AddNext(next: seq<int>, head: int, x: nat): seq<int>
    requires x < |next|
  {
    next[x := head]
  }

  function AddPrev(prev: seq<int>, head: int, x: nat): seq<int>
    requires x < |prev| && head < |prev|
  {
    var p := prev[x := NULL];
    if 0 <= head then p[head := x] else p
  }

  lemma LinkAdd(next: seq<int>, prev: seq<int>, l: seq<nat>, head: int, x: nat)
    requires Linked(next, prev, l, head) && NoDup(l) && x !in l && x < |next|
    ensures Linked(AddNext(next, head, x), AddPrev(prev, head, x), [x] + l, x)
  {
    var l' := [x] + l;
    forall i | 0 <= i < |l'|
      ensures AddNext(next, head, x)[l'[i]] == At(l', i + 1)
      ensures AddPrev(prev, head, x)[l'[i]] == At(l', i - 1)
    {
      if i > 0 {
        assert l'[i] == l[i - 1];
      }
    }
  }

  /** The link updates of remove_from_free_list. */
  function DelNext(next: seq<int>, prev: seq<int>, x: nat): seq<int>
    requires x < |next| && x < |prev| && prev[x] < |next|
  {
    var n := if 0 <= prev[x] then next[prev[x] := next[x]] else next;
    n[x := NULL]
  }

  function DelPrev(next: seq<int>, prev: seq<int>, x: nat): seq<int>
    requires x < |next| && x < |prev| && next[x] < |prev|
  {
    var p := if 0 <= next[x] then prev[next[x] := prev[x]] else prev;
    p[x := NULL]
  }

  lemma LinkRemoveAt(next: seq<int>, prev: seq<int>, l: seq<nat>, head: int, k: nat, j: nat)
    requires Linked(next, prev, l, head) && NoDup(l) && k < |l| && j < |l| && j != k
    ensures prev[l[k]] == At(l, k - 1) && next[l[k]] == At(l, k + 1)
    ensures prev[l[k]] < |next| && next[l[k]] < |prev|
    ensures DelNext(next, prev, l[k])[l[j]] == if j == k - 1 then At(l, k + 1) else At(l, j + 1)
    ensures DelPrev(next, prev, l[k])[l[j]] == if j == k + 1 then At(l, k - 1) else At(l, j - 1)
  {
    assert next[l[j]] == At(l, j + 1) && prev[l[j]] == At(l, j - 1);
    assert prev[l[k]] == At(l, k - 1) && next[l[k]] == At(l, k + 1);
    assert At(l, k - 1) == l[j] ==> j == k - 1;
    assert At(l, k + 1) == l[j] ==> j == k + 1;
  }

  lemma RemovedIndex(l: seq<nat>, k: nat, m: seq<nat>, i: nat)
    requires k < |l| && m == l[..k] + l[k + 1..] && i < |m|
    ensures var j := if i < k then i else i + 1;
            && m[i] == l[j]
            && At(m, i + 1) == (if j == k - 1 then At(l, k + 1) else At(l, j + 1))
            && At(m, i - 1) == (if j == k + 1 then At(l, k - 1) else At(l, j - 1))
  {
  }

  lemma LinkRemove(next: seq<int>, prev: seq<int>, l: seq<nat>, head: int, k: nat, m: seq<nat>)
    requires Linked(next, prev, l, head) && NoDup(l) && k < |l| && m == l[..k] + l[k + 1..]
    ensures prev[l[k]] == At(l, k - 1) && next[l[k]] == At(l, k + 1)
    ensures prev[l[k]] < |next| && next[l[k]] < |prev|
    ensures Linked(DelNext(next, prev, l[k]), DelPrev(next, prev, l[k]), m, if prev[l[k]] < 0 then next[l[k]] else head)
  {
    var x := l[k];
    assert prev[x] == At(l, k - 1) && next[x] == At(l, k + 1);
    assert (if prev[x] < 0 then next[x] else head) == At(m, 0);
    var next', prev' := DelNext(next, prev, x), DelPrev(next, prev, x);
    forall i | 0 <= i < |m|
      ensures m[i] < |next| && next'[m[i]] == At(m, i + 1) && prev'[m[i]] == At(m, i - 1)
    {
      RemovedIndex(l, k, m, i);
      LinkRemoveAt(next, prev, l, head, k, if i < k then i else i + 1);
    }
  }

  /** Links of a list whose nodes are not touched stay as they are. */
  lemma LinkFrame(next: seq<int>, prev: seq<int>, next': seq<int>, prev': seq<int>, l: seq<nat>, head: int)
    requires Linked(next, prev, l, head) && |next'| == |prev'| == |next|
    requires forall y :: y in l && y < |next| ==> next'[y] == next[y] && prev'[y] == prev[y]
    ensures Linked(next', prev', l, head)
  {
    assert forall i :: 0 <= i < |l| ==> l[i] in l;
  }

  /** Unlinking from one list leaves a disjoint list alone. */
  lemma LinkRemoveOther(next: seq<int>, prev: seq<int>, l: seq<nat>, head: int, k: nat, m: seq<nat>, mhead: int)
    requires Linked(next, prev, l, head) && k < |l| && Linked(next, prev, m, mhead)
    requires forall y :: y in l ==> y !in m
    ensures prev[l[k]] == At(l, k - 1) && next[l[k]] == At(l, k + 1)
    ensures prev[l[k]] < |next| && next[l[k]] < |prev|
    ensures Linked(DelNext(next, prev, l[k]), DelPrev(next, prev, l[k]), m, mhead)
  {
    assert prev[l[k]] == At(l, k - 1) && next[l[k]] == At(l, k + 1);
    assert l[k] in l && (k > 0 ==> l[k - 1] in l) && (k + 1 < |l| ==> l[k + 1] in l);
    LinkFrame(next, prev, DelNext(next, prev, l[k]), DelPrev(next, prev, l[k]), m, mhead);
  }

  /** Every list is linked from its head. */
  ghost predicate AllLinked(next: seq<int>, prev: seq<int>, heads: seq<int>, lists: seq<seq<nat>>) {
    |heads| == |lists| && forall o :: 0 <= o < |lists| ==> Linked(next, prev, lists[o], heads[o])
  }

  /** Linking an unlisted node at the head of list o. */
  lemma AllLinkedAdd(next: seq<int>, prev: seq<int>, heads: seq<int>, lists: seq<seq<nat>>, o: nat, x: nat)
    requires AllLinked(next, prev, heads, lists) && Distinct(lists) && Unlisted(lists, x) && o < |lists|
    requires x < |next| == |prev|
    ensures NULL <= heads[o] < |prev|
    ensures AllLinked(AddNext(next, heads[o], x), AddPrev(prev, heads[o], x), heads[o := x], Put(lists, o, x))
    ensures Distinct(Put(lists, o, x))
  {
    var l, head := lists[o], heads[o];
    assert Linked(next, prev, l, head);
    LinkAdd(next, prev, l, head, x);
    assert head in l || head == NULL;
    forall p | 0 <= p < |lists| && p != o
      ensures Linked(AddNext(next, head, x), AddPrev(prev, head, x), lists[p], heads[p])
    {
      LinkFrame(next, prev, AddNext(next, head, x), AddPrev(prev, head, x), lists[p], heads[p]);
    }
  }

  /** Unlinking a node of list o, pointer by pointer, removes it from that list and leaves the others alone. */
  lemma AllLinkedDel(next: seq<int>, prev: seq<int>, heads: seq<int>, lists: seq<seq<nat>>, o: nat, x: nat)
    requires AllLinked(next, prev, heads, lists) && Distinct(lists) && o < |lists| && x in lists[o]
    ensures x < |next| == |prev| && NULL <= prev[x] < |next| && NULL <= next[x] < |next| && prev[x] != x
    ensures AllLinked(DelNext(next, prev, x), DelPrev(next, prev, x),
                      if prev[x] < 0 then heads[o := next[x]] else heads, Del(lists, o, x))
  {
    var l, head := lists[o], heads[o];
    var k :| 0 <= k < |l| && l[k] == x;
    assert Linked(next, prev, l, head);
    RemoveAt(l, k);
    LinkRemove(next, prev, l, head, k, Del(lists, o, x)[o]);
    forall p | 0 <= p < |lists| && p != o
      ensures Linked(DelNext(next, prev, x), DelPrev(next, prev, x), lists[p], heads[p])
    {
      LinkRemoveOther(next, prev, l, head, k, lists[p], heads[p]);
    }
  }

  class NodeLists {
    var next: seq<int>
    var prev: seq<int>
    var heads: seq<int>
    ghost var lists: seq<seq<nat>>

    ghost predicate Valid()
      reads this
    {
      |next| == |prev| && Distinct(lists) && AllLinked(next, prev, heads, lists)
    }

    constructor (nodes: nat, count: nat)
      ensures Valid() && |next| == nodes
      ensures lists == seq(count, _ => [])
    {
      next := seq(nodes, _ => NULL);
      prev := seq(nodes, _ => NULL);
      heads := seq(count, _ => NULL);
      lists := seq(count, _ => []);
    }

    lemma NodeBound(o: nat, x: nat)
      requires Valid() && o < |lists| && x in lists[o]
      ensures x < |next|
    {
      assert Linked(next, prev, lists[o], heads[o]);
      var i :| 0 <= i < |lists[o]| && lists[o][i] == x;
    }

    method First(o: nat) returns (x: int)
      requires Valid() && o < |lists|
      ensures x == At(lists[o], 0)
    {
      assert Linked(next, prev, lists[o], heads[o]);
      x := heads[o];
    }

    /** The node after position i of list o. */
    method Next(o: nat, node: nat, ghost i: nat) returns (x: int)
      requires Valid() && o < |lists| && i < |lists[o]| && node == lists[o][i]
      ensures x == At(lists[o], i + 1)
    {
      assert Linked(next, prev, lists[o], heads[o]);
      x := next[node];
    }

    /** The list walk of try_merge. */
    method Find(o: nat, b: nat) returns (found: bool)
      requires Valid() && o < |lists|
      ensures found <==> b in lists[o]
    {
      ghost var l, i := lists[o], 0;
      var node := First(o);
      while node != NULL && node != b
        invariant 0 <= i <= |l| && node == At(l, i) && b !in l[..i]
        decreases |l| - i
      {
        node := Next(o, node, i);
        assert l[..i + 1] == l[..i] + [l[i]];
        i := i + 1;
      }
      found := node != NULL;
      if found {
        assert l[i] in l;
      } else {
        assert l[..i] == l;
      }
    }

    /** The list walk of buddy_get_free_memory. */
    method Count(o: nat) returns (n: nat)
      requires Valid() && o < |lists|
      ensures n == |lists[o]|
    {
      n := 0;
      var node := First(o);
      while node != NULL
        invariant n <= |lists[o]| && node == At(lists[o], n)
        decreases |lists[o]| - n
      {
        node := Next(o, node, n);
        n := n + 1;
      }
    }

    /** The pointer updates of add_to_free_list and add_slab_to_list. */
    method Link(x: nat, o: nat)
      requires |next| == |prev| && x < |next| && o < |heads| && NULL <= heads[o] < |prev|
      modifies this`next, this`prev, this`heads
      ensures next == AddNext(old(next), old(heads[o]), x) && prev == AddPrev(old(prev), old(heads[o]), x)
      ensures heads == old(heads)[o := x]
    {
      next := next[x := heads[o]];
      prev := prev[x := NULL];
      if heads[o] != NULL {
        prev := prev[heads[o] := x];
      }
      heads := heads[o := x];
    }

    /** Adds an unlisted node at the head of list o. */
    method Add(x: nat, o: nat)
      requires Valid() && x < |next| && o < |lists|
      requires Unlisted(lists, x)
      modifies this
      ensures Valid() && lists == Put(old(lists), o, x) && |next| == old(|next|)
    {
      AllLinkedAdd(next, prev, heads, lists, o, x);
      Link(x, o);
      lists := Put(lists, o, x);
    }

    /** Room for one more node. */
    method Extend()
      modifies this`next, this`prev
      ensures next == old(next) + [NULL] && prev == old(prev) + [NULL]
    {
      next := next + [NULL];
      prev := prev + [NULL];
    }

    /** A new node, on no list. */
    method NewNode()
      requires Valid()
      modifies this`next, this`prev
      ensures Valid() && |next| == old(|next|) + 1
    {
      Extend();
    }

    /** The pointer updates of remove_from_free_list and remove_slab_from_list: o names the head that is fixed. */
    method Unlink(x: nat, o: nat)
      requires |next| == |prev| && x < |next| && o < |heads|
      requires NULL <= prev[x] < |next| && NULL <= next[x] < |next| && prev[x] != x
      modifies this`next, this`prev, this`heads
      ensures next == DelNext(old(next), old(prev), x) && prev == DelPrev(old(next), old(prev), x)
      ensures heads == if old(prev[x]) < 0 then old(heads)[o := old(next[x])] else old(heads)
    {
      if prev[x] != NULL {
        next := next[prev[x] := next[x]];
      } else {
        heads := heads[o := next[x]];
      }
      if next[x] != NULL {
        prev := prev[next[x] := prev[x]];
      }
      next := next[x := NULL];
      prev := prev[x := NULL];
    }

    /** Removes a node of list o. */
    method Remove(x: nat, o: nat)
      requires Valid() && o < |lists| && x in lists[o]
      modifies this
      ensures Valid() && lists == Del(old(lists), o, x) && |next| == old(|next|)
    {
      AllLinkedDel(next, prev, heads, lists, o, x);
      DistinctDel(lists, o, x);
      Unlink(x, o);
      lists := Del(lists, o, x);
    }
  }
}
