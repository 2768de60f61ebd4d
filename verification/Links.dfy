/** Linked lists whose nodes are named by naturals, and the sequences of nodes they spell out. */
module Links {

  predicate NoDup(s: seq<nat>) {
    forall i, j :: 0 <= i < j < |s| ==> s[i] != s[j]
  }

  /** Removes the first occurrence of x. */
  function Remove(s: seq<nat>, x: nat): (r: seq<nat>)
  {
    if s == [] then [] else if s[0] == x then s[1..] else [s[0]] + Remove(s[1..], x)
  }

  lemma NoDupTail(s: seq<nat>)
    requires s != [] && NoDup(s)
    ensures NoDup(s[1..]) && s[0] !in s[1..]
  {
    var t := s[1..];
    forall i, j | 0 <= i < j < |t|
      ensures t[i] != t[j]
    {
      assert t[i] == s[i + 1] && t[j] == s[j + 1];
    }
  }

  lemma {:induction false} RemoveFacts(s: seq<nat>, x: nat)
    requires NoDup(s) && x in s
    ensures NoDup(Remove(s, x))
    ensures forall y :: y in Remove(s, x) <==> y in s && y != x
    ensures |Remove(s, x)| == |s| - 1
  {
    if s[0] != x {
      var t := s[1..];
      NoDupTail(s);
      RemoveFacts(t, x);
    } else {
      NoDupTail(s);
    }
  }

  // ---------------------------------------------------------------- several lists over one set of nodes

  /** Pushes node x at the head of list o. */
  function Put(f: seq<seq<nat>>, o: nat, x: nat): (r: seq<seq<nat>>)
    requires o < |f|
    ensures |r| == |f|
  {
    f[o := [x] + f[o]]
  }

  /** Unlinks node x from list o. */
  function Del(f: seq<seq<nat>>, o: nat, x: nat): (r: seq<seq<nat>>)
    requires o < |f|
    ensures |r| == |f|
  {
    f[o := Remove(f[o], x)]
  }

  predicate Unlisted(f: seq<seq<nat>>, x: nat) {
    forall p :: 0 <= p < |f| ==> x !in f[p]
  }

  /** No node occurs twice, in one list or in two. */
  ghost predicate Distinct(f: seq<seq<nat>>) {
    && (forall o :: 0 <= o < |f| ==> NoDup(f[o]))
    && (forall o, p, x :: 0 <= o < |f| && 0 <= p < |f| && o != p && x in f[o] ==> x !in f[p])
  }

  lemma DistinctDel(f: seq<seq<nat>>, o: nat, x: nat)
    requires Distinct(f) && o < |f| && x in f[o]
    ensures Distinct(Del(f, o, x)) && Unlisted(Del(f, o, x), x)
  {
    RemoveFacts(f[o], x);
  }

  const NULL: int := -1

  lemma {:induction false} RemoveAt(l: seq<nat>, k: nat)
    requires NoDup(l) && k < |l|
    ensures Remove(l, l[k]) == l[..k] + l[k + 1..]
  {
    if k > 0 {
      NoDupTail(l);
      RemoveAt(l[1..], k - 1);
      assert l[1..][..k - 1] == l[1..k] && l[1..][k..] == l[k + 1..];
      assert l[..k] == [l[0]] + l[1..k];
    }
  }

  /** The node at position i of a list, or NULL past either end. */
  function At(l: seq<nat>, i: int): int {
    if 0 <= i < |l| then l[i] else NULL
  }

  // ---------------------------------------------------------------- singly linked lists

  /** Starting at `head`, the next links spell out l. */
  ghost predicate Chain(next: seq<int>, l: seq<nat>, head: int) {
    && head == At(l, 0)
    && (forall i :: 0 <= i < |l| ==> l[i] < |next|)
    && (forall i {:trigger next[l[i]]} :: 0 <= i < |l| ==> next[l[i]] == At(l, i + 1))
  }

  /** Links of nodes outside the list do not matter. */
  lemma ChainFrame(next: seq<int>, next': seq<int>, l: seq<nat>, head: int)
    requires Chain(next, l, head) && |next'| >= |next|
    requires forall y :: y in l && y < |next| ==> next'[y] == next[y]
    ensures Chain(next', l, head)
  {
    assert forall i :: 0 <= i < |l| ==> l[i] in l;
  }

  /** Appending a node at the tail. */
  lemma ChainAppend(next: seq<int>, l: seq<nat>, head: int, p: nat)
    requires Chain(next, l, head) && p < |next| && p !in l && NoDup(l)
    ensures var n := next[p := NULL];
            Chain(if l == [] then n else n[l[|l| - 1] := p], l + [p], if l == [] then p else head)
  {
    var n := next[p := NULL];
    var next' := if l == [] then n else n[l[|l| - 1] := p];
    var m := l + [p];
    forall i {:trigger next'[m[i]]} | 0 <= i < |m|
      ensures next'[m[i]] == At(m, i + 1)
    {
      if i < |l| {
        assert next[l[i]] == At(l, i + 1);
      }
    }
  }

  /** Bypassing the node at position k. */
  lemma ChainUnlink(next: seq<int>, l: seq<nat>, head: int, k: nat, m: seq<nat>)
    requires Chain(next, l, head) && NoDup(l) && k < |l| && m == l[..k] + l[k + 1..]
    ensures next[l[k]] == At(l, k + 1)
    ensures if k > 0 then Chain(next[l[k - 1] := next[l[k]]], m, head) else Chain(next, m, next[l[k]])
  {
    assert next[l[k]] == At(l, k + 1);
    var next' := if k > 0 then next[l[k - 1] := next[l[k]]] else next;
    forall i {:trigger next'[m[i]]} | 0 <= i < |m|
      ensures next'[m[i]] == At(m, i + 1)
    {
      var j := if i < k then i else i + 1;
      assert m[i] == l[j];
      assert next[l[j]] == At(l, j + 1);
    }
  }
}
