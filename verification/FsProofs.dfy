/** Path resolution, creation and deletion in the file system tree. */
module FsProofs {
  import opened Wrappers
  import opened Links
  import opened Errno
  import opened FsSpec

  // ---------------------------------------------------------------- normalised paths

  predicate AreNames(names: seq<string>) {
    forall i :: 0 <= i < |names| ==> names[i] != "" && '/' !in names[i]
  }

  lemma {:induction false} JoinFront(names: seq<string>)
    requires names != []
    ensures Join(names) == "/" + names[0] + Join(names[1..])
  {
    var n := |names|;
    if n > 1 {
      JoinFront(names[..n - 1]);
      assert names[..n - 1][1..] == names[1..][..n - 2];
      assert names[1..][n - 2] == names[n - 1];
    }
  }

  lemma {:induction false} HeadOf(a: string, rest: string)
    requires '/' !in a && (rest == "" || rest[0] == '/')
    ensures Head(a + rest) == a
  {
    if a != "" {
      HeadOf(a[1..], rest);
      assert (a + rest)[1..] == a[1..] + rest;
    } else {
      assert a + rest == rest;
    }
  }

  lemma JoinStarts(names: seq<string>)
    ensures names != [] ==> Join(names) != "" && Join(names)[0] == '/'
  {
    if names != [] {
      JoinFront(names);
    }
  }

  lemma {:induction false} WalkJoin(t: Tree, d: nat, names: seq<string>)
    requires Ok(t) && d < |t.nodes| && names != [] && AreNames(names)
    ensures Join(names) != "" && Walk(t, d, Join(names)[1..]) == Follow(t, d, names)
    decreases |names|
  {
    JoinFront(names);
    var rest := Join(names[1..]);
    var s := names[0] + rest;
    assert Join(names)[1..] == s;
    JoinStarts(names[1..]);
    HeadOf(names[0], rest);
    if names[1..] != [] {
      assert s[|names[0]| + 1..] == rest[1..];
      var c := Lookup(t, d, names[0]);
      if c.Some? {
        WalkJoin(t, c.value, names[1..]);
      }
    } else {
      assert s == names[0];
    }
  }

  /** Resolving a normalised path follows its components from the root. */
  lemma ResolveNormal(t: Tree, names: seq<string>)
    requires Ok(t) && AreNames(names)
    ensures Resolve(t, PathOf(names)) == Follow(t, ROOT, names)
  {
    if names != [] {
      JoinStarts(names);
      WalkJoin(t, ROOT, names);
    }
  }

  lemma {:induction false} LastSlashAt(s: string, x: string)
    requires '/' !in x
    ensures LastSlash(s + "/" + x) == |s| + 1
  {
    var p := s + "/" + x;
    if x != "" {
      var y := x[..|x| - 1];
      assert p[..|p| - 1] == s + "/" + y;
      assert p[|p| - 1] == x[|x| - 1] && x[|x| - 1] in x;
      LastSlashAt(s, y);
    }
  }

  /** vfs_basename and vfs_dirname take a normalised path apart. */
  lemma SplitPath(names: seq<string>)
    requires names != [] && AreNames(names)
    ensures Basename(PathOf(names)) == names[|names| - 1]
    ensures Dirname(PathOf(names)) == PathOf(names[..|names| - 1])
  {
    var dir := names[..|names| - 1];
    var x := names[|names| - 1];
    LastSlashAt(Join(dir), x);
    var p := Join(dir) + "/" + x;
    assert p[|Join(dir)| + 1..] == x;
    assert p[..|Join(dir)|] == Join(dir);
    JoinStarts(dir);
  }

  lemma {:induction false} FollowSnoc(t: Tree, d: nat, names: seq<string>, x: string)
    requires Ok(t) && d < |t.nodes|
    ensures Follow(t, d, names + [x]) ==
            match Follow(t, d, names) case None => None case Some(c) => Lookup(t, c, x)
    decreases |names|
  {
    var l := names + [x];
    if names == [] {
      assert l[1..] == [];
    } else {
      assert l[1..] == names[1..] + [x];
      var c := Lookup(t, d, names[0]);
      if c.Some? {
        FollowSnoc(t, c.value, names[1..], x);
      }
    }
  }

  /** Resolving a normalised path is looking up its base name in its resolved directory. */
  lemma ResolveByParts(t: Tree, names: seq<string>)
    requires Ok(t) && names != [] && AreNames(names)
    ensures var path := PathOf(names);
            Resolve(t, path) ==
            match Resolve(t, Dirname(path)) case None => None case Some(d) => Lookup(t, d, Basename(path))
  {
    SplitPath(names);
    ResolveNormal(t, names);
    ResolveNormal(t, names[..|names| - 1]);
    FollowLast(t, ROOT, names);
  }

  lemma FollowLast(t: Tree, d: nat, names: seq<string>)
    requires Ok(t) && d < |t.nodes| && names != []
    ensures Follow(t, d, names) ==
            match Follow(t, d, names[..|names| - 1]) case None => None case Some(c) => Lookup(t, c, names[|names| - 1])
  {
    assert names[..|names| - 1] + [names[|names| - 1]] == names;
    FollowSnoc(t, d, names[..|names| - 1], names[|names| - 1]);
  }

  // ---------------------------------------------------------------- one path per node

  lemma LookupFacts(t: Tree, d: nat, nm: string)
    requires Struct(t) && d < |t.nodes|
    ensures var r := Lookup(t, d, nm);
            r.Some? ==>
                r.value in t.kids[d] && t.nodes[r.value].name == nm && t.nodes[r.value].parent == d && r.value != ROOT
  {
  }

  /** A child is found under its name. */
  lemma LookupChild(t: Tree, d: nat, c: nat)
    requires Inv(t) && d < |t.nodes| && c in t.kids[d] && t.nodes[d].dir
    ensures c < |t.nodes| && Lookup(t, d, t.nodes[c].name) == Some(c)
  {
    var i := FindIn(t, t.kids[d], t.nodes[c].name);
    var j :| 0 <= j < |t.kids[d]| && t.kids[d][j] == c;
    assert i < |t.kids[d]|;
    assert t.kids[d][i] in t.kids[d];
  }

  /** Two lists of names that lead to the same node are equal. */
  lemma {:induction false} UniquePath(t: Tree, a: seq<string>, b: seq<string>)
    requires Struct(t) && Follow(t, ROOT, a).Some? && Follow(t, ROOT, a) == Follow(t, ROOT, b)
    ensures a == b
    decreases |a|
  {
    if a != [] {
      LastStep(t, a);
    }
    if b != [] {
      LastStep(t, b);
    }
    if a != [] && b != [] {
      UniquePath(t, a[..|a| - 1], b[..|b| - 1]);
      assert a == a[..|a| - 1] + [a[|a| - 1]];
      assert b == b[..|b| - 1] + [b[|b| - 1]];
    }
  }

  /** The last step of a resolution enters the node from its parent, by its name. */
  lemma LastStep(t: Tree, a: seq<string>)
    requires Struct(t) && a != [] && Follow(t, ROOT, a).Some?
    ensures var x := Follow(t, ROOT, a).value;
            && x != ROOT && t.nodes[x].parent >= 0
            && Follow(t, ROOT, a[..|a| - 1]) == Some(t.nodes[x].parent) && t.nodes[x].name == a[|a| - 1]
            && t.nodes[x].parent < |t.kids| && x in t.kids[t.nodes[x].parent] && t.nodes[t.nodes[x].parent].dir
  {
    var dir := a[..|a| - 1];
    assert a == dir + [a[|a| - 1]];
    FollowSnoc(t, ROOT, dir, a[|a| - 1]);
    LookupFacts(t, Follow(t, ROOT, dir).value, a[|a| - 1]);
  }

  // ---------------------------------------------------------------- creation

  lemma {:induction false} FindAfterAppend(t: Tree, u: Tree, l: seq<nat>, nm: string)
    requires forall j :: 0 <= j < |l| ==> l[j] < |t.nodes|
    requires |u.nodes| >= |t.nodes| && u.nodes[..|t.nodes|] == t.nodes
    ensures FindIn(u, l, nm) == FindIn(t, l, nm)
  {
    if l != [] {
      assert u.nodes[l[0]] == u.nodes[..|t.nodes|][l[0]];
      FindAfterAppend(t, u, l[1..], nm);
    }
  }

  /** What a successful creation does to every lookup. */
  lemma CreateLookup(t: Tree, d: nat, nm: string, dir: bool, e: nat, x: string)
    requires Struct(t) && d < |t.nodes| && Create(t, d, nm, dir, true).1 == E_OK && e <= |t.nodes|
    ensures var t' := Create(t, d, nm, dir, true).0;
            && Ok(t') && |t'.nodes| == |t.nodes| + 1
            && Lookup(t', e, x) ==
               if e == |t.nodes| then None
               else if e == d && x == Stored(nm) then Some(|t.nodes|)
               else Lookup(t, e, x)
  {
    var t' := Create(t, d, nm, dir, true).0;
    var n := |t.nodes|;
    CreateOk(t, d, nm, dir);
    if e < n {
      FindAfterAppend(t, t', t.kids[e], x);
      if e == d {
        assert t'.kids[d] == [n] + t.kids[d];
        assert t'.kids[d][1..] == t.kids[d];
      } else {
        assert t'.kids[e] == t.kids[e];
      }
    }
  }

  lemma CreateOk(t: Tree, d: nat, nm: string, dir: bool)
    requires Struct(t) && d < |t.nodes| && Create(t, d, nm, dir, true).1 == E_OK
    ensures var t' := Create(t, d, nm, dir, true).0;
            Ok(t') && |t'.nodes| == |t.nodes| + 1 && t'.nodes[..|t.nodes|] == t.nodes
  {
    var t' := Create(t, d, nm, dir, true).0;
    forall d', i | 0 <= d' < |t'.kids| && 0 <= i < |t'.kids[d']|
      ensures t'.kids[d'][i] < |t'.nodes|
    {
      if d' == d && i > 0 {
        assert t'.kids[d'][i] == t.kids[d][i - 1];
      }
    }
  }

  /** Every child after a creation is an old child or the new node. */
  lemma CreateKids(t: Tree, d: nat, nm: string, dir: bool, e: nat, c: nat)
    requires Struct(t) && d < |t.nodes| && Create(t, d, nm, dir, true).1 == E_OK
    requires e < |Create(t, d, nm, dir, true).0.kids| && c in Create(t, d, nm, dir, true).0.kids[e]
    ensures (e == d && c == |t.nodes|) || (e < |t.kids| && c in t.kids[e] && c < |t.nodes|)
  {
  }

  lemma NewNameDiffers(t: Tree, d: nat, nm: string, c: nat)
    requires Inv(t) && d < |t.nodes| && t.nodes[d].dir && Lookup(t, d, nm).None? && c in t.kids[d]
    ensures c < |t.nodes| && t.nodes[c].name != nm
  {
    LookupChild(t, d, c);
  }

  lemma CreateStruct(t: Tree, d: nat, nm: string, dir: bool, mem: bool)
    requires Struct(t) && d < |t.nodes|
    ensures Struct(Create(t, d, nm, dir, mem).0)
  {
    var (t', err) := Create(t, d, nm, dir, mem);
    if err == E_OK {
      var n := |t.nodes|;
      CreateLookup(t, d, nm, dir, ROOT, "");
      FreshChild(t, d);
      forall e | 0 <= e < |t'.kids|
        ensures NoDup(t'.kids[e])
      {
        assert e != d && e < n ==> t'.kids[e] == t.kids[e];
      }
      forall e, c | 0 <= e < |t'.kids| && c in t'.kids[e]
        ensures c < |t'.nodes| && t'.nodes[c].parent == e
      {
        CreateKids(t, d, nm, dir, e, c);
      }
    }
  }

  /** Creation keeps sibling names different exactly when the name as stored is not taken. The test for an existing
      child looks for the name as given, which is the same only up to 63 characters. */
  lemma CreateKeepsIff(t: Tree, d: nat, nm: string, dir: bool)
    requires Inv(t) && d < |t.nodes| && Create(t, d, nm, dir, true).1 == E_OK
    ensures Inv(Create(t, d, nm, dir, true).0) <==> Lookup(t, d, Stored(nm)).None?
  {
    var t' := Create(t, d, nm, dir, true).0;
    CreateStruct(t, d, nm, dir, true);
    if Lookup(t, d, Stored(nm)).None? {
      forall e, b, c | 0 <= e < |t'.kids| && b in t'.kids[e] && c in t'.kids[e] && b != c
        ensures t'.nodes[b].name != t'.nodes[c].name
      {
        CreateNames(t, d, nm, dir, e, b, c);
      }
    } else {
      LookupFacts(t, d, Stored(nm));
      var c := Lookup(t, d, Stored(nm)).value;
      assert c in t'.kids[d] && |t.nodes| in t'.kids[d];
      assert t'.nodes[c].name == t'.nodes[|t.nodes|].name;
    }
  }

  lemma CreateKeeps(t: Tree, d: nat, nm: string, dir: bool, mem: bool)
    requires Inv(t) && d < |t.nodes| && |nm| < MAX_FILENAME
    ensures Inv(Create(t, d, nm, dir, mem).0)
  {
    if Create(t, d, nm, dir, mem).1 == E_OK {
      CreateKeepsIff(t, d, nm, dir);
    }
  }

  lemma CreateNames(t: Tree, d: nat, nm: string, dir: bool, e: nat, b: nat, c: nat)
    requires Inv(t) && d < |t.nodes| && Create(t, d, nm, dir, true).1 == E_OK && Lookup(t, d, Stored(nm)).None?
    requires b != c
    requires var t' := Create(t, d, nm, dir, true).0;
             e < |t'.kids| && b in t'.kids[e] && c in t'.kids[e] && b < |t'.nodes| && c < |t'.nodes|
    ensures var t' := Create(t, d, nm, dir, true).0; t'.nodes[b].name != t'.nodes[c].name
  {
    CreateKids(t, d, nm, dir, e, b);
    CreateKids(t, d, nm, dir, e, c);
    if b == |t.nodes| {
      NewNameDiffers(t, d, Stored(nm), c);
    } else if c == |t.nodes| {
      NewNameDiffers(t, d, Stored(nm), b);
    }
  }

  lemma FreshChild(t: Tree, d: nat)
    requires Struct(t) && d < |t.kids|
    ensures NoDup([|t.nodes|] + t.kids[d])
  {
    var l := [|t.nodes|] + t.kids[d];
    forall i, j | 0 <= i < j < |l|
      ensures l[i] != l[j]
    {
      assert l[j] == t.kids[d][j - 1] && t.kids[d][j - 1] in t.kids[d];
    }
  }

  /** What a successful creation does to the resolution of every list of names: the new one, with the name as stored,
      leads to the new node, which has nothing below it; no other is affected. */
  lemma {:induction false} CreateResolves(t: Tree, base: seq<string>, nm: string, d: nat, dir: bool, q: seq<string>)
    requires Struct(t) && Follow(t, ROOT, base) == Some(d) && Create(t, d, nm, dir, true).1 == E_OK
    ensures var t' := Create(t, d, nm, dir, true).0;
            var target := base + [Stored(nm)];
            Ok(t') && Follow(t', ROOT, q) ==
            if q == target then Some(|t.nodes|) else if target <= q then None else Follow(t, ROOT, q)
    decreases |q|
  {
    var t' := Create(t, d, nm, dir, true).0;
    var target := base + [Stored(nm)];
    CreateLookup(t, d, nm, dir, ROOT, "");
    if q != [] {
      var ps, x := q[..|q| - 1], q[|q| - 1];
      assert q == ps + [x];
      CreateResolves(t, base, nm, d, dir, ps);
      FollowSnoc(t', ROOT, ps, x);
      FollowSnoc(t, ROOT, ps, x);
      PrefixSnoc(target, base, Stored(nm), ps, x);
      if ps == target {
        CreateLookup(t, d, nm, dir, |t.nodes|, x);
      } else if Follow(t, ROOT, ps).Some? {
        var e := Follow(t, ROOT, ps).value;
        CreateLookup(t, d, nm, dir, e, x);
        if e == d {
          UniquePath(t, ps, base);
        }
      }
    }
  }

  lemma PrefixSnoc(target: seq<string>, base: seq<string>, nm: string, ps: seq<string>, x: string)
    requires target == base + [nm]
    ensures target <= ps + [x] <==> target <= ps || (ps == base && x == nm)
    ensures ps + [x] == target <==> ps == base && x == nm
  {
    assert ps + [x] == target ==> (ps + [x])[..|ps|] == target[..|base|];
  }

  /** Below a list of names that does not resolve nothing does. */
  lemma {:induction false} NothingBelow(t: Tree, a: seq<string>, q: seq<string>)
    requires Ok(t) && Follow(t, ROOT, a).None? && a <= q
    ensures Follow(t, ROOT, q).None?
    decreases |q|
  {
    if q != a {
      NothingBelow(t, a, q[..|q| - 1]);
      FollowLast(t, ROOT, q);
    }
  }

  // ---------------------------------------------------------------- deletion

  /** The first node of l with that name is at position i, or i is the length of l. */
  predicate FirstAt(t: Tree, l: seq<nat>, nm: string, i: nat)
  {
    && i <= |l| && (i < |l| ==> Named(t, l[i], nm))
    && forall j :: 0 <= j < i ==> !Named(t, l[j], nm)
  }

  predicate Named(t: Tree, x: nat, nm: string) {
    x < |t.nodes| && t.nodes[x].name == nm
  }

  lemma FindIsFirst(t: Tree, l: seq<nat>, nm: string)
    requires forall j :: 0 <= j < |l| ==> l[j] < |t.nodes|
    ensures FirstAt(t, l, nm, FindIn(t, l, nm))
  {
  }

  /** Taking another node out does not change which node of that name comes first. */
  lemma {:induction false} FirstWithout(t: Tree, l: seq<nat>, k: nat, r: seq<nat>, nm: string, i: nat, m: nat)
    requires k < |l| && r == l[..k] + l[k + 1..] && !Named(t, l[k], nm)
    requires FirstAt(t, l, nm, i) && FirstAt(t, r, nm, m)
    ensures if i < |l| then m < |r| && r[m] == l[i] else m == |r|
  {
    if i < |l| {
      assert r[if i < k then i else i - 1] == l[i];
    }
    if m < |r| {
      assert r[m] == l[if m < k then m else m + 1];
    }
  }

  lemma {:induction false} FindAfterCut(t: Tree, l: seq<nat>, k: nat, r: seq<nat>, nm: string)
    requires k < |l| && r == l[..k] + l[k + 1..] && forall j :: 0 <= j < |l| ==> l[j] < |t.nodes|
    requires t.nodes[l[k]].name != nm
    ensures forall j :: 0 <= j < |r| ==> r[j] < |t.nodes|
    ensures var i, m := FindIn(t, l, nm), FindIn(t, r, nm);
            if i < |l| then m < |r| && r[m] == l[i] else m == |r|
  {
    FindIsFirst(t, l, nm);
    FindIsFirst(t, r, nm);
    FirstWithout(t, l, k, r, nm, FindIn(t, l, nm), FindIn(t, r, nm));
  }

  lemma {:induction false} FindAfterRemove(t: Tree, l: seq<nat>, x: nat, nm: string)
    requires NoDup(l) && x in l && forall j :: 0 <= j < |l| ==> l[j] < |t.nodes|
    requires t.nodes[x].name != nm
    ensures forall j :: 0 <= j < |Remove(l, x)| ==> Remove(l, x)[j] < |t.nodes|
    ensures var i, m := FindIn(t, l, nm), FindIn(t, Remove(l, x), nm);
            if i < |l| then m < |Remove(l, x)| && Remove(l, x)[m] == l[i] else m == |Remove(l, x)|
  {
    var k :| 0 <= k < |l| && l[k] == x;
    RemoveAt(l, k);
    FindAfterCut(t, l, k, l[..k] + l[k + 1..], nm);
  }

  /** x is on its parent's list of children. */
  predicate IsLinked(t: Tree, x: nat) {
    x < |t.nodes| && 0 <= t.nodes[x].parent < |t.kids| && x in t.kids[t.nodes[x].parent]
  }

  /** The sibling that a node hides: the first other child of its parent with its name. */
  function Hidden(t: Tree, x: nat): (r: Option<nat>)
    requires Struct(t) && IsLinked(t, x)
    ensures r.Some? ==> r.value in t.kids[t.nodes[x].parent] && r.value != x && r.value < |t.nodes|
    ensures r.Some? ==> t.nodes[r.value].name == t.nodes[x].name
    ensures r.None? ==> forall c :: c in t.kids[t.nodes[x].parent] && c != x ==> t.nodes[c].name != t.nodes[x].name
  {
    var l := Others(t, x);
    var i := FindIn(t, l, t.nodes[x].name);
    if i < |l| then Some(l[i]) else None
  }

  /** The other children of the parent of x. */
  function Others(t: Tree, x: nat): (l: seq<nat>)
    requires Struct(t) && IsLinked(t, x)
    ensures forall c :: c in l <==> c in t.kids[t.nodes[x].parent] && c != x
    ensures forall j :: 0 <= j < |l| ==> l[j] < |t.nodes| && l[j] in l
  {
    var l := t.kids[t.nodes[x].parent];
    RemoveFacts(l, x);
    assert forall j :: 0 <= j < |Remove(l, x)| ==> Remove(l, x)[j] in Remove(l, x);
    Remove(l, x)
  }

  /** What deleting the node that its name leads to does to every lookup: the node it hid comes to light. */
  lemma DeleteLookup(t: Tree, x: nat, e: nat, nm: string)
    requires Struct(t) && IsLinked(t, x) && e < |t.nodes|
    requires Lookup(t, t.nodes[x].parent, t.nodes[x].name) == Some(x)
    ensures var t' := Delete(t, x).0;
            Ok(t') && |t'.nodes| == |t.nodes| &&
            Lookup(t', e, nm) == if Lookup(t, e, nm) == Some(x) then Hidden(t, x) else Lookup(t, e, nm)
  {
    var p := t.nodes[x].parent;
    var t' := Delete(t, x).0;
    DeleteStruct(t, x);
    FindSameNodes(t, t', t'.kids[e], nm);
    LookupFacts(t, e, nm);
    if e != p {
      assert t'.kids[e] == t.kids[e];
    } else {
      assert t'.kids[p] == Others(t, x);
      if nm != t.nodes[x].name {
        FindAfterRemove(t, t.kids[p], x, nm);
      }
    }
  }

  lemma FindSameNodes(t: Tree, u: Tree, l: seq<nat>, nm: string)
    requires t.nodes == u.nodes && forall j :: 0 <= j < |l| ==> l[j] < |t.nodes|
    ensures FindIn(u, l, nm) == FindIn(t, l, nm)
  {
    assert u.nodes[..|t.nodes|] == t.nodes;
    FindAfterAppend(t, u, l, nm);
  }

  lemma DeleteStruct(t: Tree, x: nat)
    requires Struct(t) && IsLinked(t, x)
    ensures Struct(Delete(t, x).0)
  {
    var p := t.nodes[x].parent;
    var t' := Delete(t, x).0;
    RemoveFacts(t.kids[p], x);
    forall d, i | 0 <= d < |t'.kids| && 0 <= i < |t'.kids[d]|
      ensures t'.kids[d][i] < |t'.nodes|
    {
      assert t'.kids[d][i] in t'.kids[d];
    }
  }

  lemma DeleteKeeps(t: Tree, x: nat)
    requires Inv(t) && IsLinked(t, x)
    ensures Inv(Delete(t, x).0) && Hidden(t, x) == None
  {
    DeleteStruct(t, x);
    RemoveFacts(t.kids[t.nodes[x].parent], x);
  }

  /** What a list of names leads to from the place of x once x is deleted. */
  function Instead(t: Tree, x: nat, rest: seq<string>): Option<nat>
    requires Struct(t) && IsLinked(t, x)
  {
    match Hidden(t, x)
    case None => None
    case Some(z) => Follow(t, z, rest)
  }

  /** Deleting the node at `target`: the lists of names that go through it lead where they would from the sibling it
      hid, if there is one, and nowhere otherwise; no other list of names is affected. */
  lemma {:induction false} DeleteResolves(t: Tree, target: seq<string>, x: nat, q: seq<string>)
    requires Struct(t) && target != [] && Follow(t, ROOT, target) == Some(x)
    ensures var t' := Delete(t, x).0;
            IsLinked(t, x) && Struct(t') &&
            Follow(t', ROOT, q) == if target <= q then Instead(t, x, q[|target|..]) else Follow(t, ROOT, q)
    decreases |q|
  {
    VisibleNode(t, target, x);
    if q != [] {
      var base, ps, y := target[..|target| - 1], q[..|q| - 1], q[|q| - 1];
      assert q == ps + [y] && target == base + [t.nodes[x].name];
      DeleteResolves(t, target, x, ps);
      if target <= ps {
        DeleteResolves(t, target, x, base);
      }
      DeleteStep(t, Delete(t, x).0, target, base, x, ps, y);
    }
  }

  lemma DeleteStep(t: Tree, t': Tree, target: seq<string>, base: seq<string>, x: nat, ps: seq<string>, y: string)
    requires Struct(t) && IsLinked(t, x) && target == base + [t.nodes[x].name] && Follow(t, ROOT, target) == Some(x)
    requires t' == Delete(t, x).0 && Struct(t')
    requires Follow(t', ROOT, ps) == if target <= ps then Instead(t, x, ps[|target|..]) else Follow(t, ROOT, ps)
    requires target <= ps ==> Follow(t', ROOT, base) == Some(t.nodes[x].parent)
    ensures Follow(t', ROOT, ps + [y]) ==
            if target <= ps + [y] then Instead(t, x, (ps + [y])[|target|..]) else Follow(t, ROOT, ps + [y])
  {
    VisibleNode(t, target, x);
    PrefixSnoc(target, base, t.nodes[x].name, ps, y);
    TailSnoc(ps, y, |target|);
    if target <= ps {
      BelowDeleted(t, t', base, x, ps, ps[|target|..], y);
    } else {
      BesideDeleted(t, t', target, x, ps, y);
    }
  }

  lemma TailSnoc(ps: seq<string>, y: string, n: nat)
    ensures n <= |ps| ==> (ps + [y])[n..] == ps[n..] + [y]
    ensures n == |ps| + 1 ==> (ps + [y])[n..] == []
  {
  }

  /** The node that a list of names leads to is the one that its name leads to in its parent. */
  lemma VisibleNode(t: Tree, target: seq<string>, x: nat)
    requires Struct(t) && target != [] && Follow(t, ROOT, target) == Some(x)
    ensures IsLinked(t, x) && Lookup(t, t.nodes[x].parent, t.nodes[x].name) == Some(x)
    ensures Follow(t, ROOT, target[..|target| - 1]) == Some(t.nodes[x].parent)
    ensures target[|target| - 1] == t.nodes[x].name && Struct(Delete(t, x).0)
  {
    LastStep(t, target);
    FollowLast(t, ROOT, target);
    DeleteStruct(t, x);
  }

  /** One step further on a list of names that does not go through the deleted node. */
  lemma BesideDeleted(t: Tree, t': Tree, target: seq<string>, x: nat, ps: seq<string>, y: string)
    requires Struct(t) && target != [] && Follow(t, ROOT, target) == Some(x) && !(target <= ps)
    requires IsLinked(t, x) && t' == Delete(t, x).0 && Struct(t') && Follow(t', ROOT, ps) == Follow(t, ROOT, ps)
    ensures Follow(t', ROOT, ps + [y]) == if ps + [y] == target then Instead(t, x, []) else Follow(t, ROOT, ps + [y])
  {
    VisibleNode(t, target, x);
    FollowSnoc(t', ROOT, ps, y);
    FollowSnoc(t, ROOT, ps, y);
    if Follow(t, ROOT, ps).Some? {
      DeleteLookup(t, x, Follow(t, ROOT, ps).value, y);
      if Follow(t, ROOT, ps + [y]) == Some(x) {
        UniquePath(t, ps + [y], target);
      }
    }
  }

  /** One step further below the place of the deleted node. */
  lemma BelowDeleted(t: Tree, t': Tree, base: seq<string>, x: nat, ps: seq<string>, rest: seq<string>, y: string)
    requires Struct(t) && IsLinked(t, x) && Lookup(t, t.nodes[x].parent, t.nodes[x].name) == Some(x)
    requires t' == Delete(t, x).0 && Struct(t') && |base| < |ps|
    requires Follow(t', ROOT, base) == Some(t.nodes[x].parent) && Follow(t', ROOT, ps) == Instead(t, x, rest)
    ensures Follow(t', ROOT, ps + [y]) == Instead(t, x, rest + [y])
  {
    FollowSnoc(t', ROOT, ps, y);
    var h := Hidden(t, x);
    if h.Some? {
      FollowSnoc(t, h.value, rest, y);
      var e := Follow(t', ROOT, ps);
      if e.Some? {
        NotTheParent(t', base, ps, t.nodes[x].parent);
        OtherLookup(t, x, e.value, y);
      }
    }
  }

  /** A node with a longer path is another node. */
  lemma NotTheParent(t: Tree, base: seq<string>, ps: seq<string>, p: nat)
    requires Struct(t) && Follow(t, ROOT, base) == Some(p) && |base| < |ps| && Follow(t, ROOT, ps).Some?
    ensures Follow(t, ROOT, ps) != Some(p)
  {
    if Follow(t, ROOT, ps) == Some(p) {
      UniquePath(t, ps, base);
      assert false;
    }
  }

  lemma OtherLookup(t: Tree, x: nat, e: nat, y: string)
    requires Struct(t) && IsLinked(t, x) && e < |t.nodes| && e != t.nodes[x].parent
    requires Lookup(t, t.nodes[x].parent, t.nodes[x].name) == Some(x)
    ensures Ok(Delete(t, x).0) && |Delete(t, x).0.nodes| == |t.nodes| && Lookup(Delete(t, x).0, e, y) == Lookup(t, e, y)
  {
    DeleteLookup(t, x, e, y);
    LookupFacts(t, e, y);
  }

  // ---------------------------------------------------------------- the path operations

  /** The components under which a created node is found: the last one as stored. */
  function StoredNames(names: seq<string>): (r: seq<string>)
    requires names != []
    ensures r != [] && r[..|r| - 1] == names[..|names| - 1]
    ensures AreNames(names) ==> AreNames(r)
  {
    names[..|names| - 1] + [Stored(names[|names| - 1])]
  }

  /** vfs_create_file and vfs_create_directory on a normalised path: the result code says exactly what stood in the way.
      Success makes the path as stored lead to the new node, hides whatever was below a node of that name, and changes
      no other path. */
  lemma CreatePathEffect(t: Tree, names: seq<string>, dir: bool, mem: bool, q: seq<string>)
    requires Struct(t) && names != [] && AreNames(names) && AreNames(q)
    ensures var (t', err) := CreatePath(t, PathOf(names), dir, mem);
            var parent := Resolve(t, PathOf(names[..|names| - 1]));
            var target := StoredNames(names);
            && Struct(t')
            && (err == E_INVALID <==> parent.None?)
            && (err == E_NOTDIR <==> parent.Some? && !t.nodes[parent.value].dir)
            && (err == E_EXISTS <==> Resolve(t, PathOf(names)).Some?)
            && (err == E_OK || err == E_NOMEM <==>
                  parent.Some? && t.nodes[parent.value].dir && Resolve(t, PathOf(names)).None?)
            && (err == E_NOMEM ==> !mem) && (err == E_OK ==> mem)
            && (err != E_OK ==> t' == t)
            && (err == E_OK ==> |t'.nodes| == |t.nodes| + 1 && t'.nodes[|t.nodes|].dir == dir)
            && (err == E_OK ==>
                  Resolve(t', PathOf(q)) ==
                  (if q == target then Some(|t.nodes|) else if target <= q then None else Resolve(t, PathOf(q))))
            && (err == E_OK && Inv(t) ==> (Inv(t') <==> Resolve(t, PathOf(target)).None?))
  {
    var base, nm := names[..|names| - 1], names[|names| - 1];
    SplitPath(names);
    ResolveNormal(t, base);
    ResolveNormal(t, names);
    ResolveNormal(t, q);
    FollowLast(t, ROOT, names);
    var (t', err) := CreatePath(t, PathOf(names), dir, mem);
    var parent := Follow(t, ROOT, base);
    if parent.Some? {
      CreateStruct(t, parent.value, nm, dir, mem);
      if err == E_OK {
        CreateResolves(t, base, nm, parent.value, dir, q);
        ResolveNormal(t', q);
        ResolveNormal(t, StoredNames(names));
        FollowLast(t, ROOT, StoredNames(names));
        if Inv(t) {
          CreateKeepsIff(t, parent.value, nm, dir);
        }
      }
    }
  }

  lemma StoredShort(names: seq<string>)
    requires names != [] && |names[|names| - 1]| < MAX_FILENAME
    ensures StoredNames(names) == names
  {
  }

  /** With a last component of at most 63 characters, sibling names stay different. */
  lemma ShortNamesInv(t: Tree, names: seq<string>, dir: bool, mem: bool)
    requires Inv(t) && names != [] && AreNames(names) && |names[|names| - 1]| < MAX_FILENAME
    ensures Inv(CreatePath(t, PathOf(names), dir, mem).0)
  {
    CreatePathEffect(t, names, dir, mem, []);
    StoredShort(names);
  }

  /** With a last component of at most 63 characters, success makes this path resolve to the new node and changes no
      other path at all. */
  lemma ShortNamesKept(t: Tree, names: seq<string>, dir: bool, mem: bool, q: seq<string>)
    requires Inv(t) && names != [] && AreNames(names) && AreNames(q) && |names[|names| - 1]| < MAX_FILENAME
    requires CreatePath(t, PathOf(names), dir, mem).1 == E_OK
    ensures var t' := CreatePath(t, PathOf(names), dir, mem).0;
            Ok(t') && Resolve(t', PathOf(q)) == if q == names then Some(|t.nodes|) else Resolve(t, PathOf(q))
  {
    CreatePathEffect(t, names, dir, mem, q);
    StoredShort(names);
    NewPathOnly(t, CreatePath(t, PathOf(names), dir, mem).0, names, q, Some(|t.nodes|));
  }

  lemma NewPathOnly(t: Tree, t': Tree, names: seq<string>, q: seq<string>, x: Option<nat>)
    requires Ok(t) && Ok(t') && AreNames(names) && AreNames(q)
    ensures Resolve(t, PathOf(names)).None? &&
            Resolve(t', PathOf(q)) == (if q == names then x else if names <= q then None else Resolve(t, PathOf(q))) ==>
            Resolve(t', PathOf(q)) == if q == names then x else Resolve(t, PathOf(q))
  {
    if names <= q {
      NoneBelow(t, names, q);
    }
  }

  lemma NoneBelow(t: Tree, a: seq<string>, q: seq<string>)
    requires Ok(t) && AreNames(a) && AreNames(q) && a <= q
    ensures Resolve(t, PathOf(a)).None? ==> Resolve(t, PathOf(q)).None?
  {
    ResolveNormal(t, a);
    ResolveNormal(t, q);
    if Follow(t, ROOT, a).None? {
      NothingBelow(t, a, q);
    }
  }

  /** vfs_delete on a normalised path. The paths through the node lead where they would from a sibling of the same
      stored name that it hid, if there is one, and nowhere otherwise; no other path is affected. */
  lemma DeletePathEffect(t: Tree, names: seq<string>, q: seq<string>)
    requires Struct(t) && AreNames(names) && AreNames(q)
    ensures var (t', err) := DeletePath(t, PathOf(names));
            var x := Resolve(t, PathOf(names));
            && Struct(t') && (Inv(t) ==> Inv(t'))
            && (err == E_INVALID <==> x.None?)
            && (err == E_PERM <==> names == [])
            && (err == E_OK <==> names != [] && x.Some?)
            && (err != E_OK ==> t' == t)
            && (err == E_OK ==> IsLinked(t, x.value))
            && (err == E_OK ==>
                  Resolve(t', PathOf(q)) ==
                  (if names <= q then Instead(t, x.value, q[|names|..]) else Resolve(t, PathOf(q))))
  {
    ResolveNormal(t, names);
    ResolveNormal(t, q);
    var (t', err) := DeletePath(t, PathOf(names));
    if names != [] && Follow(t, ROOT, names).Some? {
      var x := Follow(t, ROOT, names).value;
      LastStep(t, names);
      DeleteResolves(t, names, x, q);
      ResolveNormal(t', q);
      if Inv(t) {
        DeleteKeeps(t, x);
      }
    }
  }

  /** While sibling names are different, exactly the paths through the node stop resolving. */
  lemma DeletedPathsGone(t: Tree, names: seq<string>, q: seq<string>)
    requires Inv(t) && AreNames(names) && AreNames(q) && DeletePath(t, PathOf(names)).1 == E_OK
    ensures var t' := DeletePath(t, PathOf(names)).0;
            Ok(t') && Resolve(t', PathOf(q)) == if names <= q then None else Resolve(t, PathOf(q))
  {
    DeletePathEffect(t, names, q);
    DeleteKeeps(t, Resolve(t, PathOf(names)).value);
  }

  /** The name field holds 63 characters: a creation that succeeds makes its own path resolve if and only if the base
      name is at most that long, and otherwise the new node cannot be found under the name it was given. */
  lemma LongNamesLost(t: Tree, d: nat, nm: string, dir: bool)
    requires Struct(t) && d < |t.nodes| && Create(t, d, nm, dir, true).1 == E_OK
    ensures var t' := Create(t, d, nm, dir, true).0;
            Ok(t') && (Lookup(t', d, nm) == Some(|t.nodes|) <==> |nm| < MAX_FILENAME) &&
            (|nm| >= MAX_FILENAME ==> Lookup(t', d, nm) == None)
  {
    CreateLookup(t, d, nm, dir, d, nm);
  }

  // ---------------------------------------------------------------- file contents

  lemma {:induction false} FindSameNames(t: Tree, u: Tree, l: seq<nat>, nm: string)
    requires |t.nodes| == |u.nodes| && forall j :: 0 <= j < |l| ==> l[j] < |t.nodes|
    requires forall x :: 0 <= x < |t.nodes| ==> t.nodes[x].name == u.nodes[x].name
    ensures FindIn(u, l, nm) == FindIn(t, l, nm)
  {
    if l != [] {
      FindSameNames(t, u, l[1..], nm);
    }
  }

  lemma WriteStruct(t: Tree, x: nat, buffer: seq<int>, mem: bool)
    requires Struct(t) && x < |t.nodes|
    ensures Struct(Write(t, x, buffer, mem).0)
  {
  }

  /** Writing changes no resolution. */
  lemma {:induction false} WriteResolves(t: Tree, x: nat, buffer: seq<int>, mem: bool, d: nat, q: seq<string>)
    requires Struct(t) && x < |t.nodes| && d < |t.nodes|
    ensures Struct(Write(t, x, buffer, mem).0) && Follow(Write(t, x, buffer, mem).0, d, q) == Follow(t, d, q)
    decreases |q|
  {
    WriteStruct(t, x, buffer, mem);
    if q != [] {
      FindSameNames(t, Write(t, x, buffer, mem).0, t.kids[d], q[0]);
      var c := Lookup(t, d, q[0]);
      if c.Some? {
        WriteResolves(t, x, buffer, mem, c.value, q[1..]);
      }
    }
  }

  /** The result of ramfs_write, exactly: directories are refused and left alone; a file that cannot be given the new
      contents, because the buffer is empty or no memory is at hand, reads as empty from then on; no other file and no
      name changes. */
  lemma WriteResult(t: Tree, x: nat, buffer: seq<int>, mem: bool, y: nat, size: nat)
    requires x < |t.nodes| && y < |t.nodes|
    ensures var (t', err) := Write(t, x, buffer, mem);
            && (err == E_ISDIR <==> t.nodes[x].dir)
            && (err == E_NOMEM <==> !t.nodes[x].dir && (buffer == [] || !mem))
            && (err == E_OK <==> !t.nodes[x].dir && buffer != [] && mem)
            && (err == E_ISDIR ==> t' == t)
            && t'.kids == t.kids && |t'.nodes| == |t.nodes|
            && (err == E_NOMEM ==> Read(t', x, size) == [])
            && (y != x ==> t'.nodes[y] == t.nodes[y] && Read(t', y, size) == Read(t, y, size))
            && t'.nodes[x].name == t.nodes[x].name && t'.nodes[x].dir == t.nodes[x].dir
            && t'.nodes[x].parent == t.nodes[x].parent
  {
  }

  /** A new file is empty, and creation and deletion leave the contents of every other file alone. */
  lemma ContentsKept(t: Tree, d: nat, nm: string, dir: bool, mem: bool, x: nat, y: nat, size: nat)
    requires Struct(t) && d < |t.nodes| && x < |t.nodes| && y < |t.nodes|
    ensures var (t', err) := Create(t, d, nm, dir, mem);
            && (err == E_OK ==> |t'.nodes| == |t.nodes| + 1 && Read(t', |t.nodes|, size) == [])
            && y < |t'.nodes| && Read(t', y, size) == Read(t, y, size)
    ensures y < |Delete(t, x).0.nodes| && Read(Delete(t, x).0, y, size) == Read(t, y, size)
  {
  }

  /** What was written is what is read back, up to the requested size; other files keep their contents. */
  lemma WriteThenRead(t: Tree, x: nat, buffer: seq<int>, mem: bool, y: nat, size: nat)
    requires x < |t.nodes| && y < |t.nodes| && Write(t, x, buffer, mem).1 == E_OK
    ensures var t' := Write(t, x, buffer, mem).0;
            && (size >= |buffer| ==> Read(t', x, size) == buffer)
            && (size < |buffer| ==> Read(t', x, size) == buffer[..size])
            && (y != x ==> Read(t', y, size) == Read(t, y, size))
  {
    assert buffer[..|buffer|] == buffer;
  }

  // ---------------------------------------------------------------- runs

  datatype Op = CreateOp(names: seq<string>, dir: bool, mem: bool) | DeleteOp(names: seq<string>)

  predicate Normal(op: Op) {
    match op
    case CreateOp(names, _, _) => names != [] && AreNames(names)
    case DeleteOp(names) => AreNames(names)
  }

  /** Names that the 64-byte field holds whole. */
  predicate Short(op: Op) {
    op.CreateOp? && op.names != [] ==> |op.names[|op.names| - 1]| < MAX_FILENAME
  }

  function Step(t: Tree, op: Op): Tree
    requires Ok(t)
  {
    match op
    case CreateOp(names, dir, mem) => CreatePath(t, PathOf(names), dir, mem).0
    case DeleteOp(names) => DeletePath(t, PathOf(names)).0
  }

  ghost predicate RunsTo(t: Tree, ops: seq<Op>, u: Tree)
    decreases |ops|
  {
    if ops == [] then u == t else Ok(t) && Normal(ops[0]) && RunsTo(Step(t, ops[0]), ops[1..], u)
  }

  lemma StepKeeps(t: Tree, op: Op)
    requires Struct(t) && Normal(op)
    ensures Struct(Step(t, op)) && (Inv(t) && Short(op) ==> Inv(Step(t, op)))
  {
    match op
    case CreateOp(names, dir, mem) =>
      CreatePathEffect(t, names, dir, mem, []);
      if Inv(t) && Short(op) {
        ShortNamesInv(t, names, dir, mem);
      }
    case DeleteOp(names) => DeletePathEffect(t, names, []);
  }

  /** Over every run of creations and deletions on normalised paths the tree stays a tree, and sibling names stay
      different as long as they fit the name field. */
  lemma {:induction false} RunKeeps(t: Tree, ops: seq<Op>, u: Tree)
    requires Struct(t) && RunsTo(t, ops, u)
    ensures Struct(u) && (Inv(t) && (forall i :: 0 <= i < |ops| ==> Short(ops[i])) ==> Inv(u))
    decreases |ops|
  {
    if ops != [] {
      StepKeeps(t, ops[0]);
      RunKeeps(Step(t, ops[0]), ops[1..], u);
    }
  }
}
