/** fs/vfs.c over fs/filesystems/ramfs.c: first-child and next-sibling links changed in place, strings scanned character
    by character, proved against FsSpec. */
module Vfs {
  import opened Wrappers
  import opened Links
  import opened Errno
  import opened FsSpec
  import opened FsProofs

  /** vfs_basename: the scan for the last slash. */
  method BasenameOf(path: string) returns (base: string)
    ensures base == Basename(path)
  {
    var i := ScanLastSlash(path);
    base := path[i..];
  }

  /** vfs_dirname, its index starting at 0. */
  method DirnameOf(path: string) returns (dir: string)
    ensures dir == Dirname(path)
  {
    var i := ScanLastSlash(path);
    if i <= 1 {
      dir := "/";
    } else {
      dir := path[..i - 1];
    }
  }

  /** The position after the last slash. */
  method ScanLastSlash(path: string) returns (last: nat)
    ensures last == LastSlash(path)
  {
    last := 0;
    for i := 0 to |path|
      invariant last == LastSlash(path[..i])
    {
      assert path[..i + 1][..i] == path[..i];
      if path[i] == '/' {
        last := i + 1;
      }
    }
    assert path[..|path|] == path;
  }

  class RamFs {
    var nodes: seq<Node>
    var first: seq<int>
    var sibling: seq<int>
    ghost var kids: seq<seq<nat>>
    ghost var freed: set<nat>

    ghost function View(): Tree
      reads this
    {
      Tree(nodes, kids)
    }

    /** Each directory's children form a chain through the sibling links. */
    ghost predicate Shape()
      reads this
    {
      && |first| == |sibling| == |nodes| == |kids|
      && forall d :: 0 <= d < |kids| ==> Chain(sibling, kids[d], first[d])
    }

    ghost predicate Valid()
      reads this
    {
      Shape() && Struct(View()) && FreedOk(View(), freed)
    }

    /** ramfs_mount: the root directory */
    constructor ()
      ensures Valid() && Inv(View()) && nodes == [Node("/", true, NULL, None)] && kids == [[]]
      ensures freed == {}
    {
      nodes := [Node("/", true, NULL, None)];
      first := [NULL];
      sibling := [NULL];
      kids := [[]];
      freed := {};
    }

    /** ramfs_readdir */
    method Readdir(d: nat, index: nat) returns (err: Kerr, child: int)
      requires Shape() && d < |nodes|
      ensures err == if !nodes[d].dir then E_NOTDIR else if index < |kids[d]| then E_OK else E_NOTFOUND
      ensures err == E_OK ==> child == kids[d][index]
    {
      if !nodes[d].dir {
        return E_NOTDIR, NULL;
      }
      child := first[d];
      var current := 0;
      while child != NULL && current < index
        invariant current <= index && current <= |kids[d]| && child == At(kids[d], current)
        decreases |kids[d]| - current
      {
        assert sibling[kids[d][current]] == At(kids[d], current + 1);
        child := sibling[child];
        current := current + 1;
      }
      err := if child == NULL then E_NOTFOUND else E_OK;
    }

    /** The search of vfs_resolve_path for one component. */
    method FindChild(d: nat, nm: string) returns (child: int)
      requires Shape() && Ok(View()) && d < |nodes|
      ensures child == match Lookup(View(), d, nm) case None => NULL case Some(c) => c
    {
      var index := 0;
      var err;
      err, child := Readdir(d, index);
      ghost var l := kids[d];
      while err == E_OK && nodes[child].name != nm
        invariant index <= |l|
        invariant err == if !nodes[d].dir then E_NOTDIR else if index < |l| then E_OK else E_NOTFOUND
        invariant err == E_OK ==> child == l[index]
        invariant forall j :: 0 <= j < index ==> nodes[l[j]].name != nm
        decreases |l| - index
      {
        index := index + 1;
        err, child := Readdir(d, index);
      }
      if err != E_OK {
        child := NULL;
      }
    }

    /** vfs_resolve_path */
    method ResolvePath(path: string) returns (r: int)
      requires Valid()
      ensures r == match Resolve(View(), path) case None => NULL case Some(x) => x
      ensures r != NULL ==> r !in freed
    {
      ResolvedIsLinked(View(), path);
      var current: nat := ROOT;
      var pos := if path != "" && path[0] == '/' then 1 else 0;
      ghost var goal := Resolve(View(), path);
      while pos < |path|
        invariant pos <= |path| && current < |nodes| && goal == Walk(View(), current, path[pos..])
        decreases |path| - pos
      {
        var child, after := Descend(current, path, pos);
        if child == NULL {
          return NULL;
        }
        current := child;
        if after > |path| {
          return current;
        }
        pos := after;
      }
      return current;
    }

    /** The loop body of vfs_resolve_path: the child named by the component at pos, and the position after the slash. */
    method Descend(d: nat, path: string, pos: nat) returns (child: int, after: nat)
      requires Valid() && d < |nodes| && pos < |path|
      ensures after > pos
      ensures child == NULL || 0 <= child < |nodes|
      ensures Walk(View(), d, path[pos..]) ==
              if child == NULL then None else if after > |path| then Some(child) else Walk(View(), child, path[after..])
    {
      var slash := ScanSlash(path, pos);
      WalkUnfold(View(), d, path, pos, slash);
      child := FindChild(d, path[pos..slash]);
      after := slash + 1;
    }

    /** ramfs_node_create */
    method NodeCreate(d: nat, nm: string, dir: bool, mem: bool) returns (err: Kerr)
      requires Valid() && d < |nodes|
      modifies this
      ensures Valid() && View() == Create(old(View()), d, nm, dir, mem).0 && freed == old(freed)
      ensures err == Create(old(View()), d, nm, dir, mem).1
    {
      CreateStruct(View(), d, nm, dir, mem);
      FreedAfterCreate(View(), freed, d, nm, dir, mem);
      if !nodes[d].dir {
        return E_NOTDIR;
      }
      var child := FindChild(d, nm);
      if child != NULL {
        return E_EXISTS;
      }
      if !mem {
        return E_NOMEM;
      }
      Attach(d, Node(Stored(nm), dir, d, None));
      return E_OK;
    }

    /** The linking of ramfs_node_create. */
    method Attach(d: nat, k: Node)
      requires Shape() && Ok(View()) && d < |nodes|
      modifies this`nodes, this`first, this`sibling, this`kids
      ensures Shape() && nodes == old(nodes) + [k] && kids == old(kids)[d := [|old(nodes)|] + old(kids)[d]] + [[]]
    {
      ghost var n := |nodes|;
      var x := |nodes|;
      nodes := nodes + [k];
      sibling := sibling + [first[d]];
      first := first[d := x] + [NULL];
      ghost var k0 := kids;
      kids := kids[d := [n] + kids[d]] + [[]];
      forall e | 0 <= e < |kids|
        ensures Chain(sibling, kids[e], first[e])
      {
        if e < n {
          assert Chain(old(sibling), k0[e], old(first)[e]);
          if e == d {
            PushNode(old(sibling), k0[d], old(first)[d]);
          } else {
            ChainFrame(old(sibling), sibling, k0[e], old(first)[e]);
          }
        }
      }
    }

    /** ramfs_node_delete: unlinks the node and gives its memory back. The nodes below a directory stay allocated, where
        no path leads any more. */
    method NodeDelete(x: nat) returns (err: Kerr)
      requires Valid() && Linked(View(), x)
      modifies this
      ensures Valid() && View() == Delete(old(View()), x).0 && err == Delete(old(View()), x).1
      ensures freed == if err == E_OK then old(freed) + {x} else old(freed)
    {
      if nodes[x].parent == NULL {
        return E_PERM;
      }
      DeleteStruct(View(), x);
      FreedAfterDelete(View(), freed, x);
      UnlinkNode(x);
      freed := freed + {x};
      return E_OK;
    }

    /** The search of ramfs_node_delete for the preceding sibling, and the unlink. */
    method UnlinkNode(x: nat)
      requires Shape() && Struct(View()) && IsLinked(View(), x)
      modifies this`first, this`sibling, this`kids
      ensures Shape() && View() == Delete(old(View()), x).0
    {
      var p := nodes[x].parent;
      OneParent(View());
      ghost var l := kids[p];
      assert Chain(sibling, l, first[p]);
      if first[p] == x {
        Detach(p, NULL, x, 0);
        return;
      }
      var prev := first[p];
      ghost var k := 0;
      while prev != NULL && sibling[prev] != x
        invariant 0 <= k <= |l| && prev == At(l, k) && x !in l[..k] && (k < |l| ==> l[k] != x)
        decreases |l| - k
      {
        assert sibling[l[k]] == At(l, k + 1);
        prev := sibling[prev];
        assert l[..k + 1] == l[..k] + [l[k]];
        k := k + 1;
      }
      assert l[..k] == l || prev != NULL;
      assert sibling[l[k]] == At(l, k + 1);
      Detach(p, prev, x, k + 1);
    }

    /** The unlink of ramfs_node_delete. */
    method Detach(p: nat, prev: int, x: nat, ghost k: nat)
      requires Shape() && p < |kids| && k < |kids[p]| && kids[p][k] == x && prev == At(kids[p], k - 1) && NoDup(kids[p])
      requires forall d, e, c :: 0 <= d < |kids| && 0 <= e < |kids| && c in kids[d] && c in kids[e] ==> d == e
      modifies this`first, this`sibling, this`kids
      ensures Shape() && nodes == old(nodes) && kids == old(kids)[p := Remove(old(kids)[p], x)]
    {
      ghost var l := kids[p];
      ghost var m := l[..k] + l[k + 1..];
      assert Chain(sibling, l, first[p]);
      RemoveAt(l, k);
      ChainUnlink(sibling, l, first[p], k, m);
      assert k > 0 ==> l[k - 1] in l;
      if prev == NULL {
        first := first[p := sibling[x]];
      } else {
        sibling := sibling[prev := sibling[x]];
      }
      ghost var k0 := kids;
      kids := kids[p := m];
      forall e | 0 <= e < |kids| && e != p
        ensures Chain(sibling, kids[e], first[e])
      {
        assert Chain(old(sibling), k0[e], old(first)[e]);
        ChainFrame(old(sibling), sibling, k0[e], old(first)[e]);
      }
    }

    /** vfs_create_file and vfs_create_directory */
    method CreateAt(path: string, dir: bool, mem: bool) returns (err: Kerr)
      requires Valid()
      modifies this
      ensures Valid() && View() == CreatePath(old(View()), path, dir, mem).0
      ensures err == CreatePath(old(View()), path, dir, mem).1 && freed == old(freed)
    {
      var dirPath := DirnameOf(path);
      var parent := ResolvePath(dirPath);
      if parent == NULL {
        return E_INVALID;
      }
      var base := BasenameOf(path);
      err := NodeCreate(parent, base, dir, mem);
    }

    /** vfs_delete */
    method DeleteAt(path: string) returns (err: Kerr)
      requires Valid()
      modifies this
      ensures Valid() && View() == DeletePath(old(View()), path).0 && err == DeletePath(old(View()), path).1
      ensures err == E_OK ==> freed == old(freed) + {Resolve(old(View()), path).value}
    {
      var x := ResolvePath(path);
      if x == NULL {
        return E_INVALID;
      }
      ResolvedIsLinked(View(), path);
      err := NodeDelete(x);
    }

    /** ramfs_write */
    method WriteNode(x: nat, buffer: seq<int>, mem: bool) returns (err: Kerr, written: nat)
      requires Valid() && x < |nodes|
      modifies this`nodes
      ensures Valid() && View() == Write(old(View()), x, buffer, mem).0 && err == Write(old(View()), x, buffer, mem).1
      ensures err == (if nodes[x].dir then E_ISDIR else if buffer == [] || !mem then E_NOMEM else E_OK)
      ensures written == (if err == E_OK then |buffer| else 0)
    {
      WriteStruct(View(), x, buffer, mem);
      if nodes[x].dir {
        return E_ISDIR, 0;
      }
      if |buffer| == 0 || !mem {
        nodes := nodes[x := nodes[x].(data := None)];
        return E_NOMEM, 0;
      }
      var data: seq<int> := [];
      for i := 0 to |buffer|
        invariant data == buffer[..i]
      {
        data := data + [buffer[i]];
      }
      assert data == buffer;
      nodes := nodes[x := nodes[x].(data := Some(data))];
      return E_OK, |buffer|;
    }

    /** ramfs_read */
    method ReadNode(x: nat, size: nat) returns (err: Kerr, out: seq<int>)
      requires Valid() && x < |nodes|
      ensures err == (if nodes[x].dir then E_ISDIR else E_OK)
      ensures err == E_OK ==> out == Read(View(), x, size)
    {
      if nodes[x].dir {
        return E_ISDIR, [];
      }
      if nodes[x].data.None? {
        return E_OK, [];
      }
      var data := nodes[x].data.value;
      var n := if size < |data| then size else |data|;
      out := [];
      for i := 0 to n
        invariant out == data[..i]
      {
        out := out + [data[i]];
      }
      err := E_OK;
    }
  }

  lemma WalkUnfold(t: Tree, d: nat, path: string, pos: nat, slash: nat)
    requires Ok(t) && d < |t.nodes| && pos < |path| && pos <= slash <= |path| && path[pos..slash] == Head(path[pos..])
    ensures Walk(t, d, path[pos..]) ==
            match Lookup(t, d, path[pos..slash])
            case None => None
            case Some(c) => if slash < |path| then Walk(t, c, path[slash + 1..]) else Some(c)
  {
    assert slash < |path| ==> path[pos..][slash - pos + 1..] == path[slash + 1..];
  }

  lemma OneParent(t: Tree)
    requires Struct(t)
    ensures forall d, e, c :: 0 <= d < |t.kids| && 0 <= e < |t.kids| && c in t.kids[d] && c in t.kids[e] ==> d == e
  {
    forall d, e, c | 0 <= d < |t.kids| && 0 <= e < |t.kids| && c in t.kids[d] && c in t.kids[e]
      ensures d == e
    {
      assert t.nodes[c].parent == d && t.nodes[c].parent == e;
    }
  }

  predicate Linked(t: Tree, x: nat) {
    x < |t.nodes| && (x == ROOT || IsLinked(t, x))
  }

  /** No node that can be reached has been given back. */
  ghost predicate FreedOk(t: Tree, freed: set<nat>) {
    && ROOT !in freed && (forall x :: x in freed ==> x < |t.nodes|)
    && (forall d, c :: 0 <= d < |t.kids| && c in t.kids[d] ==> c !in freed)
  }

  lemma FreedAfterCreate(t: Tree, freed: set<nat>, d: nat, nm: string, dir: bool, mem: bool)
    requires Struct(t) && d < |t.nodes| && FreedOk(t, freed)
    ensures FreedOk(Create(t, d, nm, dir, mem).0, freed)
  {
    var (t', err) := Create(t, d, nm, dir, mem);
    if err == E_OK {
      forall e, c | 0 <= e < |t'.kids| && c in t'.kids[e]
        ensures c !in freed
      {
        CreateKids(t, d, nm, dir, e, c);
      }
    }
  }

  lemma FreedAfterDelete(t: Tree, freed: set<nat>, x: nat)
    requires Struct(t) && IsLinked(t, x) && x != ROOT && FreedOk(t, freed)
    ensures FreedOk(Delete(t, x).0, freed + {x})
  {
    RemoveFacts(t.kids[t.nodes[x].parent], x);
  }

  lemma {:induction false} WalkLinked(t: Tree, d: nat, path: string)
    requires Struct(t) && d < |t.nodes| && Linked(t, d)
    ensures Walk(t, d, path).Some? ==> Linked(t, Walk(t, d, path).value)
    decreases |path|
  {
    if path != "" {
      var h := Head(path);
      LookupFacts(t, d, h);
      var c := Lookup(t, d, h);
      if c.Some? && |h| < |path| {
        WalkLinked(t, c.value, path[|h| + 1..]);
      }
    }
  }

  /** Whatever a path resolves to is the root or a linked child. */
  lemma ResolvedIsLinked(t: Tree, path: string)
    requires Struct(t)
    ensures Resolve(t, path).Some? ==> Linked(t, Resolve(t, path).value)
  {
    WalkLinked(t, ROOT, if path != "" && path[0] == '/' then path[1..] else path);
  }

  /** A new last node linked in front of the chain. */
  lemma PushNode(next: seq<int>, l: seq<nat>, head: int)
    requires Chain(next, l, head)
    ensures Chain(next + [head], [|next|] + l, |next|)
  {
    var n, m := next + [head], [|next|] + l;
    forall i {:trigger n[m[i]]} | 0 <= i < |m|
      ensures n[m[i]] == At(m, i + 1)
    {
      if i > 0 {
        assert m[i] == l[i - 1];
        assert next[l[i - 1]] == At(l, i);
      }
    }
  }

  /** The scan for the end of a component. */
  method ScanSlash(path: string, pos: nat) returns (slash: nat)
    requires pos <= |path|
    ensures pos <= slash <= |path| && path[pos..slash] == Head(path[pos..])
  {
    slash := pos;
    while slash < |path| && path[slash] != '/'
      invariant pos <= slash <= |path| && '/' !in path[pos..slash]
    {
      slash := slash + 1;
    }
    assert path[pos..] == path[pos..slash] + path[slash..];
    HeadOf(path[pos..slash], path[slash..]);
  }
}
