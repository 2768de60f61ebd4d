/** The RAM file system tree (fs/filesystems/ramfs.c) and path resolution over it (fs/vfs.c), on values. Nodes are named
    by their index; node 0 is the root, and a deleted node stays in the sequence but is no longer linked. */
module FsSpec {
  import opened Wrappers
  import opened Links
  import opened Errno

  const MAX_FILENAME: nat := 64
  const ROOT: nat := 0

  datatype Node = Node(name: string, dir: bool, parent: int, data: Option<seq<int>>)

  /** `kids[d]` are the children of d, first child first. */
  datatype Tree = Tree(nodes: seq<Node>, kids: seq<seq<nat>>)

  predicate Ok(t: Tree) {
    && |t.kids| == |t.nodes|
    && ROOT < |t.nodes| && t.nodes[ROOT].dir
    && (forall d, i :: 0 <= d < |t.kids| && 0 <= i < |t.kids[d]| ==> t.kids[d][i] < |t.nodes|)
  }

  // ---------------------------------------------------------------- lookup and resolution

  /** The position of the first child of that name, or the length of the list. */
  function FindIn(t: Tree, l: seq<nat>, nm: string): (i: nat)
    requires forall j :: 0 <= j < |l| ==> l[j] < |t.nodes|
    ensures i <= |l|
    ensures i < |l| ==> t.nodes[l[i]].name == nm
    ensures forall j :: 0 <= j < i ==> t.nodes[l[j]].name != nm
  {
    if l == [] || t.nodes[l[0]].name == nm then 0 else 1 + FindIn(t, l[1..], nm)
  }

  /** The child of d with the given name; only directories have children to look at. */
  function Lookup(t: Tree, d: nat, nm: string): (r: Option<nat>)
    requires Ok(t) && d < |t.nodes|
    ensures r.Some? ==> r.value < |t.nodes|
  {
    if !t.nodes[d].dir then None
    else
      var i := FindIn(t, t.kids[d], nm);
      if i < |t.kids[d]| then Some(t.kids[d][i]) else None
  }

  /** Follows a list of names. */
  function Follow(t: Tree, d: nat, names: seq<string>): (r: Option<nat>)
    requires Ok(t) && d < |t.nodes|
    ensures r.Some? ==> r.value < |t.nodes|
    decreases |names|
  {
    if names == [] then Some(d)
    else match Lookup(t, d, names[0])
      case None => None
      case Some(c) => Follow(t, c, names[1..])
  }

  /** The characters before the first slash. */
  function Head(s: string): (r: string)
    ensures |r| <= |s| && r == s[..|r|] && '/' !in r
    ensures |r| < |s| ==> s[|r|] == '/'
  {
    if s == "" || s[0] == '/' then "" else [s[0]] + Head(s[1..])
  }

  /** vfs_resolve_path after the leading slash: component by component, stopping at the end of the string. */
  function Walk(t: Tree, d: nat, s: string): (r: Option<nat>)
    requires Ok(t) && d < |t.nodes|
    ensures r.Some? ==> r.value < |t.nodes|
    decreases |s|
  {
    if s == "" then Some(d)
    else
      var h := Head(s);
      match Lookup(t, d, h)
      case None => None
      case Some(c) => if |h| < |s| then Walk(t, c, s[|h| + 1..]) else Some(c)
  }

  /** vfs_resolve_path */
  function Resolve(t: Tree, path: string): Option<nat>
    requires Ok(t)
  {
    Walk(t, ROOT, if path != "" && path[0] == '/' then path[1..] else path)
  }

  // ---------------------------------------------------------------- path strings

  /** The position after the last slash, or 0. */
  function LastSlash(path: string): (i: nat)
    ensures i <= |path|
    ensures '/' !in path[i..]
    ensures i > 0 ==> path[i - 1] == '/'
  {
    if path == "" then 0
    else if path[|path| - 1] == '/' then |path|
    else LastSlash(path[..|path| - 1])
  }

  /** vfs_basename */
  function Basename(path: string): string {
    path[LastSlash(path)..]
  }

  /** vfs_dirname, its index starting at 0 */
  function Dirname(path: string): string {
    var i := LastSlash(path);
    if i <= 1 then "/" else path[..i - 1]
  }

  /** "/a/b/c" for ["a", "b", "c"]; "" for the empty list. */
  function Join(names: seq<string>): string {
    if names == [] then "" else Join(names[..|names| - 1]) + "/" + names[|names| - 1]
  }

  /** The normalised path of a list of names. */
  function PathOf(names: seq<string>): string {
    if names == [] then "/" else Join(names)
  }

  // ---------------------------------------------------------------- creation and deletion

  /** strncpy into a 64-byte field */
  function Stored(nm: string): string {
    if |nm| < MAX_FILENAME then nm else nm[..MAX_FILENAME - 1]
  }

  /** ramfs_node_create; `mem` says whether the allocations succeed. */
  function Create(t: Tree, d: nat, nm: string, dir: bool, mem: bool): (Tree, Kerr)
    requires Ok(t) && d < |t.nodes|
  {
    if !t.nodes[d].dir then (t, E_NOTDIR)
    else if Lookup(t, d, nm).Some? then (t, E_EXISTS)
    else if !mem then (t, E_NOMEM)
    else (Tree(t.nodes + [Node(Stored(nm), dir, d, None)], t.kids[d := [|t.nodes|] + t.kids[d]] + [[]]), E_OK)
  }

  /** ramfs_node_delete: unlinks the node from its parent; the root has none. */
  function Delete(t: Tree, x: nat): (Tree, Kerr)
    requires Ok(t) && x < |t.nodes|
  {
    var p := t.nodes[x].parent;
    if p < 0 || p >= |t.kids| then (t, E_PERM) else (t.(kids := t.kids[p := Remove(t.kids[p], x)]), E_OK)
  }

  /** vfs_create_file and vfs_create_directory */
  function CreatePath(t: Tree, path: string, dir: bool, mem: bool): (Tree, Kerr)
    requires Ok(t)
  {
    match Resolve(t, Dirname(path))
    case None => (t, E_INVALID)
    case Some(d) => Create(t, d, Basename(path), dir, mem)
  }

  /** vfs_delete */
  function DeletePath(t: Tree, path: string): (Tree, Kerr)
    requires Ok(t)
  {
    match Resolve(t, path)
    case None => (t, E_INVALID)
    case Some(x) => Delete(t, x)
  }

  /** ramfs_write replaces the file's contents; an empty buffer is refused like a failed allocation, contents lost. */
  function Write(t: Tree, x: nat, buffer: seq<int>, mem: bool): (Tree, Kerr)
    requires x < |t.nodes|
  {
    if t.nodes[x].dir then (t, E_ISDIR)
    else if |buffer| == 0 || !mem then (t.(nodes := t.nodes[x := t.nodes[x].(data := None)]), E_NOMEM)
    else (t.(nodes := t.nodes[x := t.nodes[x].(data := Some(buffer))]), E_OK)
  }

  /** ramfs_read of a regular file */
  function Read(t: Tree, x: nat, size: nat): seq<int>
    requires x < |t.nodes|
  {
    match t.nodes[x].data
    case None => []
    case Some(d) => d[..if size < |d| then size else |d|]
  }

  /** Children know their parent and occur once; the root is nobody's child. */
  ghost predicate Struct(t: Tree) {
    && Ok(t)
    && t.nodes[ROOT].parent == NULL
    && (forall d :: 0 <= d < |t.kids| ==> NoDup(t.kids[d]))
    && (forall d, c :: 0 <= d < |t.kids| && c in t.kids[d] ==> c < |t.nodes| && t.nodes[c].parent == d)
  }

  /** The children of a directory have different names as well. */
  ghost predicate Inv(t: Tree) {
    && Struct(t)
    && (forall d, b, c :: 0 <= d < |t.kids| && b in t.kids[d] && c in t.kids[d] && b != c ==>
          t.nodes[b].name != t.nodes[c].name)
  }
}
