/** The in-memory file system: an inode table with tombstones and a free list. */
module InodeTree {
  import opened Wrappers

  datatype Kind =
    | File(content: seq<nat>)
    | Directory(children: seq<nat>)
    | ProcFile | DevNull | DevZero | DevRandom
    | Tombstone

  datatype Inode = Inode(id: nat, parent: nat, name: string, kind: Kind)

  datatype VfsError = NotFound | NotADirectory | AlreadyExists | IsDirectory | RootProtected

  datatype Result<+T> = Ok(value: T) | Err(error: VfsError)

  datatype Fs = Fs(inodes: seq<Inode>, cwd: nat, free: seq<nat>)

  predicate Live(fs: Fs, i: nat) {
    i < |fs.inodes| && !fs.inodes[i].kind.Tombstone?
  }

  predicate IsDir(fs: Fs, i: nat) {
    i < |fs.inodes| && fs.inodes[i].kind.Directory?
  }

  function Children(fs: Fs, d: nat): seq<nat>
    requires IsDir(fs, d)
  {
    fs.inodes[d].kind.children
  }

  // ----- The tree invariant -----

  /** A live inode below the root hangs in a live directory one level up. */
  ghost predicate NodeOk(fs: Fs, depth: seq<nat>, i: nat)
    requires i < |fs.inodes| && |depth| == |fs.inodes|
  {
    var n := fs.inodes[i];
    && n.id == i
    && (n.kind.Tombstone? ==> n.parent == 0 && n.name == "")
    && (Live(fs, i) && i != 0 ==> IsDir(fs, n.parent) && i in Children(fs, n.parent) && depth[i] == depth[n.parent] + 1)
    && (n.kind.Directory? ==> DirOk(fs, i, n.kind.children))
  }

  /** Every entry is a live inode that points back, and no two entries are the same or share a name. */
  ghost predicate DirOk(fs: Fs, d: nat, children: seq<nat>) {
    && (forall j | 0 <= j < |children| ::
          Live(fs, children[j]) && children[j] != 0 && fs.inodes[children[j]].parent == d)
    && (forall j, k | 0 <= j < k < |children| && Live(fs, children[j]) && Live(fs, children[k]) ::
          children[j] != children[k] && fs.inodes[children[j]].name != fs.inodes[children[k]].name)
  }

  /** The free list is exactly the tombstones, each once. */
  ghost predicate FreeOk(fs: Fs) {
    && (forall x: nat :: x in fs.free <==> x < |fs.inodes| && fs.inodes[x].kind.Tombstone?)
    && (forall j, k | 0 <= j < k < |fs.free| :: fs.free[j] != fs.free[k])
  }

  ghost predicate TreeOk(fs: Fs, depth: seq<nat>) {
    && |depth| == |fs.inodes| > 0 && IsDir(fs, 0) && fs.inodes[0].parent == 0 && depth[0] == 0
    && (forall i | 0 <= i < |fs.inodes| :: NodeOk(fs, depth, i))
    && FreeOk(fs)
  }

  // ----- Creating -----

  function FindChild(fs: Fs, children: seq<nat>, name: string): (r: Option<nat>)
    requires forall j | 0 <= j < |children| :: children[j] < |fs.inodes|
    ensures r.Some? ==> r.value in children && r.value < |fs.inodes| && fs.inodes[r.value].name == name
    ensures r == None ==> forall j | 0 <= j < |children| :: fs.inodes[children[j]].name != name
  {
    if children == [] then None
    else if fs.inodes[children[0]].name == name then Some(children[0])
    else FindChild(fs, children[1..], name)
  }

  /** The free list holds only tombstones. */
  predicate Recyclable(fs: Fs) {
    forall j | 0 <= j < |fs.free| :: fs.free[j] < |fs.inodes| && fs.inodes[fs.free[j]].kind.Tombstone?
  }

  /** `allocate_inode`: a tombstone from the end of the free list, or a new slot. */
  function Allocate(fs: Fs, parent: nat, name: string, kind: Kind): (nat, Fs)
    requires Recyclable(fs)
  {
    if fs.free != [] then
      var id := fs.free[|fs.free| - 1];
      (id, fs.(inodes := fs.inodes[id := Inode(id, parent, name, kind)], free := fs.free[..|fs.free| - 1]))
    else
      var id := |fs.inodes|;
      (id, fs.(inodes := fs.inodes + [Inode(id, parent, name, kind)]))
  }

  function AddChild(fs: Fs, parent: nat, id: nat): Fs
    requires IsDir(fs, parent)
  {
    fs.(inodes := fs.inodes[parent := fs.inodes[parent].(kind := Directory(Children(fs, parent) + [id]))])
  }

  /** Allocate an inode and enter it in its parent. */
  function Attach(fs: Fs, parent: nat, name: string, kind: Kind): (nat, Fs)
    requires IsDir(fs, parent) && Recyclable(fs)
  {
    var (id, fs1) := Allocate(fs, parent, name, kind);
    (id, AddChild(fs1, parent, id))
  }

  /** A table the operations can work on without a bad index. */
  ghost predicate Usable(fs: Fs) {
    && Recyclable(fs)
    && (forall d | 0 <= d < |fs.inodes| && fs.inodes[d].kind.Directory? ::
          forall j | 0 <= j < |fs.inodes[d].kind.children| :: fs.inodes[d].kind.children[j] < |fs.inodes|)
  }

  lemma TreeUsable(fs: Fs, depth: seq<nat>)
    requires TreeOk(fs, depth)
    ensures Usable(fs)
  {
    forall d | 0 <= d < |fs.inodes| && fs.inodes[d].kind.Directory?
      ensures forall j | 0 <= j < |fs.inodes[d].kind.children| :: fs.inodes[d].kind.children[j] < |fs.inodes|
    {
      assert NodeOk(fs, depth, d);
    }
  }

  function Mkdir(fs: Fs, parent: nat, name: string): (Result<nat>, Fs)
    requires Usable(fs) && parent < |fs.inodes|
  {
    if !IsDir(fs, parent) then (Err(NotADirectory), fs)
    else if FindChild(fs, Children(fs, parent), name).Some? then (Err(AlreadyExists), fs)
    else var (id, fs') := Attach(fs, parent, name, Directory([])); (Ok(id), fs')
  }

  function CreateFile(fs: Fs, parent: nat, name: string, content: seq<nat>): (Result<nat>, Fs)
    requires Usable(fs) && parent < |fs.inodes|
  {
    if !IsDir(fs, parent) then (Err(NotADirectory), fs)
    else match FindChild(fs, Children(fs, parent), name)
      case Some(c) =>
        if fs.inodes[c].kind.File? then (Ok(c), fs.(inodes := fs.inodes[c := fs.inodes[c].(kind := File(content))]))
        else (Err(IsDirectory), fs)
      case None => var (id, fs') := Attach(fs, parent, name, File(content)); (Ok(id), fs')
  }

  /** `create_proc_file_at` and `create_device_file_at`: no look for an entry of the same name. */
  function CreateSpecial(fs: Fs, parent: nat, name: string, kind: Kind): (Result<nat>, Fs)
    requires Usable(fs) && parent < |fs.inodes|
  {
    if !IsDir(fs, parent) then (Err(NotADirectory), fs)
    else var (id, fs') := Attach(fs, parent, name, kind); (Ok(id), fs')
  }

  function NewDepth(fs: Fs, depth: seq<nat>, parent: nat): seq<nat>
    requires |depth| == |fs.inodes| && parent < |depth| && Recyclable(fs)
  {
    if fs.free != [] then depth[fs.free[|fs.free| - 1] := depth[parent] + 1] else depth + [depth[parent] + 1]
  }

  ghost predicate EmptyKind(kind: Kind) {
    !kind.Tombstone? && (kind.Directory? ==> kind.children == [])
  }

  /** What attaching changes: the new inode and its parent's list. */
  ghost predicate Attached(fs: Fs, fs': Fs, parent: nat, id: nat, n: Inode) {
    && IsDir(fs, parent) && !Live(fs, id) && id != 0
    && |fs'.inodes| == (if id < |fs.inodes| then |fs.inodes| else |fs.inodes| + 1)
    && id < |fs'.inodes| && fs'.inodes[id] == n
    && fs'.inodes[parent] == fs.inodes[parent].(kind := Directory(Children(fs, parent) + [id]))
    && forall x | 0 <= x < |fs.inodes| && x != id && x != parent :: fs'.inodes[x] == fs.inodes[x]
  }

  lemma AttachShape(fs: Fs, depth: seq<nat>, parent: nat, name: string, kind: Kind)
    requires TreeOk(fs, depth) && IsDir(fs, parent) && Usable(fs)
    ensures var (id, fs') := Attach(fs, parent, name, kind);
      Attached(fs, fs', parent, id, Inode(id, parent, name, kind))
  {
  }

  lemma AttachFree(fs: Fs, parent: nat, name: string, kind: Kind)
    requires FreeOk(fs) && Recyclable(fs) && IsDir(fs, parent) && EmptyKind(kind)
    ensures FreeOk(Attach(fs, parent, name, kind).1)
  {
  }

  lemma AttachNode(fs: Fs, fs': Fs, depth: seq<nat>, depth': seq<nat>, parent: nat, id: nat, n: Inode, i: nat)
    requires TreeOk(fs, depth) && Attached(fs, fs', parent, id, n) && n.id == id && n.parent == parent
    requires EmptyKind(n.kind)
    requires forall j | 0 <= j < |Children(fs, parent)| ::
      Children(fs, parent)[j] < |fs.inodes| && fs.inodes[Children(fs, parent)[j]].name != n.name
    requires |depth'| == |fs'.inodes| && depth'[id] == depth[parent] + 1
    requires forall x | 0 <= x < |depth| && x != id :: depth'[x] == depth[x]
    requires i < |fs'.inodes|
    ensures NodeOk(fs', depth', i)
  {
    hide FreeOk;
    assert NodeOk(fs, depth, parent);
    if i != id {
      assert NodeOk(fs, depth, i);
      if i != 0 && Live(fs, i) { assert fs.inodes[i].parent != id; }
      if fs.inodes[i].kind.Directory? { AttachDir(fs, fs', parent, id, n, i); }
    }
  }

  lemma AttachDir(fs: Fs, fs': Fs, parent: nat, id: nat, n: Inode, d: nat)
    requires Attached(fs, fs', parent, id, n) && n.parent == parent && EmptyKind(n.kind)
    requires forall j | 0 <= j < |Children(fs, parent)| ::
      Children(fs, parent)[j] < |fs.inodes| && fs.inodes[Children(fs, parent)[j]].name != n.name
    requires IsDir(fs, d) && DirOk(fs, d, Children(fs, d))
    ensures IsDir(fs', d) && DirOk(fs', d, Children(fs', d))
  {
  }

  /** Attaching a new name to a directory keeps the tree. */
  lemma AttachOk(fs: Fs, depth: seq<nat>, parent: nat, name: string, kind: Kind)
    requires TreeOk(fs, depth) && Usable(fs) && IsDir(fs, parent) && EmptyKind(kind)
    requires FindChild(fs, Children(fs, parent), name) == None
    ensures TreeOk(Attach(fs, parent, name, kind).1, NewDepth(fs, depth, parent))
  {
    hide NodeOk, FreeOk, Attach, FindChild;
    var (id, fs') := Attach(fs, parent, name, kind);
    var depth' := NewDepth(fs, depth, parent);
    AttachShape(fs, depth, parent, name, kind);
    AttachFree(fs, parent, name, kind);
    NewDepthIs(fs, depth, parent, name, kind);
    forall i | 0 <= i < |fs'.inodes| ensures NodeOk(fs', depth', i) {
      AttachNode(fs, fs', depth, depth', parent, id, Inode(id, parent, name, kind), i);
    }
  }

  lemma NewDepthIs(fs: Fs, depth: seq<nat>, parent: nat, name: string, kind: Kind)
    requires Usable(fs) && IsDir(fs, parent) && |depth| == |fs.inodes|
    ensures var (id, fs') := Attach(fs, parent, name, kind); var depth' := NewDepth(fs, depth, parent);
      |depth'| == |fs'.inodes| && id < |depth'| && depth'[id] == depth[parent] + 1 &&
        forall x | 0 <= x < |depth| && x != id :: depth'[x] == depth[x]
  {
  }

  /** The depth witness after creating `name`: unchanged, or with the new inode one below its parent. */
  function DepthAfter(fs: Fs, depth: seq<nat>, parent: nat, name: string): seq<nat>
    requires Usable(fs) && |depth| == |fs.inodes| && parent < |fs.inodes|
  {
    if IsDir(fs, parent) && FindChild(fs, Children(fs, parent), name) == None then NewDepth(fs, depth, parent)
      else depth
  }

  /** `mkdir_at` keeps the tree, and succeeds exactly when the parent is a directory without that name. */
  lemma MkdirOk(fs: Fs, depth: seq<nat>, parent: nat, name: string)
    requires TreeOk(fs, depth) && Usable(fs) && parent < |fs.inodes|
    ensures var (r, fs') := Mkdir(fs, parent, name);
      && TreeOk(fs', DepthAfter(fs, depth, parent, name))
      && (r.Ok? <==> IsDir(fs, parent) && FindChild(fs, Children(fs, parent), name) == None)
      && (r.Err? ==> fs' == fs && r.error == if IsDir(fs, parent) then AlreadyExists else NotADirectory)
      && (r.Ok? ==> Attached(fs, fs', parent, r.value, Inode(r.value, parent, name, Directory([]))))
  {
    hide NodeOk, FreeOk, Attach, FindChild;
    if Mkdir(fs, parent, name).0.Ok? {
      AttachOk(fs, depth, parent, name, Directory([]));
      AttachShape(fs, depth, parent, name, Directory([]));
    }
  }

  /** The file at `c`, which hangs in `parent` under `name`, has new contents; nothing else has changed. */
  ghost predicate Overwritten(fs: Fs, fs': Fs, c: nat, parent: nat, name: string, content: seq<nat>) {
    && |fs'.inodes| == |fs.inodes| && fs'.cwd == fs.cwd && fs'.free == fs.free && c < |fs.inodes|
    && fs.inodes[c].kind.File? && fs'.inodes[c] == Inode(c, parent, name, File(content))
    && forall x | 0 <= x < |fs.inodes| && x != c :: fs'.inodes[x] == fs.inodes[x]
  }

  /** `create_file_at` keeps the tree; it replaces the content of a file of that name, refuses any other entry of that
      name, and otherwise adds a file. */
  lemma CreateFileOk(fs: Fs, depth: seq<nat>, parent: nat, name: string, content: seq<nat>)
    requires TreeOk(fs, depth) && Usable(fs) && parent < |fs.inodes|
    ensures var (r, fs') := CreateFile(fs, parent, name, content);
      && TreeOk(fs', DepthAfter(fs, depth, parent, name))
      && (r.Ok? <==> IsDir(fs, parent) && (var c := FindChild(fs, Children(fs, parent), name);
                                           c == None || fs.inodes[c.value].kind.File?))
      && (r.Err? ==> fs' == fs && r.error == if IsDir(fs, parent) then IsDirectory else NotADirectory)
      && (r.Ok? ==>
            match FindChild(fs, Children(fs, parent), name)
            case None => Attached(fs, fs', parent, r.value, Inode(r.value, parent, name, File(content)))
            case Some(c) => r.value == c && Overwritten(fs, fs', c, parent, name, content))
  {
    hide FreeOk, Attach, FindChild;
    if IsDir(fs, parent) {
      var c := FindChild(fs, Children(fs, parent), name);
      if c == None {
        AttachOk(fs, depth, parent, name, File(content));
        AttachShape(fs, depth, parent, name, File(content));
      } else if fs.inodes[c.value].kind.File? {
        assert NodeOk(fs, depth, parent) && NodeOk(fs, depth, c.value);
        OverwriteOk(fs, depth, c.value, content);
      }
    }
  }

  lemma OverwriteOk(fs: Fs, depth: seq<nat>, c: nat, content: seq<nat>)
    requires TreeOk(fs, depth) && c < |fs.inodes| && fs.inodes[c].kind.File?
    ensures TreeOk(fs.(inodes := fs.inodes[c := fs.inodes[c].(kind := File(content))]), depth)
  {
    var fs' := fs.(inodes := fs.inodes[c := fs.inodes[c].(kind := File(content))]);
    assert forall x: nat :: Live(fs', x) <==> Live(fs, x);
    forall i | 0 <= i < |fs'.inodes| ensures NodeOk(fs', depth, i) {
      assert NodeOk(fs, depth, i);
    }
  }

  /** The unchecked creators keep the tree exactly when the name is new in its directory. */
  lemma CreateSpecialIff(fs: Fs, depth: seq<nat>, parent: nat, name: string, kind: Kind)
    requires TreeOk(fs, depth) && Usable(fs) && IsDir(fs, parent) && !kind.Directory? && !kind.Tombstone?
    ensures (exists d :: TreeOk(CreateSpecial(fs, parent, name, kind).1, d)) <==>
      FindChild(fs, Children(fs, parent), name) == None
  {
    hide FreeOk, Attach, FindChild, TreeOk;
    var fs' := CreateSpecial(fs, parent, name, kind).1;
    if FindChild(fs, Children(fs, parent), name) == None {
      AttachOk(fs, depth, parent, name, kind);
    } else {
      AttachShape(fs, depth, parent, name, kind);
      forall d ensures !TreeOk(fs', d) {
        TwiceNamed(fs, depth, fs', parent, Attach(fs, parent, name, kind).0, name, kind, d);
      }
    }
  }

  lemma TwiceNamed(fs: Fs, depth: seq<nat>, fs': Fs, parent: nat, id: nat, name: string, kind: Kind, d: seq<nat>)
    requires TreeOk(fs, depth) && Usable(fs) && IsDir(fs, parent) && FindChild(fs, Children(fs, parent), name).Some?
    requires Attached(fs, fs', parent, id, Inode(id, parent, name, kind)) && !kind.Tombstone?
    ensures !TreeOk(fs', d)
  {
    hide FreeOk, FindChild;
    var c, ch := FindChild(fs, Children(fs, parent), name).value, Children(fs, parent);
    var j :| 0 <= j < |ch| && ch[j] == c;
    assert NodeOk(fs, depth, parent) && Live(fs, c) && c != id && c != parent by { assert NodeOk(fs, depth, c); }
    var ch' := Children(fs', parent);
    assert ch'[j] == c && ch'[|ch|] == id && fs'.inodes[c].name == fs'.inodes[id].name;
    assert !DirOk(fs', parent, ch');
    assert |d| == |fs'.inodes| ==> !NodeOk(fs', d, parent);
  }

  // ----- Ancestors and subtrees -----

  /** The ancestor of `x` at depth `d`, or `x` itself if it is not deeper. */
  function Ancestor(fs: Fs, depth: seq<nat>, x: nat, d: nat): (r: nat)
    requires TreeOk(fs, depth) && Live(fs, x)
    ensures Live(fs, r) && (depth[x] >= d ==> depth[r] == d)
    decreases depth[x]
  {
    if depth[x] <= d then x
    else
      assert NodeOk(fs, depth, x) && NodeOk(fs, depth, 0);
      Ancestor(fs, depth, fs.inodes[x].parent, d)
  }

  /** `x` lies in the subtree of `t`. */
  predicate Under(fs: Fs, depth: seq<nat>, x: nat, t: nat)
    requires TreeOk(fs, depth) && Live(fs, t)
  {
    Live(fs, x) && depth[x] >= depth[t] && Ancestor(fs, depth, x, depth[t]) == t
  }

  /** Below the top, being in a subtree is the same for an inode and its parent. */
  lemma UnderParent(fs: Fs, depth: seq<nat>, x: nat, t: nat)
    requires TreeOk(fs, depth) && Live(fs, t) && Live(fs, x) && x != 0
    ensures Live(fs, fs.inodes[x].parent)
    ensures (Under(fs, depth, x, t) <==> x == t || Under(fs, depth, fs.inodes[x].parent, t))
  {
    assert NodeOk(fs, depth, x);
  }

  /** The ancestor chain goes down one edge at a time. */
  lemma {:induction false} AncestorEdge(fs: Fs, depth: seq<nat>, x: nat, d: nat)
    requires TreeOk(fs, depth) && Live(fs, x) && depth[x] > d
    ensures var c := Ancestor(fs, depth, x, d + 1);
      c != 0 && fs.inodes[c].parent == Ancestor(fs, depth, x, d) && Ancestor(fs, depth, x, d) < |fs.inodes|
    decreases depth[x]
  {
    assert NodeOk(fs, depth, x);
    if depth[x] > d + 1 {
      AncestorEdge(fs, depth, fs.inodes[x].parent, d);
    }
  }

  function Bound(depth: seq<nat>): (b: nat)
    ensures forall i | 0 <= i < |depth| :: depth[i] <= b
  {
    if depth == [] then 0
    else var b := Bound(depth[1..]); if b < depth[0] then depth[0] else b
  }

  /** `collect_descendants`: the subtree below a node, in the order the recursion visits it. */
  function Collect(fs: Fs, depth: seq<nat>, t: nat): seq<nat>
    requires TreeOk(fs, depth) && Live(fs, t)
    decreases Bound(depth) - depth[t], 1, 0
  {
    if IsDir(fs, t) then
      assert NodeOk(fs, depth, t);
      CollectList(fs, depth, t, Children(fs, t))
    else []
  }

  function CollectList(fs: Fs, depth: seq<nat>, t: nat, list: seq<nat>): seq<nat>
    requires TreeOk(fs, depth) && IsDir(fs, t) && forall j | 0 <= j < |list| :: ChildOf(fs, t, list[j])
    decreases Bound(depth) - depth[t], 0, |list|
  {
    if list == [] then []
    else
      assert ChildOf(fs, t, list[0]) && NodeOk(fs, depth, list[0]);
      [list[0]] + Collect(fs, depth, list[0]) + CollectList(fs, depth, t, list[1..])
  }

  predicate ChildOf(fs: Fs, t: nat, c: nat) {
    Live(fs, c) && c != 0 && fs.inodes[c].parent == t
  }

  predicate Distinct(s: seq<nat>) {
    forall j, k | 0 <= j < k < |s| :: s[j] != s[k]
  }

  /** The strict subtree of a directory is the union of its entries' subtrees. */
  lemma UnderChild(fs: Fs, depth: seq<nat>, t: nat, x: nat)
    requires TreeOk(fs, depth) && Live(fs, t)
    ensures Under(fs, depth, x, t) && x != t <==> exists c :: ChildOf(fs, t, c) && Under(fs, depth, x, c)
  {
    hide NodeOk, FreeOk;
    if Under(fs, depth, x, t) && x != t {
      SameDepthSame(fs, depth, x, t);
      AncestorEdge(fs, depth, x, depth[t]);
      var c := Ancestor(fs, depth, x, depth[t] + 1);
      assert ChildOf(fs, t, c) && Under(fs, depth, x, c);
    }
    forall c | ChildOf(fs, t, c) && Under(fs, depth, x, c) ensures Under(fs, depth, x, t) && x != t {
      ChildDepth(fs, depth, t, c);
      AncestorEdge(fs, depth, x, depth[t]);
    }
  }

  lemma SameDepthSame(fs: Fs, depth: seq<nat>, x: nat, t: nat)
    requires TreeOk(fs, depth) && Live(fs, t) && Under(fs, depth, x, t)
    ensures x != t ==> depth[x] > depth[t]
  {
  }

  lemma ChildDepth(fs: Fs, depth: seq<nat>, t: nat, c: nat)
    requires TreeOk(fs, depth) && ChildOf(fs, t, c)
    ensures IsDir(fs, t) && c in Children(fs, t) && depth[c] == depth[t] + 1
  {
    assert NodeOk(fs, depth, c);
  }

  ghost predicate Collects(fs: Fs, depth: seq<nat>, t: nat, r: seq<nat>)
    requires TreeOk(fs, depth) && Live(fs, t)
  {
    Distinct(r) && forall x: nat :: x in r <==> Under(fs, depth, x, t) && x != t
  }

  ghost predicate UnderSome(fs: Fs, depth: seq<nat>, x: nat, list: seq<nat>)
    requires TreeOk(fs, depth) && forall j | 0 <= j < |list| :: Live(fs, list[j])
  {
    exists j :: 0 <= j < |list| && Under(fs, depth, x, list[j])
  }

  /** The recursion visits every inode of the strict subtree exactly once, and no other. */
  lemma {:induction false} CollectOk(fs: Fs, depth: seq<nat>, t: nat)
    requires TreeOk(fs, depth) && Live(fs, t)
    ensures Collects(fs, depth, t, Collect(fs, depth, t))
    decreases Bound(depth) - depth[t], 1, 0
  {
    hide FreeOk, Bound, Under, NodeOk;
    if IsDir(fs, t) {
      DirChildren(fs, depth, t);
      CollectListOk(fs, depth, t, Children(fs, t));
    }
    forall x: nat ensures x in Collect(fs, depth, t) <==> Under(fs, depth, x, t) && x != t {
      UnderChild(fs, depth, t, x);
      if c :| ChildOf(fs, t, c) && Under(fs, depth, x, c) {
        ChildDepth(fs, depth, t, c);
        var j :| 0 <= j < |Children(fs, t)| && Children(fs, t)[j] == c;
      }
    }
  }

  lemma DirChildren(fs: Fs, depth: seq<nat>, t: nat)
    requires TreeOk(fs, depth) && IsDir(fs, t)
    ensures Distinct(Children(fs, t)) && forall j | 0 <= j < |Children(fs, t)| :: ChildOf(fs, t, Children(fs, t)[j])
  {
    assert NodeOk(fs, depth, t);
  }

  lemma {:induction false} CollectListOk(fs: Fs, depth: seq<nat>, t: nat, list: seq<nat>)
    requires TreeOk(fs, depth) && IsDir(fs, t) && Distinct(list)
    requires forall j | 0 <= j < |list| :: ChildOf(fs, t, list[j])
    ensures Distinct(CollectList(fs, depth, t, list))
    ensures forall x: nat :: x in CollectList(fs, depth, t, list) <==> UnderSome(fs, depth, x, list)
    decreases Bound(depth) - depth[t], 0, |list|
  {
    hide FreeOk, Bound, NodeOk;
    if list != [] {
      var c, rest := list[0], list[1..];
      assert ChildOf(fs, t, c);
      ChildDepth(fs, depth, t, c);
      BoundHolds(depth, c);
      CollectOk(fs, depth, c);
      CollectListOk(fs, depth, t, rest);
      CollectJoin(fs, depth, t, list);
    }
  }

  lemma BoundHolds(depth: seq<nat>, c: nat)
    requires c < |depth|
    ensures depth[c] <= Bound(depth)
  {
  }

  lemma CollectJoin(fs: Fs, depth: seq<nat>, t: nat, list: seq<nat>)
    requires TreeOk(fs, depth) && IsDir(fs, t) && list != [] && Distinct(list) && ChildOf(fs, t, list[0])
    requires forall j | 0 <= j < |list| :: ChildOf(fs, t, list[j])
    requires Collects(fs, depth, list[0], Collect(fs, depth, list[0])) && Distinct(CollectList(fs, depth, t, list[1..]))
    requires forall x: nat :: x in CollectList(fs, depth, t, list[1..]) <==> UnderSome(fs, depth, x, list[1..])
    ensures Distinct(CollectList(fs, depth, t, list))
    ensures forall x: nat :: x in CollectList(fs, depth, t, list) <==> UnderSome(fs, depth, x, list)
  {
    hide FreeOk, Bound, Collect, Ancestor, NodeOk;
    var c, rest := list[0], list[1..];
    var u, v := [c] + Collect(fs, depth, c), CollectList(fs, depth, t, rest);
    assert CollectList(fs, depth, t, list) == u + v;
    SelfUnder(fs, depth, c);
    assert forall x: nat :: x in u <==> Under(fs, depth, x, c);
    forall x: nat ensures UnderSome(fs, depth, x, list) <==> Under(fs, depth, x, c) || UnderSome(fs, depth, x, rest) {
      assert forall j | 0 <= j < |rest| :: rest[j] == list[j + 1];
      if UnderSome(fs, depth, x, list) && !Under(fs, depth, x, c) {
        var j :| 0 <= j < |list| && Under(fs, depth, x, list[j]);
        assert Under(fs, depth, x, rest[j - 1]);
      }
    }
    forall x: nat | x in u ensures x !in v {
      forall j | 0 <= j < |rest| ensures !Under(fs, depth, x, rest[j]) {
        ChildDepth(fs, depth, t, c);
        ChildDepth(fs, depth, t, rest[j]);
        assert rest[j] == list[j + 1] != c;
      }
    }
    DistinctJoin(u, v);
  }

  lemma SelfUnder(fs: Fs, depth: seq<nat>, c: nat)
    requires TreeOk(fs, depth) && Live(fs, c)
    ensures Under(fs, depth, c, c)
  {
  }

  lemma DistinctJoin(u: seq<nat>, v: seq<nat>)
    requires Distinct(u) && Distinct(v) && forall x | x in u :: x !in v
    ensures Distinct(u + v)
  {
    var w := u + v;
    forall j, k | 0 <= j < k < |w| ensures w[j] != w[k] {
      if j < |u| && k >= |u| { assert w[j] in u && w[k] in v; }
    }
  }

  // ----- Removing -----

  function Buried(n: Inode): Inode {
    n.(parent := 0, name := "", kind := Tombstone)
  }

  predicate InTable(fs: Fs, ids: seq<nat>) {
    forall j | 0 <= j < |ids| :: ids[j] < |fs.inodes|
  }

  /** The clean-up loop of `remove_entry`. */
  function Bury(fs: Fs, ids: seq<nat>): Fs
    requires InTable(fs, ids)
    decreases ids
  {
    if ids == [] then fs
    else Bury(fs.(inodes := fs.inodes[ids[0] := Buried(fs.inodes[ids[0]])], free := fs.free + [ids[0]]), ids[1..])
  }

  lemma {:induction false} BuryOk(fs: Fs, ids: seq<nat>)
    requires InTable(fs, ids)
    ensures var r := Bury(fs, ids);
      && |r.inodes| == |fs.inodes| && r.cwd == fs.cwd && r.free == fs.free + ids
      && forall x | 0 <= x < |fs.inodes| :: r.inodes[x] == if x in ids then Buried(fs.inodes[x]) else fs.inodes[x]
    decreases ids
  {
    if ids != [] {
      var fs1 := fs.(inodes := fs.inodes[ids[0] := Buried(fs.inodes[ids[0]])], free := fs.free + [ids[0]]);
      BuryOk(fs1, ids[1..]);
      assert ids == [ids[0]] + ids[1..];
    }
  }

  function DropFirst(s: seq<nat>, x: nat): seq<nat> {
    if s == [] then [] else if s[0] == x then s[1..] else [s[0]] + DropFirst(s[1..], x)
  }

  lemma {:induction false} DropFirstOk(s: seq<nat>, x: nat)
    requires Distinct(s)
    ensures Distinct(DropFirst(s, x)) && forall y: nat :: y in DropFirst(s, x) <==> y in s && y != x
  {
    if s != [] {
      assert s == [s[0]] + s[1..];
      if s[0] != x {
        DropFirstOk(s[1..], x);
        DistinctJoin([s[0]], DropFirst(s[1..], x));
      }
    }
  }

  function Unlink(fs: Fs, p: nat, t: nat): Fs
    requires IsDir(fs, p)
  {
    fs.(inodes := fs.inodes[p := fs.inodes[p].(kind := Directory(DropFirst(Children(fs, p), t)))])
  }

  lemma CollectInTable(fs: Fs, depth: seq<nat>, t: nat)
    requires TreeOk(fs, depth) && Live(fs, t)
    ensures InTable(fs, Collect(fs, depth, t) + [t])
  {
    hide Collect, NodeOk, FreeOk;
    CollectOk(fs, depth, t);
    var ids := Collect(fs, depth, t) + [t];
    forall j | 0 <= j < |ids| ensures ids[j] < |fs.inodes| {
      if j < |ids| - 1 { assert ids[j] in Collect(fs, depth, t); }
    }
  }

  /** `remove_entry`. */
  function Remove(fs: Fs, depth: seq<nat>, t: nat): (Result<()>, Fs)
    requires TreeOk(fs, depth) && t < |fs.inodes|
  {
    if t == 0 then (Err(RootProtected), fs)
    else
      var p := fs.inodes[t].parent;
      if !Live(fs, t) || !IsDir(fs, p) || t !in Children(fs, p) then (Err(NotFound), fs)
      else
        CollectInTable(fs, depth, t);
        (Ok(()), Bury(Unlink(fs, p, t), Collect(fs, depth, t) + [t]))
  }

  /** The removed inodes: exactly the subtree of the target. */
  ghost predicate Pruned(fs: Fs, fs': Fs, depth: seq<nat>, t: nat)
    requires TreeOk(fs, depth) && Live(fs, t)
  {
    && |fs'.inodes| == |fs.inodes| && t != 0
    && forall x | 0 <= x < |fs.inodes| ::
         if Under(fs, depth, x, t) then fs'.inodes[x] == Buried(fs.inodes[x])
         else if x == fs.inodes[t].parent then
           IsDir(fs, x) && fs'.inodes[x] == fs.inodes[x].(kind := Directory(DropFirst(Children(fs, x), t)))
         else fs'.inodes[x] == fs.inodes[x]
  }

  lemma RemoveShape(fs: Fs, depth: seq<nat>, t: nat)
    requires TreeOk(fs, depth) && Live(fs, t) && t != 0
    ensures var (r, fs') := Remove(fs, depth, t);
      r.Ok? && Pruned(fs, fs', depth, t) && fs'.free == fs.free + (Collect(fs, depth, t) + [t]) && fs'.cwd == fs.cwd
  {
    hide FreeOk, Collect, Under, Bury;
    var p, ids := fs.inodes[t].parent, Collect(fs, depth, t) + [t];
    assert NodeOk(fs, depth, t);
    CollectOk(fs, depth, t);
    SelfUnder(fs, depth, t);
    ParentNotUnder(fs, depth, t);
    assert forall x: nat :: x in ids <==> Under(fs, depth, x, t);
    UnderLive(fs, depth, t);
    CollectInTable(fs, depth, t);
    BuryOk(Unlink(fs, p, t), ids);
  }

  lemma UnderLive(fs: Fs, depth: seq<nat>, t: nat)
    requires TreeOk(fs, depth) && Live(fs, t)
    ensures forall x: nat | Under(fs, depth, x, t) :: Live(fs, x)
  {
  }

  lemma ParentNotUnder(fs: Fs, depth: seq<nat>, t: nat)
    requires TreeOk(fs, depth) && Live(fs, t) && t != 0
    ensures !Under(fs, depth, fs.inodes[t].parent, t) && IsDir(fs, fs.inodes[t].parent) && !Under(fs, depth, 0, t)
  {
    assert NodeOk(fs, depth, t);
  }

  lemma PrunedNode(fs: Fs, fs': Fs, depth: seq<nat>, t: nat, i: nat)
    requires TreeOk(fs, depth) && Live(fs, t) && t != 0 && Pruned(fs, fs', depth, t) && i < |fs.inodes|
    ensures NodeOk(fs', depth, i)
  {
    hide FreeOk, Under;
    assert NodeOk(fs, depth, i);
    ParentNotUnder(fs, depth, t);
    if Live(fs, i) && !Under(fs, depth, i, t) {
      if i != 0 {
        UnderParent(fs, depth, i, t);
        var p := fs.inodes[i].parent;
        DirChildren(fs, depth, p);
        DropFirstOk(Children(fs, p), t);
        SelfUnder(fs, depth, t);
        assert i in Children(fs', p);
      }
      if IsDir(fs, i) {
        PrunedDir(fs, fs', depth, t, i);
      }
    }
  }

  lemma PrunedDir(fs: Fs, fs': Fs, depth: seq<nat>, t: nat, d: nat)
    requires TreeOk(fs, depth) && Live(fs, t) && t != 0 && Pruned(fs, fs', depth, t)
    requires IsDir(fs, d) && !Under(fs, depth, d, t)
    ensures IsDir(fs', d) && DirOk(fs', d, Children(fs', d))
  {
    hide FreeOk, Under, NodeOk;
    var c, c' := Children(fs, d), Children(fs', d);
    DirChildren(fs, depth, d);
    DropFirstOk(c, t);
    forall x: nat | x in c'
      ensures ChildOf(fs, d, x) && x != t && !Under(fs, depth, x, t)
      ensures Live(fs', x) && fs'.inodes[x].parent == d && fs'.inodes[x].name == fs.inodes[x].name
    {
      assert x in c;
      UnderParent(fs, depth, x, t);
      NotOwnChild(fs, depth, t, d);
    }
    forall j, k | 0 <= j < k < |c'| ensures c'[j] != c'[k] && fs'.inodes[c'[j]].name != fs'.inodes[c'[k]].name {
      assert c'[j] in c' && c'[k] in c';
      SiblingNames(fs, depth, d, c'[j], c'[k]);
    }
  }

  /** The target is an entry of its parent only. */
  lemma NotOwnChild(fs: Fs, depth: seq<nat>, t: nat, d: nat)
    requires TreeOk(fs, depth) && Live(fs, t) && IsDir(fs, d)
    ensures t in Children(fs, d) ==> d == fs.inodes[t].parent
  {
    assert NodeOk(fs, depth, d);
  }

  lemma SiblingNames(fs: Fs, depth: seq<nat>, d: nat, a: nat, b: nat)
    requires TreeOk(fs, depth) && IsDir(fs, d) && a in Children(fs, d) && b in Children(fs, d)
    ensures a < |fs.inodes| && b < |fs.inodes| && (a != b ==> fs.inodes[a].name != fs.inodes[b].name)
  {
    assert NodeOk(fs, depth, d);
    var c := Children(fs, d);
    var j :| 0 <= j < |c| && c[j] == a;
    var k :| 0 <= k < |c| && c[k] == b;
  }

  lemma PrunedFree(fs: Fs, fs': Fs, depth: seq<nat>, t: nat)
    requires TreeOk(fs, depth) && Live(fs, t) && Pruned(fs, fs', depth, t)
    requires fs'.free == fs.free + (Collect(fs, depth, t) + [t])
    ensures FreeOk(fs')
  {
    hide Collect, Under, NodeOk;
    var ids := Collect(fs, depth, t) + [t];
    CollectOk(fs, depth, t);
    SelfUnder(fs, depth, t);
    UnderLive(fs, depth, t);
    assert forall x: nat :: x in ids <==> Under(fs, depth, x, t);
    DistinctJoin(Collect(fs, depth, t), [t]);
    DistinctJoin(fs.free, ids);
    assert Distinct(fs'.free);
  }

  /** `remove_entry` refuses the root and dead inodes; otherwise it turns exactly the subtree of the target into
      tombstones, puts each of them on the free list once, and leaves a tree. */
  lemma RemoveOk(fs: Fs, depth: seq<nat>, t: nat)
    requires TreeOk(fs, depth) && t < |fs.inodes|
    ensures var (r, fs') := Remove(fs, depth, t);
      && TreeOk(fs', depth)
      && (r.Ok? <==> t != 0 && Live(fs, t))
      && (r.Err? ==> fs' == fs && r.error == if t == 0 then RootProtected else NotFound)
      && (r.Ok? ==>
            && Pruned(fs, fs', depth, t)
            && forall x: nat :: Live(fs', x) <==> Live(fs, x) && !Under(fs, depth, x, t))
  {
    hide FreeOk, NodeOk, Under, Bury, Collect, Remove;
    if t != 0 && Live(fs, t) {
      var fs' := Remove(fs, depth, t).1;
      RemoveShape(fs, depth, t);
      PrunedFree(fs, fs', depth, t);
      forall i | 0 <= i < |fs'.inodes| ensures NodeOk(fs', depth, i) {
        PrunedNode(fs, fs', depth, t, i);
      }
      ParentNotUnder(fs, depth, t);
      UnderLive(fs, depth, t);
    } else {
      RemoveRefused(fs, depth, t);
    }
  }

  lemma RemoveRefused(fs: Fs, depth: seq<nat>, t: nat)
    requires TreeOk(fs, depth) && t < |fs.inodes| && (t == 0 || !Live(fs, t))
    ensures Remove(fs, depth, t) == (Err(if t == 0 then RootProtected else NotFound), fs)
  {
  }
}
