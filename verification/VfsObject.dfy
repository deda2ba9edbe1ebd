/** The file system object: the inode table changed in place. */
module VfsObject {
  import opened Wrappers
  import opened InodeTree
  import opened InodePaths
  import InodeRuns

  lemma {:induction false} DropFirstIs(s: seq<nat>, x: nat, p: nat)
    requires p < |s| && s[p] == x && x !in s[..p]
    ensures DropFirst(s, x) == s[..p] + s[p + 1..]
  {
    if p > 0 {
      assert s[0] in s[..p];
      assert x !in s[1..][..p - 1] by { assert s[1..][..p - 1] == s[1..p]; }
      DropFirstIs(s[1..], x, p - 1);
      assert s[..p] + s[p + 1..] == [s[0]] + (s[1..][..p - 1] + s[1..][p..]);
    } else {
      assert s[..0] + s[1..] == s[1..];
    }
  }

  lemma CollectListIs(fs: Fs, depth: seq<nat>, t: nat)
    requires TreeOk(fs, depth) && IsDir(fs, t)
    ensures forall j | 0 <= j < |Children(fs, t)| :: ChildOf(fs, t, Children(fs, t)[j])
    ensures Collect(fs, depth, t) == CollectList(fs, depth, t, Children(fs, t))
  {
    DirChildren(fs, depth, t);
  }

  lemma CollectStep(fs: Fs, depth: seq<nat>, t: nat, list: seq<nat>)
    requires TreeOk(fs, depth) && IsDir(fs, t) && list != [] && forall j | 0 <= j < |list| :: ChildOf(fs, t, list[j])
    ensures Live(fs, list[0])
    ensures CollectList(fs, depth, t, list) ==
      [list[0]] + Collect(fs, depth, list[0]) + CollectList(fs, depth, t, list[1..])
    ensures depth[t] < depth[list[0]] <= Bound(depth)
  {
    assert ChildOf(fs, t, list[0]);
    ChildDepth(fs, depth, t, list[0]);
  }

  function Reversed(s: seq<string>): seq<string> {
    seq(|s|, i requires 0 <= i < |s| => s[|s| - 1 - i])
  }

  class Vfs {
    var inodes: seq<Inode>
    var current: nat
    var free: seq<nat>
    ghost var depth: seq<nat>

    ghost function View(): Fs
      reads this
    {
      Fs(inodes, current, free)
    }

    ghost predicate Valid()
      reads this
    {
      TreeOk(View(), depth)
    }

    /** `init` up to the system files: the root directory alone. */
    constructor ()
      ensures Valid() && View() == InodeRuns.Empty() && depth == [0]
    {
      inodes := [Inode(0, 0, "/", Directory([]))];
      current := 0;
      free := [];
      depth := [0];
      new;
      InodeRuns.EmptyOk();
    }

    method FindEntry(dir: nat, name: string) returns (r: Option<nat>)
      requires Valid() && Usable(View()) && IsDir(View(), dir)
      ensures r == FindChild(View(), Children(View(), dir), name)
    {
      hide TreeOk;
      var children := inodes[dir].kind.children;
      var i := 0;
      while i < |children|
        invariant i <= |children|
        invariant FindChild(View(), children[i..], name) == FindChild(View(), children, name)
      {
        assert children[i..][1..] == children[i + 1..];
        if inodes[children[i]].name == name { return Some(children[i]); }
        i := i + 1;
      }
      r := None;
    }

    method AllocateInode(parent: nat, name: string, kind: Kind) returns (id: nat)
      requires Recyclable(View())
      modifies `inodes, `free
      ensures (id, View()) == Allocate(old(View()), parent, name, kind)
    {
      if free != [] {
        id := free[|free| - 1];
        free := free[..|free| - 1];
        inodes := inodes[id := Inode(id, parent, name, kind)];
      } else {
        id := |inodes|;
        inodes := inodes + [Inode(id, parent, name, kind)];
      }
    }

    method AttachInode(parent: nat, name: string, kind: Kind) returns (id: nat)
      requires Recyclable(View()) && IsDir(View(), parent)
      modifies `inodes, `free
      ensures (id, View()) == Attach(old(View()), parent, name, kind)
    {
      id := AllocateInode(parent, name, kind);
      inodes := inodes[parent := inodes[parent].(kind := Directory(inodes[parent].kind.children + [id]))];
    }

    method MkdirAt(parent: nat, name: string) returns (r: Result<nat>)
      requires Valid() && Usable(View()) && parent < |inodes|
      modifies this
      ensures Valid() && (r, View()) == Mkdir(old(View()), parent, name)
      ensures depth == DepthAfter(old(View()), old(depth), parent, name)
    {
      hide NodeOk, FreeOk, Attach, FindChild;
      MkdirOk(View(), depth, parent, name);
      if !inodes[parent].kind.Directory? { return Err(NotADirectory); }
      var found := FindEntry(parent, name);
      if found.Some? { return Err(AlreadyExists); }
      depth := DepthAfter(View(), depth, parent, name);
      var id := AttachInode(parent, name, Directory([]));
      r := Ok(id);
    }

    method CreateFileAt(parent: nat, name: string, content: seq<nat>) returns (r: Result<nat>)
      requires Valid() && Usable(View()) && parent < |inodes|
      modifies this
      ensures Valid() && (r, View()) == CreateFile(old(View()), parent, name, content)
      ensures depth == DepthAfter(old(View()), old(depth), parent, name)
    {
      hide NodeOk, FreeOk, Attach, FindChild;
      CreateFileOk(View(), depth, parent, name, content);
      if !inodes[parent].kind.Directory? { return Err(NotADirectory); }
      var found := FindEntry(parent, name);
      if found.Some? {
        var c := found.value;
        if inodes[c].kind.File? {
          inodes := inodes[c := inodes[c].(kind := File(content))];
          return Ok(c);
        } else {
          return Err(IsDirectory);
        }
      }
      depth := DepthAfter(View(), depth, parent, name);
      var id := AttachInode(parent, name, File(content));
      r := Ok(id);
    }

    /** `create_proc_file_at` and `create_device_file_at`; they look for no entry of the same name. */
    method CreateSpecialAt(parent: nat, name: string, kind: Kind) returns (r: Result<nat>)
      requires Valid() && Usable(View()) && parent < |inodes| && !kind.Directory? && !kind.Tombstone?
      modifies this
      ensures (r, View()) == CreateSpecial(old(View()), parent, name, kind)
      ensures Valid() <==> r.Err? || FindChild(old(View()), Children(old(View()), parent), name) == None
    {
      hide NodeOk, FreeOk, Attach, FindChild;
      if !inodes[parent].kind.Directory? { return Err(NotADirectory); }
      CreateSpecialIff(View(), depth, parent, name, kind);
      if FindChild(View(), Children(View(), parent), name) == None { AttachOk(View(), depth, parent, name, kind); }
      depth := NewDepth(View(), depth, parent);
      var id := AttachInode(parent, name, kind);
      r := Ok(id);
    }

    /** The recursion into an accumulator. */
    method CollectDescendants(node: nat, acc: seq<nat>) returns (r: seq<nat>)
      requires Valid() && node < |inodes|
      ensures r == acc + if Live(View(), node) then Collect(View(), depth, node) else []
      decreases if Live(View(), node) then Bound(depth) - depth[node] + 1 else 0
    {
      hide TreeOk, Collect, CollectList, Bound;
      r := acc;
      if !inodes[node].kind.Directory? {
        LeafCollects(View(), depth, node);
        return;
      }
      CollectListIs(View(), depth, node);
      var children := inodes[node].kind.children;
      var i := 0;
      assert children[0..] == children;
      while i < |children|
        invariant i <= |children|
        invariant r + CollectList(View(), depth, node, children[i..]) == acc + Collect(View(), depth, node)
      {
        CollectStep(View(), depth, node, children[i..]);
        assert children[i..][1..] == children[i + 1..];
        r := r + [children[i]];
        r := CollectDescendants(children[i], r);
        i := i + 1;
      }
      CollectNone(View(), depth, node, children[i..]);
    }

    /** `remove_entry`. */
    method RemoveEntry(target: nat) returns (r: Result<()>)
      requires Valid() && target < |inodes|
      modifies `inodes, `free
      ensures Valid() && (r, View()) == Remove(old(View()), depth, target)
    {
      hide TreeOk, Collect, Bury, Bound, DropFirst;
      RemoveOk(View(), depth, target);
      if target == 0 { return Err(RootProtected); }
      var ids := CollectDescendants(target, []);
      ids := ids + [target];
      ghost var was := View();
      assert Live(was, target) ==> ids == Collect(was, depth, target) + [target];
      var parent := inodes[target].parent;
      DeadHasNoParent(was, depth, target);
      if !inodes[parent].kind.Directory? { return Err(NotFound); }
      var children := inodes[parent].kind.children;
      var p := 0;
      while p < |children| && children[p] != target
        invariant p <= |children| && target !in children[..p]
      {
        p := p + 1;
      }
      if p == |children| {
        assert children[..p] == children;
        return Err(NotFound);
      }
      DropFirstIs(children, target, p);
      CollectInTable(was, depth, target);
      inodes := inodes[parent := inodes[parent].(kind := Directory(children[..p] + children[p + 1..]))];
      assert View() == Unlink(was, parent, target) && InTable(was, ids);
      BuryAll(ids);
      r := Ok(());
    }

    /** The loop that turns the collected inodes into tombstones. */
    method BuryAll(ids: seq<nat>)
      requires InTable(View(), ids)
      modifies `inodes, `free
      ensures View() == Bury(old(View()), ids)
    {
      var i := 0;
      assert ids[0..] == ids;
      while i < |ids|
        invariant i <= |ids| && InTable(View(), ids[i..]) && current == old(current)
        invariant Bury(View(), ids[i..]) == Bury(old(View()), ids)
      {
        var id := ids[i];
        assert ids[i..][0] == id && ids[i..][1..] == ids[i + 1..];
        inodes := inodes[id := inodes[id].(kind := Tombstone, name := "", parent := 0)];
        free := free + [id];
        i := i + 1;
      }
    }

    /** `resolve_path`: one directory per segment. */
    method ResolvePath(path: string) returns (r: Result<nat>)
      requires Valid() && Navigable(View()) && current < |inodes|
      ensures r == Resolve(View(), path)
    {
      hide TreeOk, FindChild;
      var trimmed := Trim(path);
      if trimmed == [] { return Ok(current); }
      var curr: nat, rest: string := current, trimmed;
      if trimmed[0] == '/' { curr, rest := 0, trimmed[1..]; }
      var segments := Split(rest);
      ghost var start := curr;
      var i := 0;
      assert segments[0..] == segments;
      while i < |segments|
        invariant i <= |segments| && curr < |inodes|
        invariant Walk(View(), curr, segments[i..]) == Walk(View(), start, segments)
      {
        var segment := segments[i];
        assert segments[i..][0] == segment && segments[i..][1..] == segments[i + 1..];
        i := i + 1;
        if segment == "" || segment == "." { continue; }
        if segment == ".." {
          curr := inodes[curr].parent;
          continue;
        }
        if !inodes[curr].kind.Directory? { return Err(NotADirectory); }
        var next := FindEntry(curr, segment);
        match next
        case Some(id) => curr := id;
        case None => return Err(NotFound);
      }
      r := Ok(curr);
    }

    /** `get_path`: the names up to the root, then the path from the top down. */
    method PathOf(id: nat) returns (path: string)
      requires Valid() && id < |inodes|
      ensures path == GetPath(View(), depth, id)
    {
      hide TreeOk, Climb;
      if id == 0 { return "/"; }
      var node: nat, segments: seq<string> := id, [];
      while node != 0
        invariant node < |inodes|
        invariant Names(View(), depth, node) + Reversed(segments) == Names(View(), depth, id)
        decreases Climb(View(), depth, node)
      {
        Climbs(View(), depth, node);
        assert Reversed(segments + [inodes[node].name]) == [inodes[node].name] + Reversed(segments);
        segments := segments + [inodes[node].name];
        node := inodes[node].parent;
      }
      assert Reversed(segments) == Names(View(), depth, id);
      path := JoinUp(segments);
    }

    /** The second loop of `get_path`, over the collected names from the last to the first. */
    static method JoinUp(segments: seq<string>) returns (path: string)
      ensures path == Joined(Reversed(segments))
    {
      path := "";
      ghost var names := Reversed(segments);
      var i := |segments|;
      while i > 0
        invariant 0 <= i <= |segments|
        invariant path == Joined(names[..|segments| - i])
      {
        i := i - 1;
        ghost var k := |segments| - i;
        assert names[..k][..k - 1] == names[..k - 1] && names[..k][k - 1] == segments[i];
        path := path + "/" + segments[i];
      }
      assert names[..|segments|] == names;
    }
  }

  lemma LeafCollects(fs: Fs, depth: seq<nat>, t: nat)
    requires TreeOk(fs, depth) && t < |fs.inodes| && !IsDir(fs, t)
    ensures Live(fs, t) ==> Collect(fs, depth, t) == []
  {
  }

  lemma CollectNone(fs: Fs, depth: seq<nat>, t: nat, list: seq<nat>)
    requires TreeOk(fs, depth) && IsDir(fs, t) && list == []
    ensures CollectList(fs, depth, t, list) == []
  {
  }

  lemma DeadHasNoParent(fs: Fs, depth: seq<nat>, t: nat)
    requires TreeOk(fs, depth) && t < |fs.inodes|
    ensures fs.inodes[t].parent < |fs.inodes|
    ensures !Live(fs, t) ==> IsDir(fs, fs.inodes[t].parent) ==> t !in Children(fs, fs.inodes[t].parent)
  {
    assert NodeOk(fs, depth, t);
    if IsDir(fs, fs.inodes[t].parent) { assert NodeOk(fs, depth, fs.inodes[t].parent); }
  }
}
