/** Printing and resolving paths in the inode tree. */
module InodePaths {
  import opened InodeTree

  // ----- Strings -----

  /** The characters `str::trim` removes: the Unicode White_Space property. */
  predicate White(c: char) {
    var n := c as int;
    || 0x9 <= n <= 0xD || n == 0x20 || n == 0x85 || n == 0xA0 || n == 0x1680
    || 0x2000 <= n <= 0x200A || n == 0x2028 || n == 0x2029 || n == 0x202F || n == 0x205F || n == 0x3000
  }

  function TrimStart(s: string): string {
    if s != [] && White(s[0]) then TrimStart(s[1..]) else s
  }

  function TrimEnd(s: string): (r: string)
    ensures r <= s && (r == s <==> s == [] || !White(s[|s| - 1]))
  {
    if s != [] && White(s[|s| - 1]) then TrimEnd(s[..|s| - 1]) else s
  }

  function Trim(s: string): string {
    TrimEnd(TrimStart(s))
  }

  /** `str::split('/')`: the pieces between slashes, at least one. */
  function Split(s: string): (r: seq<string>)
    ensures r != []
  {
    if s == [] then [""]
    else
      var r := Split(s[1..]);
      if s[0] == '/' then [""] + r else [[s[0]] + r[0]] + r[1..]
  }

  lemma {:induction false} SplitPlain(s: string)
    requires '/' !in s
    ensures Split(s) == [s]
  {
    if s != [] {
      SplitPlain(s[1..]);
      assert [s[0]] + s[1..] == s;
    }
  }

  lemma {:induction false} SplitJoin(s: string, n: string)
    requires '/' !in n
    ensures Split(s + "/" + n) == Split(s) + [n]
  {
    var t := s + "/" + n;
    if s == [] {
      assert t[1..] == n;
      SplitPlain(n);
    } else {
      assert t[1..] == s[1..] + "/" + n;
      SplitJoin(s[1..], n);
    }
  }

  lemma {:induction false} PiecesPlain(s: string, j: nat)
    requires j < |Split(s)|
    ensures '/' !in Split(s)[j]
  {
    if s != [] {
      var r := Split(s[1..]);
      if s[0] == '/' {
        if j > 0 { PiecesPlain(s[1..], j - 1); }
      } else {
        PiecesPlain(s[1..], j);
      }
    }
  }

  lemma {:induction false} TrimLast(s: string, n: string)
    ensures TrimEnd(s + "/" + n) == s + "/" + TrimEnd(n)
  {
    var t := s + "/" + n;
    if n != [] && White(n[|n| - 1]) {
      assert t[..|t| - 1] == s + "/" + n[..|n| - 1];
      TrimLast(s, n[..|n| - 1]);
    }
  }

  // ----- Resolving -----

  /** Every index the resolver follows is in the table. */
  ghost predicate Navigable(fs: Fs) {
    Usable(fs) && |fs.inodes| > 0 && forall i | 0 <= i < |fs.inodes| :: fs.inodes[i].parent < |fs.inodes|
  }

  lemma TreeNavigable(fs: Fs, depth: seq<nat>)
    requires TreeOk(fs, depth)
    ensures Navigable(fs)
  {
    TreeUsable(fs, depth);
    forall i | 0 <= i < |fs.inodes| ensures fs.inodes[i].parent < |fs.inodes| { assert NodeOk(fs, depth, i); }
  }

  predicate Plain(segment: string) {
    segment != "" && segment != "." && segment != ".."
  }

  /** One turn of the loop of `resolve_path`. */
  function Enter(fs: Fs, cur: nat, segment: string): (r: Result<nat>)
    requires Navigable(fs) && cur < |fs.inodes|
    ensures r.Ok? ==> r.value < |fs.inodes|
  {
    if segment == "" || segment == "." then Ok(cur)
    else if segment == ".." then Ok(fs.inodes[cur].parent)
    else if !IsDir(fs, cur) then Err(NotADirectory)
    else match FindChild(fs, Children(fs, cur), segment)
      case Some(c) => Ok(c)
      case None => Err(NotFound)
  }

  function Walk(fs: Fs, cur: nat, segments: seq<string>): (r: Result<nat>)
    requires Navigable(fs) && cur < |fs.inodes|
    ensures r.Ok? ==> r.value < |fs.inodes|
    decreases segments
  {
    if segments == [] then Ok(cur)
    else match Enter(fs, cur, segments[0])
      case Ok(next) => Walk(fs, next, segments[1..])
      case Err(e) => Err(e)
  }

  /** `resolve_path`. */
  function Resolve(fs: Fs, path: string): Result<nat>
    requires Navigable(fs) && fs.cwd < |fs.inodes|
  {
    var t := Trim(path);
    if t == [] then Ok(fs.cwd)
    else if t[0] == '/' then Walk(fs, 0, Split(t[1..]))
    else Walk(fs, fs.cwd, Split(t))
  }

  /** Walking a longer list of segments goes on from where the shorter one ends. */
  lemma {:induction false} WalkJoin(fs: Fs, cur: nat, u: seq<string>, segment: string)
    requires Navigable(fs) && cur < |fs.inodes|
    ensures Walk(fs, cur, u + [segment]) ==
      match Walk(fs, cur, u) case Ok(n) => Enter(fs, n, segment) case Err(e) => Err(e)
    decreases u
  {
    hide Enter;
    if u == [] {
      assert ([segment])[1..] == [];
    } else {
      assert (u + [segment])[1..] == u[1..] + [segment];
      var r := Enter(fs, cur, u[0]);
      if r.Ok? { WalkJoin(fs, r.value, u[1..], segment); }
    }
  }

  // ----- Printing -----

  /** How far `get_path` still has to climb. */
  ghost function Climb(fs: Fs, depth: seq<nat>, id: nat): nat
    requires TreeOk(fs, depth) && id < |fs.inodes|
  {
    if id == 0 then 0 else if Live(fs, id) then depth[id] else 1
  }

  lemma Climbs(fs: Fs, depth: seq<nat>, id: nat)
    requires TreeOk(fs, depth) && 0 < id < |fs.inodes|
    ensures fs.inodes[id].parent < |fs.inodes| && Climb(fs, depth, fs.inodes[id].parent) < Climb(fs, depth, id)
    ensures Live(fs, fs.inodes[id].parent)
  {
    assert NodeOk(fs, depth, id);
  }

  /** The names from below the root down to `id`. */
  ghost function Names(fs: Fs, depth: seq<nat>, id: nat): seq<string>
    requires TreeOk(fs, depth) && id < |fs.inodes|
    decreases Climb(fs, depth, id)
  {
    if id == 0 then [] else Climbs(fs, depth, id); Names(fs, depth, fs.inodes[id].parent) + [fs.inodes[id].name]
  }

  function Joined(names: seq<string>): string {
    if names == [] then "" else Joined(names[..|names| - 1]) + "/" + names[|names| - 1]
  }

  /** `get_path`. */
  ghost function GetPath(fs: Fs, depth: seq<nat>, id: nat): string
    requires TreeOk(fs, depth) && id < |fs.inodes|
  {
    if id == 0 then "/" else Joined(Names(fs, depth, id))
  }

  // ----- The two agree -----

  /** A name the resolver reads back as one segment. */
  predicate GoodName(n: string) {
    Plain(n) && '/' !in n
  }

  predicate AllGood(names: seq<string>) {
    forall j | 0 <= j < |names| :: GoodName(names[j])
  }

  /** The names on the way to `id` are good and the last one does not end in white space. */
  ghost predicate Printable(fs: Fs, depth: seq<nat>, id: nat)
    requires TreeOk(fs, depth) && id < |fs.inodes|
  {
    AllGood(Names(fs, depth, id)) && TrimEnd(fs.inodes[id].name) == fs.inodes[id].name
  }

  lemma {:induction false} JoinedSplits(names: seq<string>)
    requires names != [] && forall j | 0 <= j < |names| :: '/' !in names[j]
    ensures var s := Joined(names); s != [] && s[0] == '/' && Split(s[1..]) == names
  {
    hide Split;
    var k := |names| - 1;
    var last := names[k];
    assert names == names[..k] + [last];
    var s := Joined(names[..k]);
    assert Joined(names) == s + "/" + last;
    if k == 0 {
      SplitPlain(last);
      assert Joined(names)[1..] == last;
    } else {
      assert forall j | 0 <= j < k :: '/' !in names[..k][j];
      JoinedSplits(names[..k]);
      SplitJoin(s[1..], last);
      assert (s + "/" + last)[1..] == s[1..] + "/" + last;
    }
  }

  /** The trimmed path: only the end of the last name is cut. */
  lemma TrimmedPath(names: seq<string>)
    requires names != []
    ensures Trim(Joined(names)) == Joined(names[..|names| - 1] + [TrimEnd(names[|names| - 1])])
  {
    hide TrimEnd, TrimStart, Joined;
    var k := |names| - 1;
    var a, last := names[..k], names[k];
    assert names == a + [last];
    JoinedLast(a, last);
    JoinedLast(a, TrimEnd(last));
    JoinedSlash(names);
    NoTrimStart(Joined(names));
    TrimLast(Joined(a), last);
  }

  lemma JoinedLast(a: seq<string>, last: string)
    ensures Joined(a + [last]) == Joined(a) + "/" + last
  {
  }

  lemma NoTrimStart(s: string)
    requires s != [] && s[0] == '/'
    ensures TrimStart(s) == s
  {
  }

  lemma {:induction false} JoinedSlash(names: seq<string>)
    requires names != []
    ensures Joined(names) != [] && Joined(names)[0] == '/'
  {
    if |names| > 1 { JoinedSlash(names[..|names| - 1]); }
  }

  /** Following the name of an entry from its directory reaches it. */
  lemma EnterChild(fs: Fs, depth: seq<nat>, id: nat)
    requires TreeOk(fs, depth) && Navigable(fs) && Live(fs, id) && id != 0 && GoodName(fs.inodes[id].name)
    ensures Enter(fs, fs.inodes[id].parent, fs.inodes[id].name) == Ok(id)
  {
    hide FreeOk, FindChild;
    assert NodeOk(fs, depth, id);
    var p := fs.inodes[id].parent;
    var c, name := Children(fs, p), fs.inodes[id].name;
    var r := FindChild(fs, c, name);
    var j :| 0 <= j < |c| && c[j] == id;
    assert r.Some?;
    SiblingNames(fs, depth, p, id, r.value);
  }

  /** With good names, the names on the way to an inode lead to it. */
  lemma {:induction false} WalkNames(fs: Fs, depth: seq<nat>, id: nat)
    requires TreeOk(fs, depth) && Navigable(fs) && Live(fs, id) && AllGood(Names(fs, depth, id))
    ensures Walk(fs, 0, Names(fs, depth, id)) == Ok(id)
    decreases Climb(fs, depth, id)
  {
    hide TreeOk, Navigable, Enter;
    if id != 0 {
      Climbs(fs, depth, id);
      var p, n := fs.inodes[id].parent, fs.inodes[id].name;
      var up := Names(fs, depth, p);
      var all := Names(fs, depth, id);
      assert all == up + [n];
      assert GoodName(all[|all| - 1]);
      assert forall j | 0 <= j < |up| :: up[j] == all[j];
      WalkNames(fs, depth, p);
      WalkJoin(fs, 0, up, n);
      EnterChild(fs, depth, id);
    }
  }

  /** A walk that ends inside the subtree of `a` but starts outside it names `a` on the way. */
  lemma {:induction false} WalkNamesAll(fs: Fs, depth: seq<nat>, cur: nat, segments: seq<string>, a: nat)
    requires TreeOk(fs, depth) && Navigable(fs) && Live(fs, cur) && Live(fs, a) && !Under(fs, depth, cur, a)
    requires var r := Walk(fs, cur, segments); r.Ok? && Under(fs, depth, r.value, a)
    ensures fs.inodes[a].name in segments && Plain(fs.inodes[a].name)
    decreases segments
  {
    hide TreeOk, Navigable, Under, Enter;
    if segments != [] {
      var next := Enter(fs, cur, segments[0]).value;
      EnterCrosses(fs, depth, cur, segments[0], a);
      if !Under(fs, depth, next, a) {
        WalkNamesAll(fs, depth, next, segments[1..], a);
      }
    }
  }

  lemma EnterCrosses(fs: Fs, depth: seq<nat>, cur: nat, segment: string, a: nat)
    requires TreeOk(fs, depth) && Navigable(fs) && Live(fs, cur) && Live(fs, a) && !Under(fs, depth, cur, a)
    requires Enter(fs, cur, segment).Ok?
    ensures var next := Enter(fs, cur, segment).value;
      Live(fs, next) && (Under(fs, depth, next, a) ==> segment == fs.inodes[a].name && Plain(segment))
  {
    hide FreeOk, FindChild, Under, Navigable;
    assert NodeOk(fs, depth, cur) && IsDir(fs, 0);
    var next := Enter(fs, cur, segment).value;
    if segment == ".." && cur != 0 {
      UnderParent(fs, depth, cur, a);
    } else if Plain(segment) {
      DirChildren(fs, depth, cur);
      assert ChildOf(fs, cur, next);
      UnderParent(fs, depth, next, a);
    }
  }

  /** Every proper ancestor of an inode below the root, and itself, gives one of the names. */
  lemma {:induction false} NameOwner(fs: Fs, depth: seq<nat>, id: nat, j: nat) returns (a: nat)
    requires TreeOk(fs, depth) && Live(fs, id) && j < |Names(fs, depth, id)|
    ensures Live(fs, a) && a != 0 && Under(fs, depth, id, a) && fs.inodes[a].name == Names(fs, depth, id)[j]
    decreases Climb(fs, depth, id)
  {
    hide TreeOk, Under;
    Climbs(fs, depth, id);
    var p := fs.inodes[id].parent;
    if j == |Names(fs, depth, p)| {
      a := id;
      SelfUnder(fs, depth, id);
    } else {
      a := NameOwner(fs, depth, p, j);
      UnderParent(fs, depth, id, a);
    }
  }

  /** If a slash-free list of segments leads from the root to `id`, all names on the way are good. */
  lemma ReachedGood(fs: Fs, depth: seq<nat>, id: nat, segments: seq<string>)
    requires TreeOk(fs, depth) && Navigable(fs) && Live(fs, id) && Walk(fs, 0, segments) == Ok(id)
    requires forall j | 0 <= j < |segments| :: '/' !in segments[j]
    ensures AllGood(Names(fs, depth, id))
  {
    hide NodeOk, FreeOk, Under, Navigable, Enter, Names;
    var names := Names(fs, depth, id);
    forall j | 0 <= j < |names| ensures GoodName(names[j]) {
      var a := NameOwner(fs, depth, id, j);
      ParentNotUnder(fs, depth, a);
      WalkNamesAll(fs, depth, 0, segments, a);
    }
  }

  /** A cut last name does not lead to the inode. */
  lemma CutMisses(fs: Fs, depth: seq<nat>, id: nat, cut: string)
    requires TreeOk(fs, depth) && Navigable(fs) && Live(fs, id) && id != 0 && cut != fs.inodes[id].name
    ensures Enter(fs, fs.inodes[id].parent, cut) != Ok(id)
  {
    hide FreeOk, FindChild;
    assert NodeOk(fs, depth, id) && NodeOk(fs, depth, fs.inodes[id].parent);
  }

  lemma ResolvePrinted(fs: Fs, depth: seq<nat>, id: nat)
    requires TreeOk(fs, depth) && Navigable(fs) && fs.cwd < |fs.inodes| && Live(fs, id) && id != 0
    ensures var names := Names(fs, depth, id); names != [] && names[|names| - 1] == fs.inodes[id].name
    ensures var names := Names(fs, depth, id); var k := |names| - 1;
      Resolve(fs, GetPath(fs, depth, id)) == Walk(fs, 0, Split(Joined(names[..k] + [TrimEnd(names[k])])[1..]))
  {
    hide TreeOk, Navigable, Walk, Split, Joined;
    var names := Names(fs, depth, id);
    Climbs(fs, depth, id);
    TrimmedPath(names);
    var k := |names| - 1;
    JoinedSlash(names[..k] + [TrimEnd(names[k])]);
  }

  /** `resolve_path(get_path(id))` is `id` exactly when every name on the way is non-empty, is not "." or "..", has no
      slash, and the last one does not end in white space. */
  lemma RoundTripIff(fs: Fs, depth: seq<nat>, id: nat)
    requires TreeOk(fs, depth) && Navigable(fs) && fs.cwd < |fs.inodes| && Live(fs, id)
    ensures id == 0 ==> Resolve(fs, GetPath(fs, depth, id)) == Ok(0)
    ensures id != 0 ==> (Resolve(fs, GetPath(fs, depth, id)) == Ok(id) <==> Printable(fs, depth, id))
  {
    hide NodeOk, FreeOk, Navigable, Enter, Names, Walk, Joined, Split, Resolve;
    if id == 0 {
      RootRoundTrip(fs);
    } else {
      var names := Names(fs, depth, id);
      ResolvePrinted(fs, depth, id);
      var k := |names| - 1;
      var cut := names[..k] + [TrimEnd(names[k])];
      if Resolve(fs, GetPath(fs, depth, id)) == Ok(id) {
        JoinedSlash(cut);
        var segments := Split(Joined(cut)[1..]);
        forall j | 0 <= j < |segments| ensures '/' !in segments[j] { PiecesPlain(Joined(cut)[1..], j); }
        ReachedGood(fs, depth, id, segments);
      }
      if AllGood(names) {
        GoodPath(fs, depth, id);
      }
    }
  }

  lemma RootRoundTrip(fs: Fs)
    requires Navigable(fs) && fs.cwd < |fs.inodes|
    ensures Resolve(fs, "/") == Ok(0)
  {
    assert TrimStart("/") == "/" && TrimEnd("/") == "/";
    assert Trim("/")[1..] == "" && Split("") == [""];
    assert ([""])[1..] == [];
    assert Enter(fs, 0, "") == Ok(0);
  }

  /** With good names the resolver walks to the parent and then looks for the trimmed last name. */
  lemma GoodPath(fs: Fs, depth: seq<nat>, id: nat)
    requires TreeOk(fs, depth) && Navigable(fs) && fs.cwd < |fs.inodes| && Live(fs, id) && id != 0
    requires AllGood(Names(fs, depth, id))
    ensures Resolve(fs, GetPath(fs, depth, id)) == Ok(id) <==> TrimEnd(fs.inodes[id].name) == fs.inodes[id].name
  {
    hide NodeOk, FreeOk, Navigable, Enter, Walk, Joined, Split, Resolve;
    var names, p := Names(fs, depth, id), fs.inodes[id].parent;
    ResolvePrinted(fs, depth, id);
    var k := |names| - 1;
    var last := TrimEnd(names[k]);
    assert GoodName(names[k]);
    forall j | 0 <= j < |names[..k] + [last]| ensures '/' !in (names[..k] + [last])[j] {
      if j < k { assert GoodName(names[j]); }
    }
    JoinedSplits(names[..k] + [last]);
    Climbs(fs, depth, id);
    assert names[..k] == Names(fs, depth, p);
    assert AllGood(names[..k]) by { assert forall j | 0 <= j < k :: names[..k][j] == names[j]; }
    WalkNames(fs, depth, p);
    WalkJoin(fs, 0, names[..k], last);
    if last == names[k] { EnterChild(fs, depth, id); } else { CutMisses(fs, depth, id, last); }
  }
}
