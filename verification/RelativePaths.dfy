/** What a path means to the resolver: white space, the working directory, one segment more, and the way up. */
module RelativePaths {
  import opened Wrappers
  import opened InodeTree
  import opened InodePaths

  // ----- White space -----

  ghost predicate Blank(s: string) {
    forall i | 0 <= i < |s| :: White(s[i])
  }

  lemma {:induction false} TrimStartIs(s: string)
    ensures |TrimStart(s)| <= |s| && (TrimStart(s) == s <==> s == [] || !White(s[0]))
    ensures TrimStart(s) == [] <==> Blank(s)
    ensures s != [] && !White(s[|s| - 1]) ==> TrimStart(s) != [] && TrimStart(s)[|TrimStart(s)| - 1] == s[|s| - 1]
  {
    if s != [] && White(s[0]) {
      TrimStartIs(s[1..]);
      assert Blank(s) <==> Blank(s[1..]) by { assert forall i | 1 <= i < |s| :: s[i] == s[1..][i - 1]; }
    }
  }

  lemma {:induction false} TrimStartJoin(s: string, u: string)
    requires !Blank(s)
    ensures TrimStart(s + u) == TrimStart(s) + u
  {
    if White(s[0]) {
      assert !Blank(s[1..]) by { assert forall i | 1 <= i < |s| :: s[i] == s[1..][i - 1]; }
      assert (s + u)[1..] == s[1..] + u;
      TrimStartJoin(s[1..], u);
    }
  }

  lemma TrimIs(s: string)
    ensures Trim(s) == s <==> s == [] || (!White(s[0]) && !White(s[|s| - 1]))
    ensures Blank(s) ==> Trim(s) == []
  {
    hide TrimStart, TrimEnd, White;
    TrimStartIs(s);
  }

  lemma TrimAppend(s: string, c: char)
    requires White(c)
    ensures Trim(s + [c]) == Trim(s)
  {
    hide TrimStart, White;
    TrimStartIs(s);
    TrimStartIs(s + [c]);
    if Blank(s) {
      assert Blank(s + [c]);
    } else {
      TrimStartJoin(s, [c]);
      var t := TrimStart(s);
      assert (t + [c])[..|t + [c]| - 1] == t;
    }
  }

  /** White space around a path does not matter, and a path of nothing else is the working directory. */
  lemma WhiteAround(fs: Fs, path: string, c: char)
    requires Navigable(fs) && fs.cwd < |fs.inodes| && White(c)
    ensures Resolve(fs, [c] + path) == Resolve(fs, path) == Resolve(fs, path + [c])
    ensures Blank(path) ==> Resolve(fs, path) == Ok(fs.cwd)
  {
    hide Walk, Split, White, Navigable;
    assert ([c] + path)[1..] == path;
    TrimAppend(path, c);
    TrimIs(path);
  }

  // ----- One segment more -----

  /** A piece of a path that nothing is cut from at its end. */
  predicate Segment(s: string) {
    '/' !in s && (s == [] || !White(s[|s| - 1]))
  }

  /** A path that nothing is cut from at its end. */
  predicate Ended(p: string) {
    p != [] && !White(p[|p| - 1])
  }

  lemma EndedTrim(p: string)
    requires Ended(p)
    ensures Trim(p) == TrimStart(p) != [] && !Blank(p)
  {
    hide TrimStart, TrimEnd, White;
    TrimStartIs(p);
  }

  lemma TrimSegment(p: string, segment: string)
    requires Ended(p) && Segment(segment)
    ensures Trim(p + "/" + segment) == Trim(p) + "/" + segment && Trim(p) != []
  {
    hide TrimStart, TrimEnd, White, Blank;
    var q := p + "/" + segment;
    EndedTrim(p);
    SlashNotWhite();
    EndedTrim(q);
    assert q == p + ("/" + segment);
    TrimStartJoin(p, "/" + segment);
  }

  lemma SlashNotWhite()
    ensures !White('/')
  {
  }

  /** Resolving one segment more is resolving the path and then entering the segment. */
  lemma ResolveStep(fs: Fs, p: string, segment: string)
    requires Navigable(fs) && fs.cwd < |fs.inodes| && Ended(p) && Segment(segment)
    ensures Resolve(fs, p).Ok? ==> Resolve(fs, p).value < |fs.inodes|
    ensures Resolve(fs, p + "/" + segment) ==
      match Resolve(fs, p) case Ok(n) => Enter(fs, n, segment) case Err(e) => Err(e)
  {
    hide Trim, Walk, Split, Enter, Navigable, White;
    TrimSegment(p, segment);
    var t := Trim(p);
    if t[0] == '/' {
      assert (t + "/" + segment)[1..] == t[1..] + "/" + segment;
      SplitJoin(t[1..], segment);
      WalkJoin(fs, 0, Split(t[1..]), segment);
    } else {
      SplitJoin(t, segment);
      WalkJoin(fs, fs.cwd, Split(t), segment);
    }
  }

  lemma WalkOne(fs: Fs, cur: nat, segment: string)
    requires Navigable(fs) && cur < |fs.inodes| && '/' !in segment
    ensures Walk(fs, cur, Split(segment)) == Enter(fs, cur, segment)
  {
    hide Enter, Split, Navigable;
    SplitPlain(segment);
    assert ([segment])[1..] == [];
  }

  /** A single segment is looked up in the working directory, and in the root after a slash. */
  lemma ResolveFirst(fs: Fs, segment: string)
    requires Navigable(fs) && fs.cwd < |fs.inodes| && Segment(segment)
    ensures Resolve(fs, "/" + segment) == Enter(fs, 0, segment)
    ensures segment != [] && !White(segment[0]) ==> Resolve(fs, segment) == Enter(fs, fs.cwd, segment)
  {
    hide Walk, Split, Enter, Navigable, White, Trim;
    SlashNotWhite();
    TrimIs("/" + segment);
    assert ("/" + segment)[1..] == segment;
    TrimIs(segment);
    WalkOne(fs, 0, segment);
    WalkOne(fs, fs.cwd, segment);
  }

  /** What entering a segment means in a tree: "" and "." stay; ".." goes to the directory that holds the inode, and the
      root is its own parent; any other name is that of an entry of the directory. */
  lemma EnterIs(fs: Fs, depth: seq<nat>, cur: nat, segment: string)
    requires TreeOk(fs, depth) && Navigable(fs) && Live(fs, cur)
    ensures var r := Enter(fs, cur, segment);
      && (r.Ok? ==> Live(fs, r.value))
      && (segment == "" || segment == "." ==> r == Ok(cur))
      && (segment == ".." && cur == 0 ==> r == Ok(0))
      && (segment == ".." && cur != 0 ==> r.Ok? && IsDir(fs, r.value) && cur in Children(fs, r.value))
      && (Plain(segment) ==>
            && (forall c: nat :: r == Ok(c) <==> IsDir(fs, cur) && c in Children(fs, cur) && NameIs(fs, c, segment))
            && (r == Err(NotADirectory) <==> !IsDir(fs, cur))
            && (r == Err(NotFound) <==> IsDir(fs, cur) && forall c | c in Children(fs, cur) :: !NameIs(fs, c, segment)))
  {
    hide FreeOk, FindChild, Navigable;
    assert NodeOk(fs, depth, cur) && IsDir(fs, 0);
    if Plain(segment) && IsDir(fs, cur) {
      var r := FindChild(fs, Children(fs, cur), segment);
      DirChildren(fs, depth, cur);
      forall c: nat ensures r == Some(c) <==> c in Children(fs, cur) && NameIs(fs, c, segment) {
        if c in Children(fs, cur) && r.Some? { SiblingNames(fs, depth, cur, c, r.value); }
      }
    }
  }

  predicate NameIs(fs: Fs, c: nat, name: string) {
    c < |fs.inodes| && fs.inodes[c].name == name
  }

  lemma {:induction false} WalkLive(fs: Fs, depth: seq<nat>, cur: nat, segments: seq<string>)
    requires TreeOk(fs, depth) && Navigable(fs) && Live(fs, cur)
    ensures Walk(fs, cur, segments).Ok? ==> Live(fs, Walk(fs, cur, segments).value)
    decreases segments
  {
    hide TreeOk, Navigable, Enter;
    if segments != [] {
      EnterIs(fs, depth, cur, segments[0]);
      var r := Enter(fs, cur, segments[0]);
      if r.Ok? { WalkLive(fs, depth, r.value, segments[1..]); }
    }
  }

  lemma ResolveLive(fs: Fs, depth: seq<nat>, p: string)
    requires TreeOk(fs, depth) && Navigable(fs) && Live(fs, fs.cwd)
    ensures Resolve(fs, p).Ok? ==> Live(fs, Resolve(fs, p).value)
  {
    hide NodeOk, FreeOk, Navigable, Walk, Split, Trim;
    var t := Trim(p);
    if t != [] && t[0] == '/' {
      WalkLive(fs, depth, 0, Split(t[1..]));
    } else if t != [] {
      WalkLive(fs, depth, fs.cwd, Split(t));
    }
  }

  /** After a path that resolves, "/.." leads to the directory that holds the inode found, and stays at the root; and
      "/name" leads to the entry of that name, or fails for want of it or of a directory. */
  lemma UpAndDown(fs: Fs, depth: seq<nat>, p: string, name: string)
    requires TreeOk(fs, depth) && Navigable(fs) && Live(fs, fs.cwd) && Ended(p) && Resolve(fs, p).Ok?
    requires Segment(name) && Plain(name)
    ensures var id, up := Resolve(fs, p).value, Resolve(fs, p + "/..");
      && Live(fs, id) && up.Ok?
      && (if id == 0 then up.value == 0 else IsDir(fs, up.value) && id in Children(fs, up.value))
    ensures var id, down := Resolve(fs, p).value, Resolve(fs, p + "/" + name);
      && (forall c: nat :: down == Ok(c) <==> IsDir(fs, id) && c in Children(fs, id) && NameIs(fs, c, name))
      && (down == Err(NotADirectory) <==> !IsDir(fs, id))
      && (down == Err(NotFound) <==> IsDir(fs, id) && forall c | c in Children(fs, id) :: !NameIs(fs, c, name))
  {
    hide TreeOk, Navigable, Resolve, Enter, White;
    ResolveLive(fs, depth, p);
    DotDot();
    assert p + "/.." == p + "/" + "..";
    ResolveStep(fs, p, "..");
    ResolveStep(fs, p, name);
    var id := Resolve(fs, p).value;
    EnterIs(fs, depth, id, "..");
    EnterIs(fs, depth, id, name);
  }

  lemma DotDot()
    ensures Segment("..")
  {
  }

  // ----- The names from a directory down -----

  lemma BelowStep(fs: Fs, depth: seq<nat>, id: nat, d: nat)
    requires TreeOk(fs, depth) && Live(fs, d) && Under(fs, depth, id, d) && id != d
    ensures Live(fs, id) && id != 0 && Live(fs, fs.inodes[id].parent) && Under(fs, depth, fs.inodes[id].parent, d)
    ensures depth[id] == depth[fs.inodes[id].parent] + 1
  {
    hide FreeOk;
    assert NodeOk(fs, depth, 0) && NodeOk(fs, depth, id);
    if id != 0 { UnderParent(fs, depth, id, d); }
  }

  /** The names on the way from `d` down to `id`. */
  ghost function NamesBelow(fs: Fs, depth: seq<nat>, id: nat, d: nat): seq<string>
    requires TreeOk(fs, depth) && Live(fs, d) && Under(fs, depth, id, d)
    decreases depth[id]
  {
    if id == d then []
    else BelowStep(fs, depth, id, d); NamesBelow(fs, depth, fs.inodes[id].parent, d) + [fs.inodes[id].name]
  }

  lemma {:induction false} BelowLength(fs: Fs, depth: seq<nat>, id: nat, d: nat)
    requires TreeOk(fs, depth) && Live(fs, d) && Under(fs, depth, id, d)
    ensures |NamesBelow(fs, depth, id, d)| == depth[id] - depth[d]
    decreases depth[id]
  {
    hide NodeOk, FreeOk, Under;
    if id != d {
      BelowStep(fs, depth, id, d);
      BelowLength(fs, depth, fs.inodes[id].parent, d);
    }
  }

  lemma {:induction false} BelowFront(fs: Fs, depth: seq<nat>, id: nat, next: nat, d: nat)
    requires TreeOk(fs, depth) && Live(fs, d) && ChildOf(fs, d, next) && Under(fs, depth, id, next)
    ensures Under(fs, depth, id, d)
    ensures NamesBelow(fs, depth, id, d) == [fs.inodes[next].name] + NamesBelow(fs, depth, id, next)
    decreases depth[id]
  {
    hide NodeOk, FreeOk, Under;
    SelfUnder(fs, depth, d);
    UnderParent(fs, depth, next, d);
    Deeper(fs, depth, id, next, d);
    if id == next {
      assert NamesBelow(fs, depth, d, d) == [];
    } else {
      BelowStep(fs, depth, id, next);
      BelowFront(fs, depth, fs.inodes[id].parent, next, d);
      UnderParent(fs, depth, id, d);
    }
  }

  lemma Deeper(fs: Fs, depth: seq<nat>, id: nat, next: nat, d: nat)
    requires TreeOk(fs, depth) && Live(fs, d) && ChildOf(fs, d, next) && Under(fs, depth, id, next)
    ensures id != d
  {
    hide FreeOk, Ancestor;
    assert NodeOk(fs, depth, next);
  }

  lemma EnterGains(fs: Fs, depth: seq<nat>, cur: nat, segment: string)
    requires TreeOk(fs, depth) && Navigable(fs) && Live(fs, cur) && Enter(fs, cur, segment).Ok?
    ensures var next := Enter(fs, cur, segment).value;
      && Live(fs, next) && depth[next] <= depth[cur] + 1
      && (depth[next] == depth[cur] + 1 ==> ChildOf(fs, cur, next) && fs.inodes[next].name == segment)
  {
    hide FreeOk, FindChild, Navigable;
    EnterIs(fs, depth, cur, segment);
    var next := Enter(fs, cur, segment).value;
    assert NodeOk(fs, depth, cur) && NodeOk(fs, depth, next) && NodeOk(fs, depth, 0);
    if Plain(segment) { DirChildren(fs, depth, cur); }
  }

  /** No walk goes deeper than it has segments, and one that goes that deep has spelt the names on the way. */
  lemma {:induction false} WalkExact(fs: Fs, depth: seq<nat>, cur: nat, segments: seq<string>)
    requires TreeOk(fs, depth) && Navigable(fs) && Live(fs, cur) && Walk(fs, cur, segments).Ok?
    ensures var id := Walk(fs, cur, segments).value;
      && Live(fs, id) && depth[id] <= depth[cur] + |segments|
      && (depth[id] == depth[cur] + |segments| ==>
            Under(fs, depth, id, cur) && NamesBelow(fs, depth, id, cur) == segments)
    decreases segments
  {
    hide NodeOk, FreeOk, Navigable, Enter, Under;
    var id := Walk(fs, cur, segments).value;
    if segments == [] {
      SelfUnder(fs, depth, cur);
    } else {
      EnterGains(fs, depth, cur, segments[0]);
      var next := Enter(fs, cur, segments[0]).value;
      WalkExact(fs, depth, next, segments[1..]);
      if depth[id] == depth[cur] + |segments| { BelowFront(fs, depth, id, next, cur); }
    }
  }

  lemma {:induction false} WalkBelow(fs: Fs, depth: seq<nat>, id: nat, d: nat)
    requires TreeOk(fs, depth) && Navigable(fs) && Live(fs, d) && Under(fs, depth, id, d)
    requires AllGood(NamesBelow(fs, depth, id, d))
    ensures Walk(fs, d, NamesBelow(fs, depth, id, d)) == Ok(id)
    decreases depth[id]
  {
    hide NodeOk, FreeOk, Navigable, Enter, Under;
    if id != d {
      BelowStep(fs, depth, id, d);
      var p, n := fs.inodes[id].parent, fs.inodes[id].name;
      var up, all := NamesBelow(fs, depth, p, d), NamesBelow(fs, depth, id, d);
      assert all == up + [n];
      assert GoodName(all[|all| - 1]);
      assert forall j | 0 <= j < |up| :: up[j] == all[j];
      WalkBelow(fs, depth, p, d);
      WalkJoin(fs, d, up, n);
      EnterChild(fs, depth, id);
    }
  }

  /** Each of these names belongs to an inode strictly below `d`. */
  lemma {:induction false} BelowOwner(fs: Fs, depth: seq<nat>, id: nat, d: nat, j: nat) returns (a: nat)
    requires TreeOk(fs, depth) && Live(fs, d) && Under(fs, depth, id, d) && j < |NamesBelow(fs, depth, id, d)|
    ensures Live(fs, a) && Under(fs, depth, id, a) && fs.inodes[a].name == NamesBelow(fs, depth, id, d)[j]
    ensures a != 0 && !Under(fs, depth, d, a)
    decreases depth[id]
  {
    hide NodeOk, FreeOk, Under;
    BelowStep(fs, depth, id, d);
    var p := fs.inodes[id].parent;
    if j == |NamesBelow(fs, depth, p, d)| {
      a := id;
      SelfUnder(fs, depth, id);
      NotUnder(fs, depth, id, d);
    } else {
      a := BelowOwner(fs, depth, p, d, j);
      UnderParent(fs, depth, id, a);
    }
  }

  lemma NotUnder(fs: Fs, depth: seq<nat>, id: nat, d: nat)
    requires TreeOk(fs, depth) && Live(fs, d) && Under(fs, depth, id, d) && id != d
    ensures !Under(fs, depth, d, id)
  {
    hide FreeOk, Ancestor, NodeOk;
    BelowStep(fs, depth, id, d);
  }

  // ----- Splitting and trimming -----

  ghost function Unsplit(r: seq<string>): string
    requires r != []
  {
    if |r| == 1 then r[0] else r[0] + "/" + Unsplit(r[1..])
  }

  lemma {:induction false} SplitOnto(s: string)
    ensures Unsplit(Split(s)) == s
  {
    if s != [] {
      SplitOnto(s[1..]);
      var r := Split(s[1..]);
      if s[0] == '/' {
        assert ([""] + r)[1..] == r;
      } else {
        var u := [[s[0]] + r[0]] + r[1..];
        assert u[1..] == r[1..];
        if |r| > 1 { assert Unsplit(u) == [s[0]] + (r[0] + "/" + Unsplit(r[1..])); }
      }
    }
  }

  lemma {:induction false} FewerPieces(s: string)
    requires s != []
    ensures |Split(s[..|s| - 1])| <= |Split(s)|
  {
    if |s| > 1 {
      FewerPieces(s[1..]);
      assert s[..|s| - 1][1..] == s[1..][..|s| - 2];
    }
  }

  lemma {:induction false} TrimStartPieces(s: string)
    ensures |Split(TrimStart(s))| <= |Split(s)|
  {
    if s != [] && White(s[0]) { TrimStartPieces(s[1..]); }
  }

  lemma {:induction false} TrimEndPieces(s: string)
    ensures |Split(TrimEnd(s))| <= |Split(s)|
  {
    if s != [] && White(s[|s| - 1]) {
      TrimEndPieces(s[..|s| - 1]);
      FewerPieces(s);
    }
  }

  /** Trimming leaves no more pieces, and after a leading slash there is one less. */
  lemma TrimPieces(s: string)
    ensures var t := Trim(s); |Split(t)| <= |Split(s)| && (t != [] && t[0] == '/' ==> |Split(t[1..])| < |Split(s)|)
  {
    hide TrimStart, TrimEnd;
    TrimStartPieces(s);
    TrimEndPieces(TrimStart(s));
  }

  // ----- Names relative to the working directory -----

  /** The names joined by slashes. */
  ghost function Slashed(names: seq<string>): string
    requires names != []
  {
    JoinedSlash(names);
    Joined(names)[1..]
  }

  lemma SlashedSplits(names: seq<string>)
    requires names != [] && AllGood(names)
    ensures Split(Slashed(names)) == names
  {
    hide Split, Joined;
    assert forall j | 0 <= j < |names| :: GoodName(names[j]);
    JoinedSplits(names);
  }

  lemma {:induction false} SlashedEnds(names: seq<string>)
    requires names != [] && AllGood(names)
    ensures var s, k := Slashed(names), |names| - 1;
      && names[0] != [] && names[k] != [] && s != []
      && s[0] == names[0][0] && s[|s| - 1] == names[k][|names[k]| - 1]
  {
    var k := |names| - 1;
    assert GoodName(names[0]) && GoodName(names[k]);
    if k > 0 {
      assert AllGood(names[..k]) by { assert forall j | 0 <= j < k :: names[..k][j] == names[j]; }
      SlashedEnds(names[..k]);
      JoinedSlash(names[..k]);
      assert Slashed(names) == Slashed(names[..k]) + "/" + names[k];
    } else {
      assert Joined(names) == "" + "/" + names[0];
    }
  }

  /** The names are good, the first does not begin in white space and the last does not end in it. */
  ghost predicate Readable(names: seq<string>)
    requires names != []
  {
    var k := |names| - 1;
    AllGood(names) && names[0] != [] && !White(names[0][0]) && names[k] != [] && !White(names[k][|names[k]| - 1])
  }

  /** Readable names lead from the working directory down to the inode. */
  lemma ReadableLeads(fs: Fs, depth: seq<nat>, id: nat)
    requires TreeOk(fs, depth) && Navigable(fs) && Live(fs, fs.cwd) && Under(fs, depth, id, fs.cwd) && id != fs.cwd
    requires NamesBelow(fs, depth, id, fs.cwd) != [] && Readable(NamesBelow(fs, depth, id, fs.cwd))
    ensures Resolve(fs, Slashed(NamesBelow(fs, depth, id, fs.cwd))) == Ok(id)
  {
    hide NodeOk, FreeOk, Navigable, Under, NamesBelow, Walk, Split, Trim, Slashed, White;
    var names := NamesBelow(fs, depth, id, fs.cwd);
    var s := Slashed(names);
    SlashedEnds(names);
    TrimIs(s);
    assert GoodName(names[0]);
    SlashedSplits(names);
    WalkBelow(fs, depth, id, fs.cwd);
  }

  /** A walk by slash-free segments from the root or from `d` that arrives below `d` finds good names there. */
  lemma ArrivedGood(fs: Fs, depth: seq<nat>, id: nat, d: nat, start: nat, segments: seq<string>)
    requires TreeOk(fs, depth) && Navigable(fs) && Live(fs, d) && Under(fs, depth, id, d) && (start == 0 || start == d)
    requires Walk(fs, start, segments) == Ok(id) && forall j | 0 <= j < |segments| :: '/' !in segments[j]
    ensures AllGood(NamesBelow(fs, depth, id, d))
  {
    hide NodeOk, FreeOk, Under, Navigable, Enter, NamesBelow, Walk;
    var names := NamesBelow(fs, depth, id, d);
    forall j | 0 <= j < |names| ensures GoodName(names[j]) {
      var a := BelowOwner(fs, depth, id, d, j);
      ParentNotUnder(fs, depth, a);
      WalkNamesAll(fs, depth, start, segments, a);
    }
  }

  /** Where the resolver starts on a trimmed path, and the pieces it then follows. */
  lemma ResolveWalks(fs: Fs, depth: seq<nat>, p: string) returns (start: nat, segments: seq<string>)
    requires TreeOk(fs, depth) && Navigable(fs) && Live(fs, fs.cwd) && Trim(p) != []
    ensures Live(fs, start) && Resolve(fs, p) == Walk(fs, start, segments)
    ensures forall j | 0 <= j < |segments| :: '/' !in segments[j]
    ensures Trim(p)[0] == '/' ==> start == 0 && |segments| < |Split(p)|
    ensures Trim(p)[0] != '/' ==> start == fs.cwd && segments == Split(Trim(p)) && |segments| <= |Split(p)|
  {
    hide NodeOk, FreeOk, Navigable, Walk, Split, Trim;
    var t := Trim(p);
    TrimPieces(p);
    var u := if t[0] == '/' then t[1..] else t;
    start := if t[0] == '/' then 0 else fs.cwd;
    segments := Split(u);
    forall j | 0 <= j < |segments| ensures '/' !in segments[j] { PiecesPlain(u, j); }
  }

  lemma LeadsReadable(fs: Fs, depth: seq<nat>, id: nat)
    requires TreeOk(fs, depth) && Navigable(fs) && Live(fs, fs.cwd) && Under(fs, depth, id, fs.cwd) && id != fs.cwd
    requires NamesBelow(fs, depth, id, fs.cwd) != []
    requires Resolve(fs, Slashed(NamesBelow(fs, depth, id, fs.cwd))) == Ok(id)
    ensures Readable(NamesBelow(fs, depth, id, fs.cwd))
  {
    hide NodeOk, FreeOk, Navigable, Under, NamesBelow, Walk, Split, Trim, Slashed, White, Unsplit, Resolve;
    var names := NamesBelow(fs, depth, id, fs.cwd);
    var s := Slashed(names);
    BlankOrNot(fs, s);
    var start, segments := ResolveWalks(fs, depth, s);
    ArrivedGood(fs, depth, id, fs.cwd, start, segments);
    SlashedSplits(names);
    SlashedEnds(names);
    BelowLength(fs, depth, id, fs.cwd);
    WalkExact(fs, depth, start, segments);
    assert start == fs.cwd && Split(Trim(s)) == Split(s);
    SplitOnto(s);
    SplitOnto(Trim(s));
    TrimIs(s);
  }

  lemma BlankOrNot(fs: Fs, p: string)
    requires Navigable(fs) && fs.cwd < |fs.inodes| && Resolve(fs, p) != Ok(fs.cwd)
    ensures Trim(p) != []
  {
  }

  /** For every inode below the working directory: the names on the way down, joined by slashes, resolve to it exactly
      when each is non-empty, is not "." or "..", has no slash, the first does not begin in white space and the last
      does not end in it. */
  lemma RelativeIff(fs: Fs, depth: seq<nat>, id: nat)
    requires TreeOk(fs, depth) && Navigable(fs) && Live(fs, fs.cwd) && Under(fs, depth, id, fs.cwd) && id != fs.cwd
    ensures var names := NamesBelow(fs, depth, id, fs.cwd);
      names != [] && (Resolve(fs, Slashed(names)) == Ok(id) <==> Readable(names))
  {
    hide NodeOk, FreeOk, Navigable, Under, Resolve, Slashed, Readable;
    var names := NamesBelow(fs, depth, id, fs.cwd);
    BelowStep(fs, depth, id, fs.cwd);
    if Readable(names) { ReadableLeads(fs, depth, id); }
    if Resolve(fs, Slashed(names)) == Ok(id) { LeadsReadable(fs, depth, id); }
  }

  // ----- Relative paths as absolute ones -----

  lemma SplitCons(c: char, s: string)
    ensures Split([c] + s) == if c == '/' then [""] + Split(s) else [[c] + Split(s)[0]] + Split(s)[1..]
  {
    assert ([c] + s)[1..] == s;
  }

  lemma {:induction false} SplitBoth(s: string, u: string)
    ensures Split(s + "/" + u) == Split(s) + Split(u)
  {
    hide Split;
    if s == [] {
      SplitPlain(s);
      SplitCons('/', u);
      assert s + "/" + u == ['/'] + u;
    } else {
      var c, v := s[0], s[1..];
      SplitBoth(v, u);
      SplitCons(c, v);
      SplitCons(c, v + "/" + u);
      assert s == [c] + v && s + "/" + u == [c] + (v + "/" + u);
      assert (Split(v) + Split(u))[1..] == Split(v)[1..] + Split(u);
    }
  }

  lemma {:induction false} WalkBoth(fs: Fs, cur: nat, u: seq<string>, w: seq<string>)
    requires Navigable(fs) && cur < |fs.inodes|
    ensures Walk(fs, cur, u + w) == match Walk(fs, cur, u) case Ok(n) => Walk(fs, n, w) case Err(e) => Err(e)
    decreases u
  {
    hide Enter, Navigable;
    if u == [] {
      assert u + w == w;
    } else {
      assert (u + w)[1..] == u[1..] + w;
      var r := Enter(fs, cur, u[0]);
      if r.Ok? { WalkBoth(fs, r.value, u[1..], w); }
    }
  }

  /** A path that begins neither in white space nor in a slash. */
  predicate Relative(p: string) {
    p != [] && !White(p[0]) && p[0] != '/'
  }

  ghost function FromRoot(fs: Fs, depth: seq<nat>, p: string): string
    requires TreeOk(fs, depth) && Live(fs, fs.cwd)
  {
    GetPath(fs, depth, fs.cwd) + "/" + p
  }

  /** The relative path is followed from the working directory; the absolute one follows its names first. */
  lemma FromRootWalks(fs: Fs, depth: seq<nat>, p: string) returns (up: seq<string>, rest: seq<string>)
    requires TreeOk(fs, depth) && Navigable(fs) && Live(fs, fs.cwd) && Relative(p)
    ensures Resolve(fs, p) == Walk(fs, fs.cwd, rest) && rest == Split(TrimEnd(p))
    ensures Resolve(fs, FromRoot(fs, depth, p)) == Walk(fs, 0, up + rest)
    ensures up == Split(GetPath(fs, depth, fs.cwd)[1..])
    ensures |GetPath(fs, depth, fs.cwd)| > 0
  {
    hide NodeOk, FreeOk, Navigable, Walk, Split, Names, Joined, White, TrimEnd;
    var g := GetPath(fs, depth, fs.cwd);
    RootedPath(fs, depth, fs.cwd);
    TrimStartIs(p);
    TrimFirst(p);
    var t := TrimEnd(p);
    TrimLast(g, p);
    NoTrimStart(g + "/" + p);
    up, rest := Split(g[1..]), Split(t);
    assert (g + "/" + t)[1..] == g[1..] + "/" + t;
    SplitBoth(g[1..], t);
  }

  lemma {:induction false} TrimFirst(p: string)
    requires p != [] && !White(p[0])
    ensures TrimEnd(p) != [] && TrimEnd(p)[0] == p[0]
  {
    if |p| > 1 && White(p[|p| - 1]) { TrimFirst(p[..|p| - 1]); }
  }

  lemma RootedPath(fs: Fs, depth: seq<nat>, id: nat)
    requires TreeOk(fs, depth) && Live(fs, id)
    ensures var g := GetPath(fs, depth, id); g != [] && g[0] == '/'
  {
    hide TreeOk, Joined;
    if id != 0 {
      Climbs(fs, depth, id);
      JoinedSlash(Names(fs, depth, id));
    }
  }

  lemma GoodRoot(fs: Fs, depth: seq<nat>)
    requires TreeOk(fs, depth) && Navigable(fs) && Live(fs, fs.cwd) && AllGood(Names(fs, depth, fs.cwd))
    ensures |GetPath(fs, depth, fs.cwd)| > 0
    ensures Walk(fs, 0, Split(GetPath(fs, depth, fs.cwd)[1..])) == Ok(fs.cwd)
  {
    hide NodeOk, FreeOk, Navigable, Enter, Joined, Split;
    var names := Names(fs, depth, fs.cwd);
    RootedPath(fs, depth, fs.cwd);
    if fs.cwd == 0 {
      WalkOne(fs, 0, "");
      EnterIs(fs, depth, 0, "");
      assert "/"[1..] == "";
    } else {
      Climbs(fs, depth, fs.cwd);
      assert forall j | 0 <= j < |names| :: GoodName(names[j]);
      JoinedSplits(names);
      WalkNames(fs, depth, fs.cwd);
    }
  }

  ghost predicate SameFromRoot(fs: Fs, depth: seq<nat>, p: string)
    requires TreeOk(fs, depth) && Navigable(fs) && Live(fs, fs.cwd)
  {
    Resolve(fs, p) == Resolve(fs, FromRoot(fs, depth, p))
  }

  /** Resolving a relative path is resolving it after the printed path of the working directory, ".." and errors
      included, for all relative paths exactly when every name on the way to the working directory is good. */
  lemma RelativeIsAbsolute(fs: Fs, depth: seq<nat>)
    requires TreeOk(fs, depth) && Navigable(fs) && Live(fs, fs.cwd)
    ensures (forall p | Relative(p) :: SameFromRoot(fs, depth, p)) <==> AllGood(Names(fs, depth, fs.cwd))
  {
    hide NodeOk, FreeOk, Navigable, Names, Walk, Split, Relative, AllGood, FromRoot, Resolve, GetPath;
    if AllGood(Names(fs, depth, fs.cwd)) {
      GoodRoot(fs, depth);
      forall p | Relative(p) ensures SameFromRoot(fs, depth, p) {
        var up, rest := FromRootWalks(fs, depth, p);
        WalkBoth(fs, 0, up, rest);
      }
    }
    if forall p | Relative(p) :: SameFromRoot(fs, depth, p) {
      DotStays(fs, depth);
      assert SameFromRoot(fs, depth, ".");
      var up, rest := FromRootWalks(fs, depth, ".");
      WalkBoth(fs, 0, up, rest);
      var g := GetPath(fs, depth, fs.cwd)[1..];
      forall j | 0 <= j < |up| ensures '/' !in up[j] { PiecesPlain(g, j); }
      ReachedGood(fs, depth, fs.cwd, up);
    }
  }

  lemma DotStays(fs: Fs, depth: seq<nat>)
    requires TreeOk(fs, depth) && Navigable(fs) && Live(fs, fs.cwd)
    ensures Relative(".") && Resolve(fs, ".") == Ok(fs.cwd)
    ensures forall n | 0 <= n < |fs.inodes| :: Walk(fs, n, Split(TrimEnd("."))) == Ok(n)
  {
    hide NodeOk, FreeOk, Navigable, Walk, Split;
    ResolveFirst(fs, ".");
    forall n | 0 <= n < |fs.inodes| ensures Walk(fs, n, Split(TrimEnd("."))) == Ok(n) { WalkOne(fs, n, "."); }
  }
}
