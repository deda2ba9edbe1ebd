/** Whole histories of the in-memory file system. */
module InodeRuns {
  import opened Wrappers
  import opened InodeTree
  import opened InodePaths

  datatype Event =
    | MakeDir(parent: nat, name: string)
    | WriteFile(parent: nat, name: string, content: seq<nat>)
    | MakeSpecial(parent: nat, name: string, kind: Kind)
    | Delete(target: nat)
    | ChangeDir(id: nat)

  /** The root directory `init` starts from. */
  function Empty(): Fs {
    Fs([Inode(0, 0, "/", Directory([]))], 0, [])
  }

  /** The inode number is in the table, and an unchecked creator is given a name that is new in its directory. */
  ghost predicate Allowed(fs: Fs, e: Event)
    requires Usable(fs)
  {
    match e
    case MakeDir(p, _) => p < |fs.inodes|
    case WriteFile(p, _, _) => p < |fs.inodes|
    case MakeSpecial(p, name, kind) =>
      && p < |fs.inodes| && !kind.Directory? && !kind.Tombstone?
      && (IsDir(fs, p) ==> FindChild(fs, Children(fs, p), name) == None)
    case Delete(t) => t < |fs.inodes|
    case ChangeDir(id) => id < |fs.inodes|
  }

  /** One call, with the depths of the tree it leaves; an event that is not allowed is not taken. */
  ghost function Step(fs: Fs, depth: seq<nat>, e: Event): (Fs, seq<nat>)
    requires TreeOk(fs, depth)
  {
    TreeUsable(fs, depth);
    if !Allowed(fs, e) then (fs, depth)
    else match e
      case MakeDir(p, name) => (Mkdir(fs, p, name).1, DepthAfter(fs, depth, p, name))
      case WriteFile(p, name, content) => (CreateFile(fs, p, name, content).1, DepthAfter(fs, depth, p, name))
      case MakeSpecial(p, name, kind) => (CreateSpecial(fs, p, name, kind).1, DepthAfter(fs, depth, p, name))
      case Delete(t) => (Remove(fs, depth, t).1, depth)
      case ChangeDir(id) => (fs.(cwd := id), depth)
  }

  /** Inodes live on both sides of a step keep their place: same name, same parent. */
  ghost predicate SamePlaces(fs: Fs, fs': Fs) {
    forall x: nat | Live(fs, x) && Live(fs', x) ::
      fs'.inodes[x].name == fs.inodes[x].name && fs'.inodes[x].parent == fs.inodes[x].parent
  }

  function InUse(fs: Fs): int {
    |fs.inodes| - |fs.free|
  }

  /** The table grows only to the number of inodes in use. */
  ghost predicate Tight(fs: Fs, fs': Fs) {
    |fs'.inodes| == if InUse(fs') > |fs.inodes| then InUse(fs') else |fs.inodes|
  }

  ghost predicate StepKeeps(fs: Fs, fs': Fs, depth': seq<nat>) {
    TreeOk(fs', depth') && SamePlaces(fs, fs') && Tight(fs, fs')
  }

  lemma AttachPlaces(fs: Fs, depth: seq<nat>, parent: nat, name: string, kind: Kind)
    requires TreeOk(fs, depth) && IsDir(fs, parent) && Usable(fs)
    ensures SamePlaces(fs, Attach(fs, parent, name, kind).1) && Tight(fs, Attach(fs, parent, name, kind).1)
  {
  }

  lemma RemovePlaces(fs: Fs, depth: seq<nat>, t: nat)
    requires TreeOk(fs, depth) && t < |fs.inodes|
    ensures SamePlaces(fs, Remove(fs, depth, t).1) && Tight(fs, Remove(fs, depth, t).1)
  {
    hide NodeOk, FreeOk, Remove, Under, Collect;
    RemoveOk(fs, depth, t);
    if t != 0 && Live(fs, t) {
      RemoveShape(fs, depth, t);
      UnderLive(fs, depth, t);
    }
  }

  lemma ChdirKeeps(fs: Fs, depth: seq<nat>, id: nat)
    requires TreeOk(fs, depth)
    ensures TreeOk(fs.(cwd := id), depth)
  {
    var fs' := fs.(cwd := id);
    forall i | 0 <= i < |fs'.inodes| ensures NodeOk(fs', depth, i) { assert NodeOk(fs, depth, i); }
  }

  /** Every call keeps the tree and moves no inode. */
  lemma StepOk(fs: Fs, depth: seq<nat>, e: Event)
    requires TreeOk(fs, depth)
    ensures StepKeeps(fs, Step(fs, depth, e).0, Step(fs, depth, e).1)
  {
    hide TreeOk, Attach, FindChild, Remove, NewDepth, Usable;
    TreeUsable(fs, depth);
    Nonnegative(fs, depth);
    if Allowed(fs, e) {
      match e
      case MakeDir(p, name) =>
        MkdirOk(fs, depth, p, name);
        if IsDir(fs, p) { AttachPlaces(fs, depth, p, name, Directory([])); }
      case WriteFile(p, name, content) =>
        CreateFileOk(fs, depth, p, name, content);
        if IsDir(fs, p) { AttachPlaces(fs, depth, p, name, File(content)); }
      case MakeSpecial(p, name, kind) =>
        if IsDir(fs, p) {
          AttachOk(fs, depth, p, name, kind);
          AttachPlaces(fs, depth, p, name, kind);
        }
      case Delete(t) =>
        RemoveOk(fs, depth, t);
        RemovePlaces(fs, depth, t);
      case ChangeDir(id) =>
        ChdirKeeps(fs, depth, id);
    }
  }

  lemma Nonnegative(fs: Fs, depth: seq<nat>)
    requires TreeOk(fs, depth)
    ensures InUse(fs) <= |fs.inodes|
  {
  }

  /** The state after a list of events. */
  ghost function Run(fs: Fs, depth: seq<nat>, es: seq<Event>): (Fs, seq<nat>)
    requires TreeOk(fs, depth)
    decreases es
  {
    if es == [] then (fs, depth)
    else
      StepOk(fs, depth, es[0]);
      var (fs1, depth1) := Step(fs, depth, es[0]);
      Run(fs1, depth1, es[1..])
  }

  /** The inode is live in every state of the run. */
  ghost predicate Stays(fs: Fs, depth: seq<nat>, es: seq<Event>, id: nat)
    requires TreeOk(fs, depth)
    decreases es
  {
    && Live(fs, id)
    && (es == [] ||
        (StepOk(fs, depth, es[0]);
         var (fs1, depth1) := Step(fs, depth, es[0]);
         Stays(fs1, depth1, es[1..], id)))
  }

  /** The largest number of inodes in use in any state of the run. */
  ghost function Peak(fs: Fs, depth: seq<nat>, es: seq<Event>): int
    requires TreeOk(fs, depth)
    decreases es
  {
    if es == [] then InUse(fs)
    else
      StepOk(fs, depth, es[0]);
      var (fs1, depth1) := Step(fs, depth, es[0]);
      var p := Peak(fs1, depth1, es[1..]);
      if InUse(fs) > p then InUse(fs) else p
  }

  lemma EmptyOk()
    ensures TreeOk(Empty(), [0])
  {
  }

  /** Inodes that keep their place between two trees keep their names on the way. */
  lemma {:induction false} NamesStable(fs: Fs, depth: seq<nat>, fs': Fs, depth': seq<nat>, id: nat)
    requires TreeOk(fs, depth) && TreeOk(fs', depth') && SamePlaces(fs, fs') && Live(fs, id) && Live(fs', id)
    ensures Names(fs', depth', id) == Names(fs, depth, id)
    decreases Climb(fs, depth, id)
  {
    hide TreeOk;
    if id != 0 {
      Climbs(fs, depth, id);
      Climbs(fs', depth', id);
      NamesStable(fs, depth, fs', depth', fs.inodes[id].parent);
    }
  }

  /** After any history from the root directory the inodes form a tree, and the free list is exactly its tombstones. */
  lemma {:induction false} RunOk(fs: Fs, depth: seq<nat>, es: seq<Event>)
    requires TreeOk(fs, depth)
    ensures TreeOk(Run(fs, depth, es).0, Run(fs, depth, es).1)
    decreases es
  {
    hide TreeOk, Step;
    if es != [] {
      StepOk(fs, depth, es[0]);
      var (fs1, depth1) := Step(fs, depth, es[0]);
      RunOk(fs1, depth1, es[1..]);
    }
  }

  lemma HistoryOk(es: seq<Event>)
    ensures TreeOk(Empty(), [0])
    ensures exists depth :: TreeOk(Run(Empty(), [0], es).0, depth)
    ensures Navigable(Run(Empty(), [0], es).0)
  {
    hide TreeOk, Run, Navigable;
    EmptyOk();
    RunOk(Empty(), [0], es);
    TreeNavigable(Run(Empty(), [0], es).0, Run(Empty(), [0], es).1);
  }

  /** Why an unchecked creator needs a new name: entering the same one twice leaves no tree. */
  lemma TwiceCreated(name: string)
    ensures var fs := Empty();
      && Usable(fs)
      && var fs1 := CreateSpecial(fs, 0, name, DevNull).1;
         && Usable(fs1) && |fs1.inodes| > 0 && (exists d :: TreeOk(fs1, d))
         && forall d :: !TreeOk(CreateSpecial(fs1, 0, name, DevNull).1, d)
  {
    hide TreeOk, Usable;
    var fs := Empty();
    EmptyOk();
    TreeUsable(fs, [0]);
    CreateSpecialIff(fs, [0], 0, name, DevNull);
    var fs1 := CreateSpecial(fs, 0, name, DevNull).1;
    var d1 :| TreeOk(fs1, d1);
    TreeUsable(fs1, d1);
    assert Children(fs1, 0) == [1] && fs1.inodes[1].name == name;
    assert FindChild(fs1, Children(fs1, 0), name).Some?;
    CreateSpecialIff(fs1, d1, 0, name, DevNull);
  }

  /** An inode that is never removed prints the same path at the end as at the beginning, whatever else is created or
      removed around it. */
  lemma {:induction false} PathStable(fs: Fs, depth: seq<nat>, es: seq<Event>, id: nat)
    requires TreeOk(fs, depth) && Stays(fs, depth, es, id)
    ensures var (fs', depth') := Run(fs, depth, es);
      TreeOk(fs', depth') && Live(fs', id) && GetPath(fs', depth', id) == GetPath(fs, depth, id)
    decreases es
  {
    hide TreeOk, Step, Joined, Names;
    if es != [] {
      StepOk(fs, depth, es[0]);
      var (fs1, depth1) := Step(fs, depth, es[0]);
      PathStable(fs1, depth1, es[1..], id);
      NamesStable(fs, depth, fs1, depth1, id);
    }
  }

  // ----- Contents -----

  /** The file whose contents the event replaces. */
  ghost function Target(fs: Fs, depth: seq<nat>, e: Event): Option<nat>
    requires TreeOk(fs, depth)
  {
    TreeUsable(fs, depth);
    if e.WriteFile? && IsDir(fs, e.parent) then FindChild(fs, Children(fs, e.parent), e.name) else None
  }

  /** No event of the run replaces the contents of `id`. */
  ghost predicate Unwritten(fs: Fs, depth: seq<nat>, es: seq<Event>, id: nat)
    requires TreeOk(fs, depth)
    decreases es
  {
    es == [] ||
    (StepOk(fs, depth, es[0]);
     var (fs1, depth1) := Step(fs, depth, es[0]);
     Target(fs, depth, es[0]) != Some(id) && Unwritten(fs1, depth1, es[1..], id))
  }

  lemma ContentStep(fs: Fs, depth: seq<nat>, e: Event, id: nat)
    requires TreeOk(fs, depth) && Live(fs, id) && fs.inodes[id].kind.File? && Target(fs, depth, e) != Some(id)
    requires Live(Step(fs, depth, e).0, id)
    ensures Step(fs, depth, e).0.inodes[id].kind == fs.inodes[id].kind
  {
    hide NodeOk, FreeOk, Attach, FindChild, Remove, Usable, Under;
    TreeUsable(fs, depth);
    if Allowed(fs, e) {
      match e
      case MakeDir(p, name) => MkdirOk(fs, depth, p, name);
      case WriteFile(p, name, content) => CreateFileOk(fs, depth, p, name, content);
      case MakeSpecial(p, name, kind) => if IsDir(fs, p) { AttachShape(fs, depth, p, name, kind); }
      case Delete(t) => RemoveOk(fs, depth, t);
      case ChangeDir(_) =>
    }
  }

  /** A file keeps its contents through every history in which it is neither overwritten nor removed. */
  lemma {:induction false} ContentLasts(fs: Fs, depth: seq<nat>, es: seq<Event>, id: nat)
    requires TreeOk(fs, depth) && Stays(fs, depth, es, id) && Unwritten(fs, depth, es, id) && fs.inodes[id].kind.File?
    ensures var fs' := Run(fs, depth, es).0; Live(fs', id) && fs'.inodes[id].kind == fs.inodes[id].kind
    decreases es
  {
    hide TreeOk, Step, Target;
    if es != [] {
      StepOk(fs, depth, es[0]);
      var (fs1, depth1) := Step(fs, depth, es[0]);
      ContentStep(fs, depth, es[0], id);
      ContentLasts(fs1, depth1, es[1..], id);
    }
  }

  /** What a successful write stores under a name is read back under the same path after every later history that
      neither overwrites nor removes the file, as long as the path can be read back at all. */
  lemma WriteLasts(fs: Fs, depth: seq<nat>, e: Event, es: seq<Event>, id: nat)
    requires TreeOk(fs, depth) && Usable(fs) && fs.cwd < |fs.inodes| && e.WriteFile? && Allowed(fs, e)
    requires CreateFile(fs, e.parent, e.name, e.content).0 == Ok(id)
    requires var (fs1, depth1) := Step(fs, depth, e);
      TreeOk(fs1, depth1) && Stays(fs1, depth1, es, id) && Unwritten(fs1, depth1, es, id)
    ensures var (fs1, depth1) := Step(fs, depth, e); var (fs', depth') := Run(fs1, depth1, es);
      && TreeOk(fs', depth') && Live(fs', id) && fs'.inodes[id].kind == File(e.content)
      && GetPath(fs', depth', id) == GetPath(fs1, depth1, id)
      && Navigable(fs') && fs'.cwd < |fs'.inodes|
      && (Resolve(fs', GetPath(fs1, depth1, id)) == Ok(id) <==> Printable(fs', depth', id))
  {
    hide TreeOk, Run, Stays, Unwritten, GetPath, Resolve, Printable, FindChild, Navigable, Attach, Usable;
    var (fs1, depth1) := Step(fs, depth, e);
    CreateFileOk(fs, depth, e.parent, e.name, e.content);
    RunOk(fs1, depth1, es);
    ContentLasts(fs1, depth1, es, id);
    PathStable(fs1, depth1, es, id);
    var (fs', depth') := Run(fs1, depth1, es);
    TreeNavigable(fs', depth');
    CwdStep(fs, depth, e);
    CwdStays(fs1, depth1, es);
    RootIsDir(fs', depth');
    RoundTripIff(fs', depth', id);
  }

  lemma RootIsDir(fs: Fs, depth: seq<nat>)
    requires TreeOk(fs, depth)
    ensures IsDir(fs, 0)
  {
  }

  lemma CwdStep(fs: Fs, depth: seq<nat>, e: Event)
    requires TreeOk(fs, depth) && fs.cwd < |fs.inodes|
    ensures var fs' := Step(fs, depth, e).0; fs'.cwd < |fs'.inodes|
  {
    hide NodeOk, FreeOk, FindChild, Remove, Collect;
    TreeUsable(fs, depth);
    if e.Delete? && Allowed(fs, e) {
      RemoveOk(fs, depth, e.target);
      if e.target != 0 && Live(fs, e.target) { RemoveShape(fs, depth, e.target); }
    }
  }

  lemma {:induction false} CwdStays(fs: Fs, depth: seq<nat>, es: seq<Event>)
    requires TreeOk(fs, depth) && fs.cwd < |fs.inodes|
    ensures var fs' := Run(fs, depth, es).0; fs'.cwd < |fs'.inodes|
    decreases es
  {
    hide TreeOk, Step;
    if es != [] {
      StepOk(fs, depth, es[0]);
      var (fs1, depth1) := Step(fs, depth, es[0]);
      CwdStep(fs, depth, es[0]);
      CwdStays(fs1, depth1, es[1..]);
    }
  }

  /** Tombstones are reused before the table grows: its size is the largest number of inodes ever in use. */
  lemma {:induction false} TableIsPeak(fs: Fs, depth: seq<nat>, es: seq<Event>)
    requires TreeOk(fs, depth)
    ensures |Run(fs, depth, es).0.inodes| ==
      if Peak(fs, depth, es) > |fs.inodes| then Peak(fs, depth, es) else |fs.inodes|
    decreases es
  {
    hide TreeOk, Step;
    Nonnegative(fs, depth);
    if es != [] {
      StepOk(fs, depth, es[0]);
      var (fs1, depth1) := Step(fs, depth, es[0]);
      TableIsPeak(fs1, depth1, es[1..]);
      PeakAtLeast(fs1, depth1, es[1..]);
    }
  }

  lemma PeakAtLeast(fs: Fs, depth: seq<nat>, es: seq<Event>)
    requires TreeOk(fs, depth)
    ensures Peak(fs, depth, es) >= InUse(fs)
  {
  }
}
