/** Directories as lists of slots, and files by path: what a volume means to a caller. */
module FatDirs {
  import opened Wrappers
  import opened FatEntries

  datatype FatError =
    | NotADirectory | DirectoryMissing | NotFound | IsADirectory | BadName | AlreadyExists | Full | NoSlot

  datatype Result<+T> = Ok(value: T) | Err(error: FatError)

  // ----- One directory -----

  predicate Table(slots: seq<Raw>) {
    forall i | 0 <= i < |slots| :: |slots[i]| == 32
  }

  predicate Matches(e: Raw, name: seq<nat>)
    requires |e| == 32
  {
    Visible(e) && Upper(FullName(e)) == Upper(name)
  }

  /** The slot a search for `name` stops at: a match with no end mark and no match before it. */
  ghost predicate FoundAt(slots: seq<Raw>, name: seq<nat>, i: nat)
    requires Table(slots)
  {
    && i < |slots| && Matches(slots[i], name)
    && forall j | 0 <= j < i :: slots[j][0] != 0 && !Matches(slots[j], name)
  }

  /** `find_entry_in_dir` from slot `i` on. */
  function FindFrom(slots: seq<Raw>, name: seq<nat>, i: nat): (r: Option<nat>)
    requires Table(slots) && i <= |slots|
    ensures r.Some? ==> i <= r.value < |slots|
    decreases |slots| - i
  {
    if i == |slots| || slots[i][0] == 0 then None
    else if Matches(slots[i], name) then Some(i)
    else FindFrom(slots, name, i + 1)
  }

  function Find(slots: seq<Raw>, name: seq<nat>): (r: Option<nat>)
    requires Table(slots)
    ensures r.Some? ==> r.value < |slots|
  {
    FindFrom(slots, name, 0)
  }

  lemma {:induction false} FindFromOk(slots: seq<Raw>, name: seq<nat>, i: nat, t: nat)
    requires Table(slots) && i <= |slots| && t < |slots|
    requires forall j | 0 <= j < i :: slots[j][0] != 0 && !Matches(slots[j], name)
    ensures FindFrom(slots, name, i) == Some(t) <==> FoundAt(slots, name, t)
    decreases |slots| - i
  {
    hide Matches;
    if i < |slots| && slots[i][0] != 0 && !Matches(slots[i], name) { FindFromOk(slots, name, i + 1, t); }
    if i < |slots| && slots[i][0] == 0 { ZeroNoMatch(slots[i], name); }
  }

  lemma ZeroNoMatch(e: Raw, name: seq<nat>)
    requires |e| == 32 && Unused(e)
    ensures !Matches(e, name)
  {
  }

  lemma FindOk(slots: seq<Raw>, name: seq<nat>, t: nat)
    requires Table(slots) && t < |slots|
    ensures Find(slots, name) == Some(t) <==> FoundAt(slots, name, t)
  {
    FindFromOk(slots, name, 0, t);
  }

  /** After the end mark there are only end marks. */
  ghost predicate ZeroTail(slots: seq<Raw>)
    requires Table(slots)
  {
    forall i, j | 0 <= i < j < |slots| && slots[i][0] == 0 :: slots[j][0] == 0
  }

  /** With a clean tail, a search gives the first match. */
  ghost predicate FirstMatch(slots: seq<Raw>, name: seq<nat>, i: nat)
    requires Table(slots)
  {
    i < |slots| && Matches(slots[i], name) && forall j | 0 <= j < i :: !Matches(slots[j], name)
  }

  lemma FindFirst(slots: seq<Raw>, name: seq<nat>)
    requires Table(slots) && ZeroTail(slots)
    ensures match Find(slots, name)
      case Some(i) => FirstMatch(slots, name, i)
      case None => forall j | 0 <= j < |slots| :: !Matches(slots[j], name)
  {
    hide Matches, FindFrom;
    if Find(slots, name) == None {
      forall j | 0 <= j < |slots| ensures !Matches(slots[j], name) {
        NoneMatches(slots, name, j);
      }
    } else {
      FindOk(slots, name, Find(slots, name).value);
    }
  }

  lemma {:induction false} NoneMatches(slots: seq<Raw>, name: seq<nat>, j: nat)
    requires Table(slots) && ZeroTail(slots) && Find(slots, name) == None && j < |slots|
    ensures !Matches(slots[j], name)
    decreases j
  {
    hide Matches, FindFrom;
    if Matches(slots[j], name) {
      forall i | 0 <= i < j ensures slots[i][0] != 0 && !Matches(slots[i], name) {
        NoneMatches(slots, name, i);
        if slots[i][0] == 0 { ZeroNoMatch(slots[j], name); }
      }
      FindOk(slots, name, j);
    }
  }

  lemma FirstIsFound(slots: seq<Raw>, name: seq<nat>, i: nat)
    requires Table(slots) && ZeroTail(slots) && FirstMatch(slots, name, i)
    ensures Find(slots, name) == Some(i)
  {
    hide Matches, FindFrom;
    FindFirst(slots, name);
  }

  /** The slot `insert_dir_entry` takes: the first one that is not in use, or the one past the end. */
  function FreeSlot(slots: seq<Raw>, i: nat): (k: nat)
    requires Table(slots) && i <= |slots|
    ensures i <= k <= |slots| && (k < |slots| ==> Unused(slots[k]))
    ensures forall j | i <= j < k :: !Unused(slots[j])
    decreases |slots| - i
  {
    if i == |slots| || Unused(slots[i]) then i else FreeSlot(slots, i + 1)
  }

  /** What entering changes. */
  ghost predicate Entered(slots: seq<Raw>, slots': seq<Raw>, k: nat, e: Raw) {
    && k <= |slots| <= |slots'| && k < |slots'| && slots'[k] == e
    && (forall j | 0 <= j < |slots| && j != k :: slots'[j] == slots[j])
    && (forall j | |slots| <= j < |slots'| && j != k :: slots'[j] == Zeros(32))
  }

  lemma EnteredTail(slots: seq<Raw>, slots': seq<Raw>, k: nat, e: Raw)
    requires Table(slots) && Table(slots') && ZeroTail(slots) && Entered(slots, slots', k, e) && k == FreeSlot(slots, 0)
    requires |e| == 32 && !Unused(e)
    ensures ZeroTail(slots')
  {
  }

  /** After entering a new name, that name is found in its slot and every other search is as before. */
  lemma EnteredFinds(slots: seq<Raw>, slots': seq<Raw>, k: nat, e: Raw, name: seq<nat>, other: seq<nat>)
    requires Table(slots) && Table(slots') && ZeroTail(slots) && ZeroTail(slots')
    requires Entered(slots, slots', k, e) && (k < |slots| ==> Unused(slots[k]))
    requires |e| == 32 && Matches(e, name) && Find(slots, name) == None
    ensures Find(slots', other) == if Upper(other) == Upper(name) then Some(k) else Find(slots, other)
  {
    hide Find, FindFrom, Visible, FullName, Upper;
    FindFirst(slots, name);
    FindFirst(slots, other);
    forall j | 0 <= j < |slots'| && j != k
      ensures Matches(slots'[j], other) <==> j < |slots| && Matches(slots[j], other)
    {
      if j >= |slots| { ZeroNoMatch(slots'[j], other); }
    }
    if k < |slots| { ZeroNoMatch(slots[k], other); }
    if Upper(other) == Upper(name) {
      forall j | 0 <= j < k ensures !Matches(slots'[j], other) { assert !Matches(slots[j], name); }
      FirstIsFound(slots', other, k);
    } else {
      var r := Find(slots, other);
      if r.Some? { FirstIsFound(slots', other, r.value); } else { FindFirst(slots', other); }
    }
  }

  /** Replacing a slot by an entry with the same face changes no search. */
  lemma PatchFinds(slots: seq<Raw>, i: nat, e: Raw, other: seq<nat>)
    requires Table(slots) && ZeroTail(slots) && i < |slots| && |e| == 32 && e[..12] == slots[i][..12]
    ensures Table(slots[i := e]) && ZeroTail(slots[i := e]) && Find(slots[i := e], other) == Find(slots, other)
  {
    hide Find, FindFrom, Visible, FullName, Upper;
    var slots' := slots[i := e];
    SameFace(slots[i], e);
    assert forall j | 0 <= j < |slots| ::
      slots'[j][0] == slots[j][0] && Matches(slots'[j], other) == Matches(slots[j], other);
    FindFirst(slots, other);
    var r := Find(slots, other);
    if r.Some? { FirstIsFound(slots', other, r.value); } else { FindFirst(slots', other); }
  }

  /** No two entries in use have the same name. */
  ghost predicate UniqueNames(slots: seq<Raw>)
    requires Table(slots)
  {
    forall i, j | 0 <= i < j < |slots| && Visible(slots[i]) && Visible(slots[j]) ::
      Upper(FullName(slots[i])) != Upper(FullName(slots[j]))
  }

  /** Marking a slot deleted hides its name and changes no other search. */
  lemma DeleteFinds(slots: seq<Raw>, i: nat, e: Raw, other: seq<nat>)
    requires Table(slots) && ZeroTail(slots) && UniqueNames(slots) && i < |slots| && Visible(slots[i])
    requires |e| == 32 && e[0] == DELETED
    ensures Table(slots[i := e]) && ZeroTail(slots[i := e]) && UniqueNames(slots[i := e])
    ensures Find(slots[i := e], other) == if Upper(other) == Upper(FullName(slots[i])) then None else Find(slots, other)
  {
    hide Find, FindFrom, FullName, Upper;
    var slots' := slots[i := e];
    FindFirst(slots, other);
    FindFirst(slots', other);
    ZeroNoMatch(e, other);
    forall j | 0 <= j < |slots| && j != i ensures Matches(slots'[j], other) == Matches(slots[j], other) {}
    if Upper(other) == Upper(FullName(slots[i])) {
      forall j | 0 <= j < |slots| ensures !Matches(slots'[j], other) {}
    } else {
      var r := Find(slots, other);
      if r.Some? { FirstIsFound(slots', other, r.value); }
    }
  }

  lemma EnteredUnique(slots: seq<Raw>, slots': seq<Raw>, k: nat, e: Raw, name: seq<nat>)
    requires Table(slots) && Table(slots') && ZeroTail(slots) && UniqueNames(slots) && Entered(slots, slots', k, e)
    requires |e| == 32 && Matches(e, name) && Find(slots, name) == None
    ensures UniqueNames(slots')
  {
    hide Find, FullName, Upper;
    FindFirst(slots, name);
    forall i, j | 0 <= i < j < |slots'| && Visible(slots'[i]) && Visible(slots'[j])
      ensures Upper(FullName(slots'[i])) != Upper(FullName(slots'[j]))
    {
      assert i != k ==> i < |slots| && slots'[i] == slots[i];
      assert j != k ==> j < |slots| && slots'[j] == slots[j];
    }
  }

  lemma PatchUnique(slots: seq<Raw>, i: nat, e: Raw)
    requires Table(slots) && UniqueNames(slots) && i < |slots| && |e| == 32 && e[..12] == slots[i][..12]
    ensures UniqueNames(slots[i := e])
  {
    hide FullName, Upper;
    SameFace(slots[i], e);
  }

  // ----- Files by path -----

  type Path = seq<seq<nat>>

  /** The directories by first cluster, and the bytes of the file entered in each slot. */
  datatype Files = Files(root: nat, dirs: map<nat, seq<Raw>>, contents: map<(nat, nat), seq<nat>>)

  function Slots(fs: Files, d: nat): seq<Raw> {
    if d in fs.dirs then fs.dirs[d] else []
  }

  /** Every directory is a clean table without repeated names, and every file entered has contents. */
  ghost predicate FilesOk(fs: Files) {
    forall d: nat | d in fs.dirs :: DirOk(fs, d)
  }

  ghost predicate DirOk(fs: Files, d: nat) {
    && Table(Slots(fs, d)) && ZeroTail(Slots(fs, d)) && UniqueNames(Slots(fs, d))
    && forall i | 0 <= i < |Slots(fs, d)| && Visible(Slots(fs, d)[i]) && !IsDir(Slots(fs, d)[i]) ::
          (d, i) in fs.contents
  }

  lemma DirTable(fs: Files, d: nat)
    requires FilesOk(fs)
    ensures DirOk(fs, d)
  {
  }

  /** The contents `read_file` gives for a path below the directory `d`. */
  ghost function ReadFrom(fs: Files, d: nat, path: Path): Result<seq<nat>>
    requires FilesOk(fs)
    decreases path
  {
    DirTable(fs, d);
    if path == [] then Err(IsADirectory)
    else match Find(Slots(fs, d), path[0])
      case None => Err(if |path| == 1 then NotFound else DirectoryMissing)
      case Some(i) =>
        var e := Slots(fs, d)[i];
        if |path| > 1 then
          if IsDir(e) then ReadFrom(fs, ClusterOf(e), path[1..]) else Err(NotADirectory)
        else if IsDir(e) then Err(IsADirectory)
        else FindVisible(Slots(fs, d), path[0]); Ok(fs.contents[(d, i)])
  }

  lemma FindVisible(slots: seq<Raw>, name: seq<nat>)
    requires Table(slots) && ZeroTail(slots) && Find(slots, name).Some?
    ensures Matches(slots[Find(slots, name).value], name)
  {
    FindFirst(slots, name);
  }

  /** The first cluster of the directory a path leads to, starting in `d`. */
  ghost function DirectoryFrom(fs: Files, d: nat, path: Path): Result<nat>
    requires FilesOk(fs)
    decreases path
  {
    DirTable(fs, d);
    if path == [] then Ok(d)
    else match Find(Slots(fs, d), path[0])
      case None => Err(DirectoryMissing)
      case Some(i) =>
        var e := Slots(fs, d)[i];
        if IsDir(e) then DirectoryFrom(fs, ClusterOf(e), path[1..]) else Err(NotADirectory)
  }

  /** `path` from `d` names the entry `name` of the directory `dir`. */
  ghost predicate NamesFrom(fs: Files, d: nat, path: Path, dir: nat, name: seq<nat>)
    requires FilesOk(fs)
  {
    path != [] && DirectoryFrom(fs, d, path[..|path| - 1]) == Ok(dir) && Upper(path[|path| - 1]) == Upper(name)
  }

  ghost predicate SameRead(a: Result<seq<nat>>, b: Result<seq<nat>>) {
    a.Ok? == b.Ok? && (a.Ok? ==> a.value == b.value)
  }

  /** Searches agree except for `name` in `dir`. */
  ghost predicate SameElsewhere(fs: Files, fs': Files, dir: nat, name: seq<nat>)
    requires FilesOk(fs) && FilesOk(fs')
  {
    forall d: nat, other: seq<nat> | Elsewhere(fs, d, dir, name, other) :: SameEntry(fs, fs', d, other)
  }

  ghost predicate Elsewhere(fs: Files, d: nat, dir: nat, name: seq<nat>, other: seq<nat>) {
    d != dir || Upper(other) != Upper(name)
  }

  ghost predicate SameEntry(fs: Files, fs': Files, d: nat, name: seq<nat>)
    requires FilesOk(fs) && FilesOk(fs')
  {
    DirTable(fs, d); DirTable(fs', d);
    var r := Find(Slots(fs, d), name);
    && Find(Slots(fs', d), name) == r
    && (r.Some? ==>
          var e, e' := Slots(fs, d)[r.value], Slots(fs', d)[r.value];
          && IsDir(e') == IsDir(e) && (IsDir(e) ==> ClusterOf(e') == ClusterOf(e))
          && (!IsDir(e) ==>
                && (d, r.value) in fs.contents && (d, r.value) in fs'.contents
                && fs'.contents[(d, r.value)] == fs.contents[(d, r.value)]))
  }

  /** What a search finds: nothing, or a file with these bytes. */
  ghost predicate Holds(fs: Files, dir: nat, name: seq<nat>, bytes: Option<seq<nat>>)
    requires FilesOk(fs)
  {
    DirTable(fs, dir);
    match Find(Slots(fs, dir), name)
    case None => bytes == None
    case Some(i) => !IsDir(Slots(fs, dir)[i]) && (dir, i) in fs.contents && bytes == Some(fs.contents[(dir, i)])
  }

  /** If only the file `name` of `dir` changes, paths that name it read its new bytes and every other path reads as
      before. */
  lemma {:induction false} ReadAfter(fs: Files, fs': Files, d: nat, path: Path, dir: nat, name: seq<nat>,
      was: Option<seq<nat>>, bytes: Option<seq<nat>>)
    requires FilesOk(fs) && FilesOk(fs') && SameElsewhere(fs, fs', dir, name)
    requires Holds(fs, dir, name, was) && Holds(fs', dir, name, bytes)
    ensures NamesFrom(fs, d, path, dir, name) ==>
      ReadFrom(fs', d, path) == (if bytes.Some? then Ok(bytes.value) else Err(NotFound))
    ensures !NamesFrom(fs, d, path, dir, name) ==> SameRead(ReadFrom(fs', d, path), ReadFrom(fs, d, path))
    decreases path
  {
    hide FilesOk, IsDir, ClusterOf;
    if path != [] {
      DirTable(fs, d);
      DirTable(fs', d);
      ReadHead(fs, d, path, dir, name);
      if Elsewhere(fs, d, dir, name, path[0]) {
        assert SameEntry(fs, fs', d, path[0]);
      } else {
        SameName(fs, dir, name, path[0]);
        SameName(fs', dir, name, path[0]);
      }
      var r := Find(Slots(fs, d), path[0]);
      if |path| > 1 && r.Some? && IsDir(Slots(fs, d)[r.value]) {
        ReadAfter(fs, fs', ClusterOf(Slots(fs, d)[r.value]), path[1..], dir, name, was, bytes);
      }
    }
  }

  /** Searches do not look at letter case. */
  lemma SameName(fs: Files, d: nat, name: seq<nat>, other: seq<nat>)
    requires FilesOk(fs) && Upper(other) == Upper(name)
    ensures DirOk(fs, d) && Find(Slots(fs, d), other) == Find(Slots(fs, d), name)
  {
    DirTable(fs, d);
    SameFind(Slots(fs, d), name, other, 0);
  }

  lemma {:induction false} SameFind(slots: seq<Raw>, name: seq<nat>, other: seq<nat>, i: nat)
    requires Table(slots) && i <= |slots| && Upper(other) == Upper(name)
    ensures FindFrom(slots, other, i) == FindFrom(slots, name, i)
    decreases |slots| - i
  {
    if i < |slots| { SameFind(slots, name, other, i + 1); }
  }

  /** Naming goes through the first component. */
  lemma ReadHead(fs: Files, d: nat, path: Path, dir: nat, name: seq<nat>)
    requires FilesOk(fs) && path != [] && DirOk(fs, d)
    ensures NamesFrom(fs, d, path, dir, name) <==>
      if |path| == 1 then d == dir && Upper(path[0]) == Upper(name)
      else
        var r := Find(Slots(fs, d), path[0]);
        r.Some? && IsDir(Slots(fs, d)[r.value]) && NamesFrom(fs, ClusterOf(Slots(fs, d)[r.value]), path[1..], dir, name)
  {
    hide FilesOk, IsDir, ClusterOf, Find;
    if |path| > 1 {
      assert path[..|path| - 1][0] == path[0];
      assert path[..|path| - 1][1..] == path[1..][..|path| - 2];
    }
  }

  // ----- Changing one entry -----

  function Overwritten(fs: Files, dir: nat, i: nat, e: Raw, bytes: seq<nat>): Files
    requires dir in fs.dirs && i < |fs.dirs[dir]|
  {
    fs.(dirs := fs.dirs[dir := fs.dirs[dir][i := e]], contents := fs.contents[(dir, i) := bytes])
  }

  function EnteredIn(fs: Files, dir: nat, slots': seq<Raw>, k: nat, bytes: seq<nat>): Files {
    fs.(dirs := fs.dirs[dir := slots'], contents := fs.contents[(dir, k) := bytes])
  }

  /** Overwriting a file changes what is found under its name and nothing else. */
  lemma OverwriteMeans(fs: Files, dir: nat, name: seq<nat>, i: nat, e: Raw, bytes: seq<nat>)
    requires FilesOk(fs) && dir in fs.dirs && DirOk(fs, dir) && Find(Slots(fs, dir), name) == Some(i)
    requires !IsDir(Slots(fs, dir)[i]) && |e| == 32 && e[..12] == Slots(fs, dir)[i][..12]
    ensures var fs' := Overwritten(fs, dir, i, e, bytes);
      FilesOk(fs') && SameElsewhere(fs, fs', dir, name) && Holds(fs', dir, name, Some(bytes))
  {
    hide Find, FullName, Upper, UniqueNames, Visible, IsDir, ClusterOf, ZeroTail;
    var fs', slots := Overwritten(fs, dir, i, e, bytes), Slots(fs, dir);
    SameFace(slots[i], e);
    PatchUnique(slots, i, e);
    PatchFinds(slots, i, e, name);
    forall d: nat | d in fs'.dirs ensures DirOk(fs', d) { DirTable(fs, d); }
    forall d: nat, other: seq<nat> | Elsewhere(fs, d, dir, name, other) ensures SameEntry(fs, fs', d, other) {
      DirTable(fs, d);
      if d == dir {
        PatchFinds(slots, i, e, other);
        FindVisible(slots, name);
        if Find(slots, other).Some? { FindVisible(slots, other); }
      } else if Find(Slots(fs, d), other).Some? {
        FindVisible(Slots(fs, d), other);
      }
    }
  }

  /** Entering a file under a new name changes what is found under that name and nothing else. */
  lemma EnterMeans(fs: Files, dir: nat, name: seq<nat>, slots': seq<Raw>, e: Raw, bytes: seq<nat>)
    requires FilesOk(fs) && dir in fs.dirs && DirOk(fs, dir) && Find(Slots(fs, dir), name) == None
    requires |e| == 32 && Matches(e, name) && !IsDir(e)
    requires Table(slots') && Entered(Slots(fs, dir), slots', FreeSlot(Slots(fs, dir), 0), e)
    ensures var fs' := EnteredIn(fs, dir, slots', FreeSlot(Slots(fs, dir), 0), bytes);
      FilesOk(fs') && SameElsewhere(fs, fs', dir, name) && Holds(fs', dir, name, Some(bytes))
  {
    hide Find, FullName, Upper, UniqueNames, IsDir, ClusterOf, ZeroTail;
    var slots, k := Slots(fs, dir), FreeSlot(Slots(fs, dir), 0);
    var fs' := EnteredIn(fs, dir, slots', k, bytes);
    EnteredTail(slots, slots', k, e);
    EnteredUnique(slots, slots', k, e, name);
    EnteredFinds(slots, slots', k, e, name, name);
    forall d: nat | d in fs'.dirs ensures DirOk(fs', d) { DirTable(fs, d); }
    forall d: nat, other: seq<nat> | Elsewhere(fs, d, dir, name, other) ensures SameEntry(fs, fs', d, other) {
      DirTable(fs, d);
      if d == dir {
        EnteredFinds(slots, slots', k, e, name, other);
      }
      if Find(Slots(fs, d), other).Some? { FindVisible(Slots(fs, d), other); }
    }
  }

  /** Deleting a file hides its name and changes nothing else. */
  lemma DeleteMeans(fs: Files, dir: nat, name: seq<nat>, i: nat, e: Raw)
    requires FilesOk(fs) && dir in fs.dirs && DirOk(fs, dir) && Find(Slots(fs, dir), name) == Some(i)
    requires !IsDir(Slots(fs, dir)[i]) && |e| == 32 && e[0] == DELETED
    ensures var fs' := fs.(dirs := fs.dirs[dir := fs.dirs[dir][i := e]], contents := fs.contents - {(dir, i)});
      FilesOk(fs') && SameElsewhere(fs, fs', dir, name) && Holds(fs', dir, name, None)
  {
    hide Find, FullName, Upper, UniqueNames, IsDir, ClusterOf, ZeroTail;
    var fs' := fs.(dirs := fs.dirs[dir := fs.dirs[dir][i := e]], contents := fs.contents - {(dir, i)});
    var slots := Slots(fs, dir);
    FindVisible(slots, name);
    DeleteFinds(slots, i, e, name);
    forall d: nat | d in fs'.dirs ensures DirOk(fs', d) { DirTable(fs, d); }
    forall d: nat, other: seq<nat> | Elsewhere(fs, d, dir, name, other) ensures SameEntry(fs, fs', d, other) {
      DirTable(fs, d);
      if d == dir { DeleteFinds(slots, i, e, other); }
      if Find(Slots(fs, d), other).Some? { FindVisible(Slots(fs, d), other); }
    }
  }

  // ----- Adding a directory -----

  /** Searches agree except for `name` in `dir` and inside the new directory `c`. */
  ghost predicate SameButNew(fs: Files, fs': Files, dir: nat, name: seq<nat>, c: nat)
    requires FilesOk(fs) && FilesOk(fs')
  {
    forall d: nat, other: seq<nat> | d != c && Elsewhere(fs, d, dir, name, other) :: SameEntry(fs, fs', d, other)
  }

  /** Some prefix of `path`, or the whole of it, names the entry `name` of `dir`. */
  ghost predicate Passes(fs: Files, d: nat, path: Path, dir: nat, name: seq<nat>)
    requires FilesOk(fs)
  {
    exists i :: 0 < i <= |path| && NamesFrom(fs, d, path[..i], dir, name)
  }

  /** No directory entry leads to `c`. */
  ghost predicate Unreached(fs: Files, c: nat)
    requires FilesOk(fs)
  {
    forall d: nat, i: nat | EntryOf(fs, d, i) :: !(IsDir(fs.dirs[d][i]) && ClusterOf(fs.dirs[d][i]) == c)
  }

  ghost predicate EntryOf(fs: Files, d: nat, i: nat) {
    d in fs.dirs && i < |fs.dirs[d]| && |fs.dirs[d][i]| == 32 && Visible(fs.dirs[d][i])
  }

  lemma PassesHead(fs: Files, d: nat, path: Path, dir: nat, name: seq<nat>)
    requires FilesOk(fs) && path != [] && DirOk(fs, d)
    ensures Passes(fs, d, path, dir, name) <==>
      || (d == dir && Upper(path[0]) == Upper(name))
      || (var r := Find(Slots(fs, d), path[0]);
          && |path| > 1 && r.Some? && IsDir(Slots(fs, d)[r.value])
          && Passes(fs, ClusterOf(Slots(fs, d)[r.value]), path[1..], dir, name))
  {
    hide FilesOk, IsDir, ClusterOf, Find, NamesFrom;
    var r := Find(Slots(fs, d), path[0]);
    forall i | 0 < i <= |path| ensures path[..i][0] == path[0] && path[..i][1..] == path[1..][..i - 1] {
      ReadHead(fs, d, path[..i], dir, name);
    }
    if Passes(fs, d, path, dir, name) {
      var i :| 0 < i <= |path| && NamesFrom(fs, d, path[..i], dir, name);
      ReadHead(fs, d, path[..i], dir, name);
    }
    if d == dir && Upper(path[0]) == Upper(name) {
      ReadHead(fs, d, path[..1], dir, name);
    }
    if |path| > 1 && r.Some? && IsDir(Slots(fs, d)[r.value])
       && Passes(fs, ClusterOf(Slots(fs, d)[r.value]), path[1..], dir, name) {
      var i :| 0 < i <= |path[1..]| && NamesFrom(fs, ClusterOf(Slots(fs, d)[r.value]), path[1..][..i], dir, name);
      ReadHead(fs, d, path[..i + 1], dir, name);
    }
  }

  /** If a directory is added under a new name, paths through that name could not be read before, and every other path
      reads as before, errors included. */
  lemma {:induction false} ReadAround(fs: Files, fs': Files, d: nat, path: Path, dir: nat, name: seq<nat>, c: nat)
    requires FilesOk(fs) && FilesOk(fs') && SameButNew(fs, fs', dir, name, c) && Unreached(fs, c) && d != c
    requires DirOk(fs, dir) && Find(Slots(fs, dir), name) == None
    ensures Passes(fs, d, path, dir, name) ==> ReadFrom(fs, d, path).Err?
    ensures !Passes(fs, d, path, dir, name) ==> ReadFrom(fs', d, path) == ReadFrom(fs, d, path)
    decreases path
  {
    hide FilesOk, IsDir, ClusterOf, Passes, Unreached, SameButNew;
    if path == [] {
      NoPath(fs, d, dir, name);
    } else {
      DirTable(fs, d);
      DirTable(fs', d);
      PassesHead(fs, d, path, dir, name);
      if d == dir && Upper(path[0]) == Upper(name) {
        SameName(fs, dir, name, path[0]);
      } else {
        EntryStays(fs, fs', d, path[0], dir, name, c);
        var r := Find(Slots(fs, d), path[0]);
        if |path| > 1 && r.Some? && IsDir(Slots(fs, d)[r.value]) {
          ReadAround(fs, fs', ClusterOf(Slots(fs, d)[r.value]), path[1..], dir, name, c);
        }
      }
    }
  }

  lemma NoPath(fs: Files, d: nat, dir: nat, name: seq<nat>)
    requires FilesOk(fs)
    ensures !Passes(fs, d, [], dir, name)
  {
  }

  lemma EntryStays(fs: Files, fs': Files, d: nat, other: seq<nat>, dir: nat, name: seq<nat>, c: nat)
    requires FilesOk(fs) && FilesOk(fs') && SameButNew(fs, fs', dir, name, c) && Unreached(fs, c) && d != c
    requires DirOk(fs, d) && Elsewhere(fs, d, dir, name, other)
    ensures SameEntry(fs, fs', d, other)
    ensures var r := Find(Slots(fs, d), other);
      r.Some? && IsDir(Slots(fs, d)[r.value]) ==> ClusterOf(Slots(fs, d)[r.value]) != c
  {
    hide FilesOk, IsDir, ClusterOf, SameEntry, Visible;
    if Find(Slots(fs, d), other).Some? {
      FindVisible(Slots(fs, d), other);
      assert EntryOf(fs, d, Find(Slots(fs, d), other).value);
    }
  }

  /** Entering a directory under a new name changes nothing else. */
  lemma EnterDirKeeps(fs: Files, fs': Files, dir: nat, name: seq<nat>, e: Raw, c: nat)
    requires FilesOk(fs) && FilesOk(fs') && dir in fs.dirs && DirOk(fs, dir) && Find(Slots(fs, dir), name) == None
    requires |e| == 32 && Matches(e, name) && c !in fs.dirs && dir in fs'.dirs
    requires Entered(Slots(fs, dir), Slots(fs', dir), FreeSlot(Slots(fs, dir), 0), e)
    requires fs'.dirs == fs.dirs[dir := fs'.dirs[dir]][c := Slots(fs', c)] && fs'.contents == fs.contents
    ensures SameButNew(fs, fs', dir, name, c)
  {
    hide Find, FullName, Upper, UniqueNames, IsDir, ClusterOf, ZeroTail;
    var slots, k := Slots(fs, dir), FreeSlot(Slots(fs, dir), 0);
    DirTable(fs', dir);
    forall d: nat, other: seq<nat> | d != c && Elsewhere(fs, d, dir, name, other) ensures SameEntry(fs, fs', d, other) {
      DirTable(fs, d);
      DirTable(fs', d);
      if d == dir { EnteredFinds(slots, Slots(fs', dir), k, e, name, other); }
      if Find(Slots(fs, d), other).Some? { FindVisible(Slots(fs, d), other); }
    }
  }
}
