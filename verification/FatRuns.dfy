/** FAT32 by path and over whole histories. */
module FatRuns {
  import opened Wrappers
  import opened FatEntries
  import opened FatDirs
  import opened FatChains
  import opened FatVolume
  import opened FatFiles
  import opened FatWrites
  import opened FatTheorems
  import opened FatMakeDir

  function Parent(path: Path): Path
    requires path != []
  {
    path[..|path| - 1]
  }

  function Last(path: Path): seq<nat>
    requires path != []
  {
    path[|path| - 1]
  }

  /** The directory a path is entered in. */
  ghost function HomeOf(v: Vol, ch: Chains, path: Path): Result<nat>
    requires WellFormed(v, ch)
  {
    MeaningOk(v, ch);
    if path == [] then Err(BadName) else DirectoryFrom(Meaning(v, ch), v.root, Parent(path))
  }

  /** `read_file`. */
  ghost function ReadFile(v: Vol, ch: Chains, path: Path): Result<seq<nat>>
    requires WellFormed(v, ch)
  {
    MeaningOk(v, ch);
    ReadFrom(Meaning(v, ch), v.root, path)
  }

  ghost predicate SameFile(v: Vol, ch: Chains, p: Path, q: Path)
    requires WellFormed(v, ch)
  {
    p != [] && q != [] && HomeOf(v, ch, p).Ok? && HomeOf(v, ch, q) == HomeOf(v, ch, p) &&
      Upper(Last(q)) == Upper(Last(p))
  }

  // ----- Writing -----

  /** Where the target is absent its name fits 8.3, and it is not a directory. */
  ghost predicate MayWrite(v: Vol, ch: Chains, path: Path) {
    WellFormed(v, ch) && (HomeOf(v, ch, path).Ok? ==> Writable(v, ch, HomeOf(v, ch, path).value, Last(path)))
  }

  /** `write_file`: the outcome, the volume, and the chains on it. */
  ghost function WriteFile(v: Vol, ch: Chains, path: Path, bytes: seq<nat>): (Result<()>, Vol, Chains)
    requires MayWrite(v, ch, path)
  {
    match HomeOf(v, ch, path)
    case Err(e) => (Err(e), v, ch)
    case Ok(dir) =>
      var (r, v') := WriteAt(v, ch, dir, Last(path), bytes);
      (r, v', if r.Ok? then ChainsAfter(v, ch, dir, Last(path), bytes) else ch)
  }

  lemma HoldsNow(v: Vol, ch: Chains, dir: nat, name: seq<nat>) returns (was: Option<seq<nat>>)
    requires Writable(v, ch, dir, name) && FilesOk(Meaning(v, ch))
    ensures Holds(Meaning(v, ch), dir, name, was)
  {
    hide WellFormed, Find, IsDir, BytesAt, EightThree, FilesOk;
    var fs := Meaning(v, ch);
    SlotsMean(v, ch, dir);
    DirTable(fs, dir);
    match Find(SlotsAt(v, ch, dir), name)
    case None => was := None;
    case Some(i) => FindVisible(Slots(fs, dir), name); was := Some(fs.contents[(dir, i)]);
  }

  lemma SameFileNames(v: Vol, ch: Chains, p: Path, q: Path)
    requires WellFormed(v, ch) && FilesOk(Meaning(v, ch)) && HomeOf(v, ch, p).Ok? && p != []
    ensures SameFile(v, ch, p, q) <==> NamesFrom(Meaning(v, ch), v.root, q, HomeOf(v, ch, p).value, Last(p))
  {
    hide WellFormed, FilesOk, DirectoryFrom, Meaning, Upper;
  }

  /** After a successful write, every path to the written file reads the bytes (cut to the 32-bit size field) and every
      other path reads as before; after a failed one every path reads as before, and the volume is full or the parent is
      no directory. The volume stays well formed. */
  lemma WriteFileOk(v: Vol, ch: Chains, path: Path, bytes: seq<nat>, q: Path)
    requires MayWrite(v, ch, path)
    ensures var (r, v', ch') := WriteFile(v, ch, path, bytes);
      && WellFormed(v', ch')
      && (r.Ok? && SameFile(v, ch, path, q) ==> ReadFile(v', ch', q) == Ok(bytes[..Size32(bytes)]))
      && (r.Ok? && !SameFile(v, ch, path, q) ==> SameRead(ReadFile(v', ch', q), ReadFile(v, ch, q)))
      && (r.Err? ==> ReadFile(v', ch', q) == ReadFile(v, ch, q))
      && (r.Err? && HomeOf(v, ch, path).Ok? ==> FullOrNowhere(v', ch', HomeOf(v, ch, path).value, r.error))
  {
    hide WellFormed, FilesOk, DirectoryFrom, Upper, ReadFrom, FullOrNowhere, WriteAt, ChainsAfter, Writable,
      SameElsewhere, Holds, BytesAt, SlotsAt, NamesFrom, SameRead, Size32;
    MeaningOk(v, ch);
    var home := HomeOf(v, ch, path);
    if home.Ok? {
      var dir, name, fs := home.value, Last(path), Meaning(v, ch);
      WriteOk(v, ch, dir, name, bytes);
      var (r, v', ch') := WriteFile(v, ch, path, bytes);
      MeaningOk(v', ch');
      assert v'.root == v.root by { assert Meaning(v', ch').root == Meaning(v, ch).root; }
      if r.Ok? {
        var was := HoldsNow(v, ch, dir, name);
        SameFileNames(v, ch, path, q);
        ReadAfter(fs, Meaning(v', ch'), v.root, q, dir, name, was, Some(bytes[..Size32(bytes)]));
      }
    }
  }

  // ----- Deleting -----

  /** The target, if it exists, is a file. */
  ghost predicate MayDelete(v: Vol, ch: Chains, path: Path) {
    && WellFormed(v, ch)
    && (HomeOf(v, ch, path).Ok? ==>
          var slots := SlotsAt(v, ch, HomeOf(v, ch, path).value);
          var r := Find(slots, Last(path));
          r.Some? ==> !IsDir(slots[r.value]))
  }

  lemma DeleteTarget(v: Vol, ch: Chains, dir: nat, name: seq<nat>)
    requires WellFormed(v, ch) && Find(SlotsAt(v, ch, dir), name).Some?
    requires !IsDir(SlotsAt(v, ch, dir)[Find(SlotsAt(v, ch, dir), name).value])
    ensures var i := Find(SlotsAt(v, ch, dir), name).value;
      FileAt(v, ch, dir, i) && Replaceable(v, ch, dir, i, Deleted(SlotsAt(v, ch, dir)[i]))
  {
    hide Find, IsDir, ClusterOf, Shape, Apart, ZeroTail, UniqueNames, FullName, Upper;
    var i := Find(SlotsAt(v, ch, dir), name).value;
    DirAtOk(v, ch, dir);
    FindVisible(SlotsAt(v, ch, dir), name);
    ReplaceableOk(v, ch, dir, i, Deleted(SlotsAt(v, ch, dir)[i]));
  }

  /** `delete_entry` on files. */
  ghost function DeleteFile(v: Vol, ch: Chains, path: Path): (Result<()>, Vol, Chains)
    requires MayDelete(v, ch, path)
  {
    match HomeOf(v, ch, path)
    case Err(e) => (Err(e), v, ch)
    case Ok(dir) =>
      match Find(SlotsAt(v, ch, dir), Last(path))
      case None => (Err(NotFound), v, ch)
      case Some(i) =>
        DeleteTarget(v, ch, dir, Last(path));
        (Ok(()), Replace(v, ch, dir, i, Deleted(SlotsAt(v, ch, dir)[i])), Forget(ch, (dir, i)))
  }

  lemma DeleteAtOk(v: Vol, ch: Chains, dir: nat, name: seq<nat>, i: nat)
    requires WellFormed(v, ch) && FilesOk(Meaning(v, ch)) && Find(SlotsAt(v, ch, dir), name) == Some(i)
    requires !IsDir(SlotsAt(v, ch, dir)[i])
    requires FileAt(v, ch, dir, i) && Replaceable(v, ch, dir, i, Deleted(SlotsAt(v, ch, dir)[i]))
    ensures var v', ch' := Replace(v, ch, dir, i, Deleted(SlotsAt(v, ch, dir)[i])), Forget(ch, (dir, i));
      && WellFormed(v', ch') && v'.root == v.root && FilesOk(Meaning(v', ch'))
      && SameElsewhere(Meaning(v, ch), Meaning(v', ch'), dir, name) && Holds(Meaning(v', ch'), dir, name, None)
  {
    hide WellFormed, Find, IsDir, SlotsAt, Shape, FilesOk, Cleared, Replace, SameElsewhere, Holds, BytesAt, Visible,
      ClusterOf, Deleted;
    var e, fs := Deleted(SlotsAt(v, ch, dir)[i]), Meaning(v, ch);
    var v', ch' := Replace(v, ch, dir, i, e), Forget(ch, (dir, i));
    DeleteClears(v, ch, dir, i);
    ClearedOk(v, v', ch, ch', dir, i, e);
    ReplaceShape(v, ch, dir, i, e);
    SlotsMean(v, ch, dir);
    DirTable(fs, dir);
    DeleteMeans(fs, dir, name, i, e);
  }

  /** After a successful delete no path to the file finds it and every other path reads as before. */
  lemma DeleteFileOk(v: Vol, ch: Chains, path: Path, q: Path)
    requires MayDelete(v, ch, path)
    ensures var (r, v', ch') := DeleteFile(v, ch, path);
      && WellFormed(v', ch')
      && (r.Ok? && SameFile(v, ch, path, q) ==> ReadFile(v', ch', q) == Err(NotFound))
      && (!(r.Ok? && SameFile(v, ch, path, q)) ==> SameRead(ReadFile(v', ch', q), ReadFile(v, ch, q)))
  {
    hide WellFormed, FilesOk, DirectoryFrom, Upper, ReadFrom, SameElsewhere, Holds, BytesAt, SlotsAt, NamesFrom, Find,
      IsDir, Replace, Deleted, Visible, ClusterOf, Shape;
    MeaningOk(v, ch);
    var home := HomeOf(v, ch, path);
    if home.Ok? && Find(SlotsAt(v, ch, home.value), Last(path)).Some? {
      var dir, name, fs := home.value, Last(path), Meaning(v, ch);
      var i := Find(SlotsAt(v, ch, dir), name).value;
      DeleteTarget(v, ch, dir, name);
      DeleteAtOk(v, ch, dir, name, i);
      var (r, v', ch') := DeleteFile(v, ch, path);
      HoldsFile(v, ch, dir, name);
      SameFileNames(v, ch, path, q);
      ReadAfter(fs, Meaning(v', ch'), v.root, q, dir, name, Some(fs.contents[(dir, i)]), None);
    }
  }

  lemma HoldsFile(v: Vol, ch: Chains, dir: nat, name: seq<nat>)
    requires WellFormed(v, ch) && FilesOk(Meaning(v, ch)) && Find(SlotsAt(v, ch, dir), name).Some?
    requires !IsDir(SlotsAt(v, ch, dir)[Find(SlotsAt(v, ch, dir), name).value])
    ensures var k := (dir, Find(SlotsAt(v, ch, dir), name).value);
      k in Meaning(v, ch).contents && Holds(Meaning(v, ch), dir, name, Some(Meaning(v, ch).contents[k]))
  {
    hide WellFormed, Find, IsDir, BytesAt, FilesOk;
    SlotsMean(v, ch, dir);
    DirTable(Meaning(v, ch), dir);
    FindVisible(SlotsAt(v, ch, dir), name);
  }

  // ----- Creating directories -----

  ghost predicate MayMkdir(v: Vol, ch: Chains, path: Path) {
    WellFormed(v, ch) && (HomeOf(v, ch, path).Ok? ==> EightThree(Last(path)))
  }

  ghost function CreateDir(v: Vol, ch: Chains, path: Path): (Result<nat>, Vol, Chains)
    requires MayMkdir(v, ch, path)
  {
    match HomeOf(v, ch, path)
    case Err(e) => (Err(e), v, ch)
    case Ok(dir) =>
      var (r, v') := MkdirAt(v, ch, dir, Last(path));
      (r, v', if r.Ok? then MkdirChains(v, ch, dir, Last(path)) else ch)
  }

  /** The path goes through the name where the new directory is entered. */
  ghost predicate PassesNew(v: Vol, ch: Chains, path: Path, q: Path)
    requires WellFormed(v, ch)
  {
    MeaningOk(v, ch);
    path != [] && HomeOf(v, ch, path).Ok? && Passes(Meaning(v, ch), v.root, q, HomeOf(v, ch, path).value, Last(path))
  }

  /** After a directory is created every path that does not go through its name reads as before, errors included, and
      those that do could not be read before; after a failure every path reads as before. */
  lemma CreateDirOk(v: Vol, ch: Chains, path: Path, q: Path)
    requires MayMkdir(v, ch, path)
    ensures var (r, v', ch') := CreateDir(v, ch, path);
      && WellFormed(v', ch')
      && (r.Ok? && PassesNew(v, ch, path, q) ==> ReadFile(v, ch, q).Err?)
      && (!(r.Ok? && PassesNew(v, ch, path, q)) ==> ReadFile(v', ch', q) == ReadFile(v, ch, q))
  {
    hide WellFormed, FilesOk, DirectoryFrom, ReadFrom, SameButNew, SlotsAt, BytesAt, Find, MkdirAt, MkdirChains,
      EightThree, DotSlots, Passes, Unreached;
    MeaningOk(v, ch);
    var home := HomeOf(v, ch, path);
    if home.Ok? {
      var dir, name, fs := home.value, Last(path), Meaning(v, ch);
      MkdirOk(v, ch, dir, name);
      var (r, v', ch') := CreateDir(v, ch, path);
      MeaningOk(v', ch');
      assert v'.root == v.root by { assert Meaning(v', ch').root == Meaning(v, ch).root; }
      if r.Ok? {
        MkdirNew(v, ch, dir, name);
        NothingLeadsTo(v, ch, r.value);
        DirTable(fs, dir);
        ReadAround(fs, Meaning(v', ch'), v.root, q, dir, name, r.value);
      }
    }
  }

  lemma MkdirNew(v: Vol, ch: Chains, dir: nat, name: seq<nat>)
    requires WellFormed(v, ch) && MkdirAt(v, ch, dir, name).0.Ok?
    ensures Find(Slots(Meaning(v, ch), dir), name) == None
  {
    hide WellFormed, SlotsAt, Find;
    SlotsMean(v, ch, dir);
  }

  /** No entry of a well-formed volume leads to a cluster that is no directory. */
  lemma NothingLeadsTo(v: Vol, ch: Chains, c: nat)
    requires WellFormed(v, ch) && FilesOk(Meaning(v, ch)) && c !in ch.dirs && Chained(c)
    ensures Unreached(Meaning(v, ch), c) && v.root != c
  {
    hide Shape, Apart, Visible, IsDir, ClusterOf, FilesOk, ZeroTail, UniqueNames, Linked, SlotsAt;
    var fs := Meaning(v, ch);
    forall d: nat, i: nat | EntryOf(fs, d, i) ensures !(IsDir(fs.dirs[d][i]) && ClusterOf(fs.dirs[d][i]) == c) {
      assert DirWell(v, ch, d) && SlotWell(v, ch, d, i);
    }
  }

  // ----- Formatting -----

  /** The volume `format` leaves: three table entries, and a root directory that holds the volume label. The bytes of
      the other clusters are whatever was on the disk. */
  function Formatted(mark: seq<nat>, data: seq<seq<nat>>): Vol
    requires |mark| == 11 && |data| >= 3
  {
    Vol([0x0FFF_FFF8, EOC, EOC] + Zeros(|data| - 3), data[2 := mark + [0x08] + Zeros(500)], 1, 2)
  }

  function RootOnly(): Chains {
    Chains(map[2 := [2]], map[])
  }

  lemma RootSlots(mark: seq<nat>, data: seq<seq<nat>>)
    requires |mark| == 11 && |data| >= 3
    ensures var s := SlotsAt(Formatted(mark, data), RootOnly(), 2);
      && |s| == 16 && s[0] == mark + [0x08] + Zeros(20) && forall j | 1 <= j < 16 :: s[j] == Zeros(32)
  {
    var v := Formatted(mark, data);
    assert [2][1..] == [];
    assert SlotsOf(v.data, [2]) == Cut(v.data[2]) + SlotsOf(v.data, []);
    assert v.data[2][0..32] == mark + [0x08] + Zeros(20);
    forall j | 1 <= j < 16 ensures v.data[2][32 * j..32 * j + 32] == Zeros(32) {}
  }

  /** A formatted volume is well formed and empty. */
  lemma FormattedOk(mark: seq<nat>, data: seq<seq<nat>>)
    requires |mark| == 11 && 3 <= |data| <= END && forall c | 2 <= c < |data| :: |data[c]| == 512
    ensures WellFormed(Formatted(mark, data), RootOnly())
    ensures forall q: Path :: ReadFile(Formatted(mark, data), RootOnly(), q).Err?
  {
    hide SlotsAt;
    var v, ch := Formatted(mark, data), RootOnly();
    RootSlots(mark, data);
    var s := SlotsAt(v, ch, 2);
    forall i | 0 <= i < 16 ensures !Visible(s[i]) { if i > 0 { assert s[i] == Zeros(32); } }
    assert Link(v.fat, [2], 0);
    RootApart();
    FormattedShape(mark, data);
    RootWell(v, s);
    forall q: Path ensures ReadFile(v, ch, q).Err? {
      EmptyReads(v, ch, q);
    }
  }

  lemma FormattedShape(mark: seq<nat>, data: seq<seq<nat>>)
    requires |mark| == 11 && 3 <= |data| <= END && forall c | 2 <= c < |data| :: |data[c]| == 512
    ensures Shape(Formatted(mark, data))
  {
  }

  lemma RootWell(v: Vol, s: seq<Raw>)
    requires s == SlotsAt(v, RootOnly(), 2) && |s| == 16 && (forall j | 1 <= j < 16 :: s[j] == Zeros(32))
    requires (forall i | 0 <= i < 16 :: !Visible(s[i])) && Linked(v.fat, 2, [2])
    ensures DirWell(v, RootOnly(), 2)
  {
  }

  lemma RootApart()
    ensures Apart(RootOnly())
  {
  }

  lemma EmptyReads(v: Vol, ch: Chains, q: Path)
    requires WellFormed(v, ch) && forall i | 0 <= i < |SlotsAt(v, ch, v.root)| :: !Visible(SlotsAt(v, ch, v.root)[i])
    ensures ReadFile(v, ch, q).Err?
  {
    hide WellFormed, Visible, SlotsAt, IsDir, ClusterOf;
    MeaningOk(v, ch);
    SlotsMean(v, ch, v.root);
    DirTable(Meaning(v, ch), v.root);
    if q != [] && Find(Slots(Meaning(v, ch), v.root), q[0]).Some? {
      FindVisible(Slots(Meaning(v, ch), v.root), q[0]);
    }
  }

  // ----- Histories -----

  datatype Event = Write(path: Path, bytes: seq<nat>) | Delete(path: Path) | MakeDir(path: Path)

  ghost predicate May(v: Vol, ch: Chains, e: Event) {
    match e
    case Write(p, _) => MayWrite(v, ch, p)
    case Delete(p) => MayDelete(v, ch, p)
    case MakeDir(p) => MayMkdir(v, ch, p)
  }

  /** One call; an event that is not allowed is not taken. */
  ghost function Step(v: Vol, ch: Chains, e: Event): (Vol, Chains)
    requires WellFormed(v, ch)
  {
    if !May(v, ch, e) then (v, ch)
    else match e
      case Write(p, bytes) => var (_, v', ch') := WriteFile(v, ch, p, bytes); (v', ch')
      case Delete(p) => var (_, v', ch') := DeleteFile(v, ch, p); (v', ch')
      case MakeDir(p) => var (_, v', ch') := CreateDir(v, ch, p); (v', ch')
  }

  /** The event writes or deletes the file `q` names. */
  ghost predicate Touches(v: Vol, ch: Chains, e: Event, q: Path)
    requires WellFormed(v, ch)
  {
    (e.Write? || e.Delete?) && SameFile(v, ch, e.path, q)
  }

  lemma StepOk(v: Vol, ch: Chains, e: Event, q: Path)
    requires WellFormed(v, ch)
    ensures var (v', ch') := Step(v, ch, e);
      WellFormed(v', ch') &&
        (ReadFile(v, ch, q).Ok? && !Touches(v, ch, e, q) ==> ReadFile(v', ch', q) == ReadFile(v, ch, q))
  {
    hide WellFormed, ReadFile, SameFile, WriteFile, DeleteFile, CreateDir, MayWrite, MayDelete, MayMkdir;
    if May(v, ch, e) {
      match e
      case Write(p, bytes) =>
        WriteFileOk(v, ch, p, bytes, q);
        var r := WriteFile(v, ch, p, bytes).0;
        assert r.Ok? || r.Err?;
      case Delete(p) => DeleteFileOk(v, ch, p, q);
      case MakeDir(p) => CreateDirOk(v, ch, p, q);
    }
  }

  ghost function Run(v: Vol, ch: Chains, es: seq<Event>): (Vol, Chains)
    requires WellFormed(v, ch)
    decreases es
  {
    if es == [] then (v, ch)
    else
      StepOk(v, ch, es[0], []);
      var (v1, ch1) := Step(v, ch, es[0]);
      Run(v1, ch1, es[1..])
  }

  /** No event of the run writes or deletes the file `q` names at that time. */
  ghost predicate Spared(v: Vol, ch: Chains, es: seq<Event>, q: Path)
    requires WellFormed(v, ch)
    decreases es
  {
    es == [] ||
    (StepOk(v, ch, es[0], []);
     var (v1, ch1) := Step(v, ch, es[0]);
     !Touches(v, ch, es[0], q) && Spared(v1, ch1, es[1..], q))
  }

  /** The volume is well formed after every history, and a file nobody writes or deletes keeps its bytes through it. */
  lemma {:induction false} RunOk(v: Vol, ch: Chains, es: seq<Event>, q: Path)
    requires WellFormed(v, ch)
    ensures var (v', ch') := Run(v, ch, es);
      WellFormed(v', ch') &&
        (ReadFile(v, ch, q).Ok? && Spared(v, ch, es, q) ==> ReadFile(v', ch', q) == ReadFile(v, ch, q))
    decreases es
  {
    hide WellFormed, ReadFile, Step, Touches;
    if es != [] {
      StepOk(v, ch, es[0], []);
      StepOk(v, ch, es[0], q);
      var (v1, ch1) := Step(v, ch, es[0]);
      RunOk(v1, ch1, es[1..], q);
    }
  }

  /** What a successful write stored is read back after any history that spares the file. */
  lemma WriteLasts(v: Vol, ch: Chains, path: Path, bytes: seq<nat>, es: seq<Event>)
    requires MayWrite(v, ch, path) && WriteFile(v, ch, path, bytes).0.Ok? && |bytes| < 0x1_0000_0000
    ensures var (_, v1, ch1) := WriteFile(v, ch, path, bytes); WellFormed(v1, ch1)
    ensures var (_, v1, ch1) := WriteFile(v, ch, path, bytes);
      Spared(v1, ch1, es, path) ==> var (v2, ch2) := Run(v1, ch1, es);
        WellFormed(v2, ch2) && ReadFile(v2, ch2, path) == Ok(bytes)
  {
    hide WellFormed, ReadFile, Spared, Run, WriteAt, ChainsAfter, Writable;
    WriteFileOk(v, ch, path, bytes, path);
    var (_, v1, ch1) := WriteFile(v, ch, path, bytes);
    RunOk(v1, ch1, es, path);
    assert SameFile(v, ch, path, path);
    assert bytes[..|bytes|] == bytes;
  }

  /** Every history of a freshly formatted volume leaves it well formed. */
  lemma FormattedHistory(mark: seq<nat>, data: seq<seq<nat>>, es: seq<Event>)
    requires |mark| == 11 && 3 <= |data| <= END && forall c | 2 <= c < |data| :: |data[c]| == 512
    ensures WellFormed(Formatted(mark, data), RootOnly())
    ensures var (v, ch) := Run(Formatted(mark, data), RootOnly(), es); WellFormed(v, ch)
  {
    hide WellFormed, Formatted, RootOnly;
    FormattedOk(mark, data);
    RunOk(Formatted(mark, data), RootOnly(), es, []);
  }
}
