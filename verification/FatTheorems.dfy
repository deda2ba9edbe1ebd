/** What writing a file does, seen through every path. */
module FatTheorems {
  import opened Wrappers
  import opened FatEntries
  import opened FatDirs
  import opened FatChains
  import opened FatVolume
  import opened FatFiles
  import opened FatWrites

  /** The name is absent and fits 8.3, or it is a file. */
  ghost predicate Writable(v: Vol, ch: Chains, dir: nat, name: seq<nat>) {
    && WellFormed(v, ch)
    && match Find(SlotsAt(v, ch, dir), name)
       case None => EightThree(name)
       case Some(i) => !IsDir(SlotsAt(v, ch, dir)[i])
  }

  lemma SameSlots(v: Vol, v': Vol, ch: Chains, dir: nat)
    requires Meaning(v', ch) == Meaning(v, ch)
    ensures SlotsAt(v', ch, dir) == SlotsAt(v, ch, dir)
  {
    SlotsMean(v, ch, dir);
    SlotsMean(v', ch, dir);
  }

  /** A found file, after staging. */
  lemma FoundFile(v: Vol, v': Vol, ch: Chains, dir: nat, name: seq<nat>)
    requires Writable(v, ch, dir, name) && WellFormed(v', ch) && Meaning(v', ch) == Meaning(v, ch)
    requires Find(SlotsAt(v, ch, dir), name).Some?
    ensures var i := Find(SlotsAt(v, ch, dir), name).value;
      FileAt(v', ch, dir, i) && SlotsAt(v', ch, dir) == SlotsAt(v, ch, dir)
  {
    hide Find, Visible, IsDir, FullName, Upper, Shape, Apart, ZeroTail, UniqueNames;
    SameSlots(v, v', ch, dir);
    assert dir in ch.dirs;
    DirAtOk(v', ch, dir);
    FindVisible(SlotsAt(v', ch, dir), name);
  }

  function FileEntry(name: seq<nat>, l: seq<nat>, bytes: seq<nat>): (e: Raw)
    requires l != []
    ensures |e| == 32
  {
    NewEntry(ShortName(name), ARCHIVE, l[0], Size32(bytes))
  }

  /** `write_file` from the point where the parent directory is known. */
  ghost function WriteAt(v: Vol, ch: Chains, dir: nat, name: seq<nat>, bytes: seq<nat>): (Result<()>, Vol)
    requires Writable(v, ch, dir, name)
  {
    ShapeOf(v, ch);
    StageOk(v, ch, bytes);
    var (l, v2) := Stage(v, bytes);
    if l == [] then (Err(Full), v2)
    else match Find(SlotsAt(v, ch, dir), name)
      case Some(i) =>
        FoundFile(v, v2, ch, dir, name);
        var e := Retarget(SlotsAt(v2, ch, dir)[i], l[0], Size32(bytes));
        ReplaceableOk(v2, ch, dir, i, e);
        (Ok(()), Replace(v2, ch, dir, i, e))
      case None =>
        InsertIn(v2, ch, dir, FileEntry(name, l, bytes))
  }

  /** The chains after a successful write. */
  ghost function ChainsAfter(v: Vol, ch: Chains, dir: nat, name: seq<nat>, bytes: seq<nat>): Chains
    requires Writable(v, ch, dir, name)
  {
    ShapeOf(v, ch);
    StageOk(v, ch, bytes);
    var (l, v2) := Stage(v, bytes);
    if dir !in ch.dirs then ch
    else match Find(SlotsAt(v, ch, dir), name)
      case Some(i) => Rechain(ch, dir, i, l, [])
      case None => Rechain(ch, dir, FreeSlot(SlotsAt(v2, ch, dir), 0), l, Growth(v2, ch, dir))
  }

  lemma ContentPrefix(data: seq<seq<nat>>, s: seq<nat>, bytes: seq<nat>, r: nat)
    requires InBounds(data, s) && Content(data, s, |bytes|) == bytes && r <= |bytes|
    ensures Content(data, s, r) == bytes[..r]
  {
  }

  ghost predicate Wrote(fs: Files, fs': Files, dir: nat, name: seq<nat>, bytes: seq<nat>)
    requires FilesOk(fs)
  {
    fs'.root == fs.root && FilesOk(fs') && SameElsewhere(fs, fs', dir, name) && Holds(fs', dir, name, Some(bytes))
  }

  lemma ReplaceMeans(v: Vol, ch: Chains, dir: nat, name: seq<nat>, i: nat, l: seq<nat>, bytes: seq<nat>)
    requires WellFormed(v, ch) && FilesOk(Meaning(v, ch)) && FileAt(v, ch, dir, i)
    requires Find(SlotsAt(v, ch, dir), name) == Some(i)
    requires Spare(v, ch, l) && Replaceable(v, ch, dir, i, Retarget(SlotsAt(v, ch, dir)[i], l[0], Size32(bytes)))
    requires InBounds(v.data, l) && Content(v.data, l, |bytes|) == bytes
    ensures var e := Retarget(SlotsAt(v, ch, dir)[i], l[0], Size32(bytes));
      var v', ch' := Replace(v, ch, dir, i, e), Rechain(ch, dir, i, l, []);
      WellFormed(v', ch') && Wrote(Meaning(v, ch), Meaning(v', ch'), dir, name, bytes[..Size32(bytes)])
  {
    hide Find, Visible, IsDir, ClusterOf, SizeOf, FullName, Upper, WellFormed, SlotsAt, Replace, Rechain, Content,
      Updated, Shape, Retarget, ZeroTail, UniqueNames, SameElsewhere, Holds, FilesOk, BytesAt, Linked, Size32;
    var n, fs := Size32(bytes), Meaning(v, ch);
    var e := SlotsAt(v, ch, dir)[i];
    var e' := Retarget(e, l[0], n);
    var v', ch' := Replace(v, ch, dir, i, e'), Rechain(ch, dir, i, l, []);
    RetargetOk(e, l[0], n);
    ReplaceUpdates(v, ch, dir, i, l, n);
    UpdatedOk(v, v', ch, ch', dir, i, l, e');
    ReplaceLinks(v, ch, dir, i, e', l);
    ReplaceShape(v, ch, dir, i, e');
    BytesSame(v, v', l, n);
    ContentPrefix(v.data, l, bytes, n);
    SlotsMean(v, ch, dir);
    DirTable(fs, dir);
    OverwriteMeans(fs, dir, name, i, e', bytes[..n]);
    assert Meaning(v', ch') == Overwritten(fs, dir, i, e', bytes[..n]);
  }

  lemma FileEntryOk(name: seq<nat>, l: seq<nat>, bytes: seq<nat>)
    requires EightThree(name) && l != [] && Chained(l[0])
    ensures var e := FileEntry(name, l, bytes);
      Matches(e, name) && !IsDir(e) && ClusterOf(e) == l[0] && SizeOf(e) == Size32(bytes)
  {
    hide ClusterOf, SizeOf, FullName, Upper, ShortName, NewEntry, EightThree, Size32;
    ShortNameFits(name, ARCHIVE, l[0], Size32(bytes));
    NewEntryFace(ShortName(name), ARCHIVE, l[0], Size32(bytes));
    UpperTwice(name);
  }

  lemma UpperTwice(s: seq<nat>)
    ensures Upper(Upper(s)) == Upper(s)
  {
  }

  lemma EnterFileMeans(v: Vol, v': Vol, ch: Chains, dir: nat, name: seq<nat>, extra: seq<nat>, l: seq<nat>,
      bytes: seq<nat>)
    requires WellFormed(v, ch) && FilesOk(Meaning(v, ch)) && dir in ch.dirs && Find(SlotsAt(v, ch, dir), name) == None
    requires EightThree(name)
    requires Spare(v, ch, l) && InBounds(v.data, l) && Content(v.data, l, |bytes|) == bytes
    requires InBounds(v.data, ch.dirs[dir]) && |v.fat| == |v.data|
    requires Grown(v, v', ch.dirs[dir], dir, extra, FreeSlot(SlotsAt(v, ch, dir), 0), FileEntry(name, l, bytes))
    ensures var ch' := Rechain(ch, dir, FreeSlot(SlotsAt(v, ch, dir), 0), l, extra);
      WellFormed(v', ch') && Wrote(Meaning(v, ch), Meaning(v', ch'), dir, name, bytes[..Size32(bytes)])
  {
    hide Find, Visible, IsDir, ClusterOf, SizeOf, FullName, Upper, WellFormed, SlotsAt, Rechain, Content, Shape,
      ZeroTail, UniqueNames, SameElsewhere, Holds, FilesOk, BytesAt, Linked, Size32, FileEntry, EightThree, Matches,
      Updated, FreeSlot;
    var e, fs, t, n := FileEntry(name, l, bytes), Meaning(v, ch), FreeSlot(SlotsAt(v, ch, dir), 0), Size32(bytes);
    var ch' := Rechain(ch, dir, t, l, extra);
    FileEntryOk(name, l, bytes);
    GrownUpdates(v, v', ch, dir, extra, t, e, name, l);
    UpdatedOk(v, v', ch, ch', dir, t, l, e);
    BytesSame(v, v', l, n);
    ContentPrefix(v.data, l, bytes, n);
    SlotsMean(v, ch, dir);
    DirTable(fs, dir);
    UpdatedEntered(v, v', ch, ch', dir, t, l, e);
    EnterMeans(fs, dir, name, SlotsAt(v', ch', dir), e, bytes[..n]);
  }

  lemma UpdatedEntered(v: Vol, v': Vol, ch: Chains, ch': Chains, dir: nat, t: nat, l: seq<nat>, e: Raw)
    requires Updated(v, v', ch, ch', dir, t, l, e)
    ensures Entered(SlotsAt(v, ch, dir), SlotsAt(v', ch', dir), t, e)
  {
  }

  /** A write that fails leaves everything readable as before; one that succeeds leaves a well-formed volume on which
      only the file written has changed. */
  lemma WriteOk(v: Vol, ch: Chains, dir: nat, name: seq<nat>, bytes: seq<nat>)
    requires Writable(v, ch, dir, name) && FilesOk(Meaning(v, ch))
    ensures var (r, v') := WriteAt(v, ch, dir, name, bytes); var ch' := ChainsAfter(v, ch, dir, name, bytes);
      && (r.Err? ==> WellFormed(v', ch) && Meaning(v', ch) == Meaning(v, ch) && FullOrNowhere(v', ch, dir, r.error))
      && (r.Ok? ==> WellFormed(v', ch') && Wrote(Meaning(v, ch), Meaning(v', ch'), dir, name, bytes[..Size32(bytes)]))
  {
    hide Find, IsDir, ClusterOf, WellFormed, SlotsAt, Rechain, Content, Shape, Spare, Meaning, Wrote, FilesOk, BytesAt,
      Linked, Size32, FileEntry, EightThree, FreeSlot, Replace, Stage, Grown, Growth, InsertIn;
    StageOk(v, ch, bytes);
    ShapeOf(v, ch);
    var (l, v2) := Stage(v, bytes);
    if l != [] {
      SameSlots(v, v2, ch, dir);
      var r := Find(SlotsAt(v, ch, dir), name);
      if r.Some? {
        FoundFile(v, v2, ch, dir, name);
        SpareHead(v2, ch, l);
        ReplaceableOk(v2, ch, dir, r.value, Retarget(SlotsAt(v2, ch, dir)[r.value], l[0], Size32(bytes)));
        FoundDir(v, ch, dir, name);
        ReplaceMeans(v2, ch, dir, name, r.value, l, bytes);
      } else {
        EnterOk(v2, ch, dir, name, l, bytes);
      }
    }
  }

  lemma FoundDir(v: Vol, ch: Chains, dir: nat, name: seq<nat>)
    requires Find(SlotsAt(v, ch, dir), name).Some?
    ensures dir in ch.dirs
  {
  }

  lemma EnterOk(v: Vol, ch: Chains, dir: nat, name: seq<nat>, l: seq<nat>, bytes: seq<nat>)
    requires WellFormed(v, ch) && FilesOk(Meaning(v, ch)) && Find(SlotsAt(v, ch, dir), name) == None && EightThree(name)
    requires l != [] && Spare(v, ch, l) && InBounds(v.data, l) && Content(v.data, l, |bytes|) == bytes
    ensures var (r, v') := InsertIn(v, ch, dir, FileEntry(name, l, bytes));
      && (r.Err? ==> v' == v && FullOrNowhere(v, ch, dir, r.error))
      && (r.Ok? ==> dir in ch.dirs)
      && (r.Ok? ==> var ch' := Rechain(ch, dir, FreeSlot(SlotsAt(v, ch, dir), 0), l, Growth(v, ch, dir));
            WellFormed(v', ch') && Wrote(Meaning(v, ch), Meaning(v', ch'), dir, name, bytes[..Size32(bytes)]))
  {
    hide Find, IsDir, ClusterOf, WellFormed, SlotsAt, Rechain, Content, Shape, Spare, Meaning, Wrote, FilesOk, BytesAt,
      Linked, Size32, FileEntry, EightThree, Grown, Growth, InsertIn, FreeSlot;
    var e := FileEntry(name, l, bytes);
    var (r, v') := InsertIn(v, ch, dir, e);
    InsertFails(v, ch, dir, e);
    if r.Ok? {
      DirAtOk(v, ch, dir);
      ShapeOf(v, ch);
      InsertGrows(v, ch, dir, e);
      EnterFileMeans(v, v', ch, dir, name, Growth(v, ch, dir), l, bytes);
    }
  }

  lemma InsertFails(v: Vol, ch: Chains, dir: nat, e: Raw)
    requires WellFormed(v, ch) && |e| == 32
    ensures var (r, v') := InsertIn(v, ch, dir, e);
      (r.Err? ==> v' == v) && (r.Ok? ==> dir in ch.dirs) && (r.Err? ==> FullOrNowhere(v, ch, dir, r.error))
  {
  }

  /** The two ways a write can fail once its directory is known. */
  ghost predicate FullOrNowhere(v: Vol, ch: Chains, dir: nat, error: FatError) {
    (error == Full && NoneFree(v)) || (error == NoSlot && dir !in ch.dirs)
  }

  lemma InsertGrows(v: Vol, ch: Chains, dir: nat, e: Raw)
    requires WellFormed(v, ch) && dir in ch.dirs && |e| == 32 && InsertIn(v, ch, dir, e).0.Ok?
    requires InBounds(v.data, ch.dirs[dir]) && |v.fat| == |v.data|
    ensures Grown(v, InsertIn(v, ch, dir, e).1, ch.dirs[dir], dir, Growth(v, ch, dir),
      FreeSlot(SlotsAt(v, ch, dir), 0), e)
  {
    hide WellFormed, Grown, InsertIn, SlotsAt;
    if FreeSlot(SlotsAt(v, ch, dir), 0) < |SlotsAt(v, ch, dir)| {
      InsertFree(v, ch, dir, e);
    } else {
      InsertGrow(v, ch, dir, e);
    }
  }
}
