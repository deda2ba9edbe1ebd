/** Names and errors by path: which spellings are the same file, what a stored name looks like, and why a call fails. */
module FatNames {
  import opened FatEntries
  import opened FatDirs
  import opened FatChains
  import opened FatVolume
  import opened FatFiles
  import opened FatWrites
  import opened FatTheorems
  import opened FatMakeDir
  import opened FatRuns

  /** The same byte, or the two cases of one ASCII letter. */
  predicate SameLetter(a: nat, b: nat) {
    a == b || (65 <= a <= 90 && b == a + 32) || (97 <= a <= 122 && b == a - 32)
  }

  predicate SameLetters(s: seq<nat>, t: seq<nat>) {
    |s| == |t| && forall i | 0 <= i < |s| :: SameLetter(s[i], t[i])
  }

  predicate SamePath(p: Path, q: Path) {
    |p| == |q| && forall i | 0 <= i < |p| :: SameLetters(p[i], q[i])
  }

  lemma UpperIff(s: seq<nat>, t: seq<nat>)
    ensures Upper(s) == Upper(t) <==> SameLetters(s, t)
  {
    hide Upper;
    if Upper(s) == Upper(t) {
      forall i | 0 <= i < |s| ensures SameLetter(s[i], t[i]) { assert Upper(s)[i] == Upper(t)[i]; }
    }
  }

  /** A stored short name holds no lower-case letter. */
  lemma StoredUpper(name: seq<nat>)
    ensures forall i | 0 <= i < 11 :: !(97 <= ShortName(name)[i] <= 122)
  {
    hide Upper, DotAt;
    var u := Upper(name);
    assert forall i | 0 <= i < |u| :: !(97 <= u[i] <= 122);
    PaddedUpper(u[..DotAt(u)], 8);
    PaddedUpper(Extension(u), 3);
  }

  lemma PaddedUpper(s: seq<nat>, n: nat)
    requires forall i | 0 <= i < |s| :: !(97 <= s[i] <= 122)
    ensures forall i | 0 <= i < n :: !(97 <= Padded(s, n)[i] <= 122)
  {
  }

  lemma {:induction false} SameWalk(fs: Files, d: nat, p: Path, q: Path)
    requires FilesOk(fs) && SamePath(p, q)
    ensures DirectoryFrom(fs, d, p) == DirectoryFrom(fs, d, q) && ReadFrom(fs, d, p) == ReadFrom(fs, d, q)
    decreases p
  {
    hide FilesOk, Find, IsDir, ClusterOf, Upper, SameLetters;
    if p != [] {
      UpperIff(q[0], p[0]);
      UpperIff(p[0], q[0]);
      SameName(fs, d, p[0], q[0]);
      assert SamePath(p[1..], q[1..]);
      var r := Find(Slots(fs, d), p[0]);
      if r.Some? && IsDir(Slots(fs, d)[r.value]) { SameWalk(fs, ClusterOf(Slots(fs, d)[r.value]), p[1..], q[1..]); }
    }
  }

  /** Paths that differ only in the case of ASCII letters read the same, name the same file and have the same home. */
  lemma CaseBlind(v: Vol, ch: Chains, p: Path, q: Path)
    requires WellFormed(v, ch) && SamePath(p, q)
    ensures ReadFile(v, ch, q) == ReadFile(v, ch, p) && HomeOf(v, ch, q) == HomeOf(v, ch, p)
    ensures p != [] && HomeOf(v, ch, p).Ok? ==> SameFile(v, ch, p, q)
  {
    hide WellFormed, FilesOk, Upper, SameLetters, ReadFrom, DirectoryFrom, Meaning;
    MeaningOk(v, ch);
    var fs := Meaning(v, ch);
    SameWalk(fs, v.root, p, q);
    if p != [] {
      assert SamePath(Parent(p), Parent(q));
      SameWalk(fs, v.root, Parent(p), Parent(q));
      UpperIff(Last(q), Last(p));
      assert SameLetters(Last(p), Last(q));
      UpperIff(Last(p), Last(q));
    }
  }

  /** In one directory, two names are the same file exactly when they differ in letter case alone. */
  lemma SameFileIff(v: Vol, ch: Chains, p: Path, q: Path)
    requires WellFormed(v, ch) && p != [] && q != [] && HomeOf(v, ch, p).Ok? && HomeOf(v, ch, q) == HomeOf(v, ch, p)
    ensures SameFile(v, ch, p, q) <==> SameLetters(Last(p), Last(q))
  {
    hide WellFormed, Upper, SameLetters, HomeOf;
    UpperIff(Last(p), Last(q));
  }

  /** What was written under a path, cut to the 32-bit size field, is read back under every spelling of it. */
  lemma ReadInAnyCase(v: Vol, ch: Chains, path: Path, bytes: seq<nat>, q: Path)
    requires MayWrite(v, ch, path) && SamePath(path, q)
    requires WriteFile(v, ch, path, bytes).0.Ok?
    ensures var (r, v', ch') := WriteFile(v, ch, path, bytes);
      WellFormed(v', ch') && ReadFile(v', ch', q) == Ok(bytes[..|bytes| % 0x1_0000_0000])
  {
    hide WellFormed, ReadFile, WriteAt, ChainsAfter, Writable, SamePath;
    WriteFileOk(v, ch, path, bytes, q);
    CaseBlind(v, ch, path, q);
  }

  // ----- Errors -----

  /** What a search for one entry of a directory comes to when the path ends there. */
  ghost predicate ReadsEntry(fs: Files, d: nat, name: seq<nat>, r: Result<seq<nat>>)
    requires FilesOk(fs)
  {
    DirTable(fs, d);
    match Find(Slots(fs, d), name)
    case None => r == Err(NotFound)
    case Some(i) =>
      if IsDir(Slots(fs, d)[i]) then r == Err(IsADirectory)
      else (d, i) in fs.contents && r == Ok(fs.contents[(d, i)])
  }

  /** Reading is finding the directory and then the entry; the error is that of the step that failed. */
  lemma {:induction false} ReadIs(fs: Files, d: nat, path: Path)
    requires FilesOk(fs) && path != []
    ensures match DirectoryFrom(fs, d, Parent(path))
      case Err(e) => ReadFrom(fs, d, path) == Err(e)
      case Ok(c) => ReadsEntry(fs, c, Last(path), ReadFrom(fs, d, path))
    decreases path
  {
    hide FilesOk, Find, IsDir, ClusterOf;
    DirTable(fs, d);
    if |path| > 1 {
      assert Parent(path)[0] == path[0] && Parent(path)[1..] == Parent(path[1..]);
      var r := Find(Slots(fs, d), path[0]);
      if r.Some? && IsDir(Slots(fs, d)[r.value]) { ReadIs(fs, ClusterOf(Slots(fs, d)[r.value]), path[1..]); }
    } else {
      var r := Find(Slots(fs, d), path[0]);
      if r.Some? { FindVisible(Slots(fs, d), path[0]); }
    }
  }

  /** A directory that is not reached: the first component that is missing, or is no directory, decides the error. */
  lemma {:induction false} FirstFailure(fs: Files, d: nat, path: Path) returns (i: nat)
    requires FilesOk(fs)
    ensures DirectoryFrom(fs, d, path).Err? ==>
      && i < |path| && DirectoryFrom(fs, d, path[..i]).Ok?
      && var c := DirectoryFrom(fs, d, path[..i]).value;
         && Table(Slots(fs, c))
         && match Find(Slots(fs, c), path[i])
            case None => DirectoryFrom(fs, d, path) == Err(DirectoryMissing)
            case Some(j) => !IsDir(Slots(fs, c)[j]) && DirectoryFrom(fs, d, path) == Err(NotADirectory)
    decreases path
  {
    hide FilesOk, Find, IsDir, ClusterOf;
    DirTable(fs, d);
    i := 0;
    if path != [] {
      var r := Find(Slots(fs, d), path[0]);
      if r.Some? && IsDir(Slots(fs, d)[r.value]) {
        var k := FirstFailure(fs, ClusterOf(Slots(fs, d)[r.value]), path[1..]);
        i := k + 1;
        if k < |path[1..]| { assert path[..i][0] == path[0] && path[..i][1..] == path[1..][..k]; }
      }
    }
  }

  /** What reading a path comes to on a volume. */
  lemma ReadFileIs(v: Vol, ch: Chains, path: Path)
    requires WellFormed(v, ch) && path != []
    ensures match HomeOf(v, ch, path)
      case Err(e) => ReadFile(v, ch, path) == Err(e) && (e == DirectoryMissing || e == NotADirectory)
      case Ok(d) =>
        match Find(SlotsAt(v, ch, d), Last(path))
        case None => ReadFile(v, ch, path) == Err(NotFound)
        case Some(i) =>
          if IsDir(SlotsAt(v, ch, d)[i]) then ReadFile(v, ch, path) == Err(IsADirectory) else ReadFile(v, ch, path).Ok?
  {
    hide WellFormed, FilesOk, Find, IsDir, ClusterOf, SlotsAt, BytesAt, DirectoryFrom, ReadFrom;
    MeaningOk(v, ch);
    var fs := Meaning(v, ch);
    ReadIs(fs, v.root, path);
    match HomeOf(v, ch, path)
    case Err(e) => var i := FirstFailure(fs, v.root, Parent(path));
    case Ok(d) => SlotsMean(v, ch, d);
  }

  /** A delete succeeds exactly when the path can be read; otherwise it gives the error that reading gives, and changes
      nothing. */
  lemma DeleteIff(v: Vol, ch: Chains, path: Path)
    requires MayDelete(v, ch, path) && path != []
    ensures match ReadFile(v, ch, path)
      case Ok(_) => DeleteFile(v, ch, path).0.Ok?
      case Err(e) => DeleteFile(v, ch, path) == (Err(e), v, ch)
  {
    hide WellFormed, Find, IsDir, SlotsAt, ReadFile, HomeOf, Replace, Deleted;
    ReadFileIs(v, ch, path);
  }

  /** Creating a directory fails for an existing name, and for a bad parent with the error that reading gives; both
      change nothing. A new name fails only for want of a cluster, or of a directory behind the parent's cluster. */
  lemma CreateDirFails(v: Vol, ch: Chains, path: Path)
    requires MayMkdir(v, ch, path) && path != []
    ensures match ReadFile(v, ch, path)
      case Ok(_) => CreateDir(v, ch, path) == (Err(AlreadyExists), v, ch)
      case Err(e) =>
        if e == IsADirectory then CreateDir(v, ch, path) == (Err(AlreadyExists), v, ch)
        else if e != NotFound then CreateDir(v, ch, path) == (Err(e), v, ch)
        else CreateDir(v, ch, path).0 in {Err(Full), Err(NoSlot)} || CreateDir(v, ch, path).0.Ok?
  {
    hide WellFormed, Find, IsDir, SlotsAt, ReadFile, HomeOf, EightThree, MkdirChains, NewDir, Allocate, PatchSlot,
      FreeSlot, SubdirEntry, Splice;
    ReadFileIs(v, ch, path);
  }
}
