/** Creating directories on a FAT32 volume. */
module FatMakeDir {
  import opened Wrappers
  import opened FatEntries
  import opened FatDirs
  import opened FatChains
  import opened FatVolume
  import opened FatFiles
  import opened FatWrites
  import FatTheorems

  function DotName(): (r: seq<nat>)
    ensures |r| == 11
  {
    Padded([DOT], 8) + Padded([], 3)
  }

  function DotDotName(): (r: seq<nat>)
    ensures |r| == 11
  {
    Padded([DOT, DOT], 8) + Padded([], 3)
  }

  function DotEntry(c: nat): (e: Raw)
    ensures |e| == 32
  {
    NewEntry(DotName(), DIRECTORY, c, 0)
  }

  function DotDotEntry(up: nat): (e: Raw)
    ensures |e| == 32
  {
    NewEntry(DotDotName(), DIRECTORY, up, 0)
  }

  /** The entry of a directory other than the root leads up to it, the one of the root to 0. */
  function UpOf(v: Vol, dir: nat): nat {
    if dir == v.root then 0 else dir
  }

  /** `allocate_cluster` and the sector with the two dot entries. */
  function NewDir(v: Vol, dir: nat): (Option<nat>, Vol)
    requires Shape(v)
  {
    match Allocate(v, None)
    case (None, _) => (None, v)
    case (Some(c), v1) =>
      AllocateSize(v, None);
      (Some(c), v1.(data := v1.data[c := Splice(v1.data[c], 0, DotEntry(c) + DotDotEntry(UpOf(v, dir)))]))
  }

  lemma DotFace(name: seq<nat>, plain: seq<nat>, c: nat)
    requires name == Padded(plain, 8) + Padded([], 3) && (plain == [DOT] || plain == [DOT, DOT]) && c < 0x1_0000_0000
    ensures var e := NewEntry(name, DIRECTORY, c, 0);
      Visible(e) && IsDir(e) && ClusterOf(e) == c && FullName(e) == plain && e[0] == DOT
  {
    hide NewEntry, ClusterOf, SizeOf, TrimEnd, Padded;
    var e := NewEntry(name, DIRECTORY, c, 0);
    NewEntryFace(name, DIRECTORY, c, 0);
    TrimPadded(plain, 8);
    TrimPadded([], 3);
    assert e[..8] == e[..11][..8] == Padded(plain, 8);
    assert e[8..11] == e[..11][8..11] == Padded([], 3);
    PaddedFirst(plain);
    assert e[0] == e[..11][0];
  }

  lemma PaddedFirst(s: seq<nat>)
    requires 0 < |s| <= 8
    ensures Padded(s, 8)[0] == s[0]
  {
  }

  /** The slots of a new directory: two dot entries, then end marks. */
  ghost predicate DotSlots(s: seq<Raw>, c: nat, up: nat) {
    && |s| >= 2 && Table(s) && s[0] == DotEntry(c) && s[1] == DotDotEntry(up)
    && forall j | 2 <= j < |s| :: s[j] == Zeros(32)
  }

  lemma DotSector(n: nat, c: nat, up: nat)
    requires n >= 512
    ensures DotSlots(Cut(Splice(Zeros(n), 0, DotEntry(c) + DotDotEntry(up))), c, up)
  {
    hide DotEntry, DotDotEntry, Zeros;
    var a, b := DotEntry(c), DotDotEntry(up);
    var bytes := Splice(Zeros(n), 0, a + b);
    var s := Cut(bytes);
    assert |s| == n / 32 && bytes == a + b + Zeros(n)[64..];
    assert s[0] == bytes[0..32] == a;
    assert s[1] == bytes[32..64] == b;
    forall j | 2 <= j < |s| ensures s[j] == Zeros(32) {
      assert s[j] == bytes[32 * j..32 * j + 32];
      forall x | 32 * j <= x < 32 * j + 32 ensures bytes[x] == 0 { assert bytes[x] == Zeros(n)[x]; }
    }
  }

  /** A new directory is clean and its entries lead to itself and up. */
  lemma DotSlotsOk(s: seq<Raw>, c: nat, up: nat)
    requires DotSlots(s, c, up) && c < 0x1_0000_0000 && up < 0x1_0000_0000
    ensures ZeroTail(s) && UniqueNames(s)
    ensures forall i | 0 <= i < |s| && Visible(s[i]) :: IsDir(s[i]) && (ClusterOf(s[i]) == c || ClusterOf(s[i]) == up)
  {
    hide ClusterOf, FullName, DotEntry, DotDotEntry, Upper, IsDir;
    DotEntriesFace(c, up);
    forall i | 2 <= i < |s| ensures !Visible(s[i]) { assert s[i] == Zeros(32); }
    assert Upper(FullName(s[0])) != Upper(FullName(s[1])) by {
      assert |Upper(FullName(s[0]))| == 1 && |Upper(FullName(s[1]))| == 2;
    }
  }

  lemma DotEntriesFace(c: nat, up: nat)
    requires c < 0x1_0000_0000 && up < 0x1_0000_0000
    ensures var a, b := DotEntry(c), DotDotEntry(up);
      && Visible(a) && IsDir(a) && ClusterOf(a) == c && FullName(a) == [DOT] && a[0] == DOT
      && Visible(b) && IsDir(b) && ClusterOf(b) == up && FullName(b) == [DOT, DOT] && b[0] == DOT
  {
    hide ClusterOf, FullName, NewEntry, Visible, IsDir;
    DotFace(DotName(), [DOT], c);
    DotFace(DotDotName(), [DOT, DOT], up);
  }

  // ----- Where the new directory stands -----

  /** A new directory cluster: taken, ending its own chain, in no chain in use, and holding the dot entries. */
  ghost predicate Fledgling(v: Vol, ch: Chains, dir: nat, c: nat) {
    && 2 <= c < |v.fat| == |v.data| && v.fat[c] >= END && c !in ch.dirs && c < 0x1000_0000
    && DotSlots(Cut(v.data[c]), c, UpOf(v, dir))
    && forall o: Owner, i: nat | i < |ChainOf(ch, o)| :: ChainOf(ch, o)[i] != c
  }

  lemma NewHead(v: Vol, ch: Chains, c: nat)
    requires WellFormed(v, ch) && c < |v.fat| && v.fat[c] == 0
    ensures c !in ch.dirs
  {
    if c in ch.dirs {
      DirAtOk(v, ch, c);
      Taken(v, ch, OfDir(c), 0);
    }
  }

  lemma NewDirOk(v: Vol, ch: Chains, dir: nat)
    requires WellFormed(v, ch) && Shape(v)
    ensures match NewDir(v, dir)
      case (None, v') => v' == v
      case (Some(c), v') => Agrees(v, v', ch) && Fledgling(v', ch, dir, c)
  {
    hide WellFormed, Cut, DotSlots, Allocate, Closed, Zeros, DotEntry, DotDotEntry, Splice;
    AllocateOk(v, None);
    if Allocate(v, None).0.Some? {
      var c, v1 := Allocate(v, None).0.value, Allocate(v, None).1;
      assert Fresh(v, v1, [c], 0);
      AllocatedAgrees(v, ch, v1, [c]);
      NewHead(v, ch, c);
      DotSector(ClusterSize(v), c, UpOf(v, dir));
      AllocateSize(v, None);
      TableBound(v.fat);
      forall o: Owner, i: nat | i < |ChainOf(ch, o)|
        ensures ChainOf(ch, o)[i] != c { assert ChainOf(ch, o)[i] !in [c]; }
      NewDirAgrees(v, v1, NewDir(v, dir).1, ch, c);
    }
  }

  lemma NewDirAgrees(v: Vol, v1: Vol, v': Vol, ch: Chains, c: nat)
    requires Agrees(v, v1, ch) && c < |v1.data| == |v1.fat| && 2 <= c && |v'.data| == |v1.data|
    requires v' == v1.(data := v1.data[c := v'.data[c]])
    requires |v'.data[c]| == |v1.data[c]| && forall o: Owner, i: nat | i < |ChainOf(ch, o)| :: ChainOf(ch, o)[i] != c
    ensures Agrees(v, v', ch)
  {
  }

  // ----- Entering it in its parent -----

  function WithDir(ch: Chains, dir: nat, extra: seq<nat>, c: nat): Chains
    requires dir in ch.dirs
  {
    ch.(dirs := ch.dirs[dir := ch.dirs[dir] + extra][c := [c]])
  }

  lemma WithDirAt(ch: Chains, dir: nat, extra: seq<nat>, c: nat, o: Owner, i: nat)
    requires dir in ch.dirs && c != dir && i < |ChainOf(WithDir(ch, dir, extra, c), o)|
    ensures var x := ChainOf(WithDir(ch, dir, extra, c), o)[i];
      if o == OfDir(c) then i == 0 && x == c
      else if o == OfDir(dir) && i >= |ch.dirs[dir]| then i - |ch.dirs[dir]| < |extra| && x == extra[i - |ch.dirs[dir]|]
      else i < |ChainOf(ch, o)| && x == ChainOf(ch, o)[i]
  {
  }

  lemma WithDirApart(ch: Chains, dir: nat, extra: seq<nat>, c: nat)
    requires Apart(ch) && dir in ch.dirs && c != dir && |extra| <= 1 && c !in extra
    requires forall o: Owner, i: nat | i < |ChainOf(ch, o)| :: ChainOf(ch, o)[i] != c && ChainOf(ch, o)[i] !in extra
    ensures Apart(WithDir(ch, dir, extra, c))
  {
    hide ChainOf, WithDir, Apart;
    var ch' := WithDir(ch, dir, extra, c);
    forall o1: Owner, i1: nat, o2: Owner, i2: nat | Meet(ch', o1, i1, o2, i2) ensures o1 == o2 && i1 == i2 {
      WithDirAt(ch, dir, extra, c, o1, i1);
      WithDirAt(ch, dir, extra, c, o2, i2);
      if ChainOf(ch', o1)[i1] != c && ChainOf(ch', o1)[i1] !in extra { MeetBefore(ch, o1, i1, o2, i2); }
    }
    ApartFrom(ch');
  }

  /** Entering the parent's slot leaves the new cluster alone. */
  lemma FledglingStays(v: Vol, v': Vol, ch: Chains, dir: nat, extra: seq<nat>, t: nat, e: Raw, c: nat)
    requires WellFormed(v, ch) && dir in ch.dirs && InBounds(v.data, ch.dirs[dir]) && |v.fat| == |v.data|
    requires Grown(v, v', ch.dirs[dir], dir, extra, t, e) && Fledgling(v, ch, dir, c)
    ensures c !in extra && c != dir && SameAt(v, v', c)
  {
    hide WellFormed, Entered, DotSlots, Cut, SlotsOf;
    forall i | 0 <= i < |ch.dirs[dir]| ensures ch.dirs[dir][i] != c { assert ChainOf(ch, OfDir(dir))[i] != c; }
  }

  lemma NewDirWell(v: Vol, v': Vol, ch: Chains, dir: nat, extra: seq<nat>, t: nat, e: Raw, c: nat)
    requires WellFormed(v, ch) && dir in ch.dirs && InBounds(v.data, ch.dirs[dir]) && |v.fat| == |v.data|
    requires Grown(v, v', ch.dirs[dir], dir, extra, t, e) && Fledgling(v, ch, dir, c) && Chained(dir) && Shape(v)
    ensures DirWell(v', WithDir(ch, dir, extra, c), c)
    ensures DotSlots(SlotsAt(v', WithDir(ch, dir, extra, c), c), c, UpOf(v, dir))
  {
    hide WellFormed, Entered, DotSlots, Cut, ZeroTail, UniqueNames, IsDir, ClusterOf, Visible, Shape;
    FledglingStays(v, v', ch, dir, extra, t, e, c);
    var ch', s := WithDir(ch, dir, extra, c), Cut(v.data[c]);
    assert ch'.dirs[c] == [c] && [c][1..] == [];
    assert SlotsOf(v'.data, [c]) == Cut(v'.data[c]) + SlotsOf(v'.data, []);
    assert SlotsAt(v', ch', c) == s;
    ShapeBound(v);
    DotSlotsOk(s, c, UpOf(v, dir));
    assert Link(v'.fat, [c], 0);
    forall i | 0 <= i < |s| ensures SlotWell(v', ch', c, i) { NoFileIn(v, ch, c, i); }
  }

  lemma ShapeBound(v: Vol)
    requires Shape(v)
    ensures |v.fat| <= END
  {
  }

  lemma NoFileIn(v: Vol, ch: Chains, d: nat, i: nat)
    requires WellFormed(v, ch) && d !in ch.dirs
    ensures (d, i) !in ch.files
  {
  }

  function SubdirEntry(name: seq<nat>, c: nat): (e: Raw)
    ensures |e| == 32
  {
    NewEntry(ShortName(name), DIRECTORY, c, 0)
  }

  lemma SubdirEntryOk(name: seq<nat>, c: nat)
    requires EightThree(name) && c < 0x1_0000_0000
    ensures var e := SubdirEntry(name, c); Matches(e, name) && IsDir(e) && ClusterOf(e) == c
  {
    hide ClusterOf, SizeOf, FullName, Upper, ShortName, NewEntry, EightThree;
    ShortNameFits(name, DIRECTORY, c, 0);
    NewEntryFace(ShortName(name), DIRECTORY, c, 0);
    FatTheorems.UpperTwice(name);
  }

  /** Entering the new directory in its parent is one changed slot and one new directory. */
  lemma GrownChanges(v: Vol, v': Vol, ch: Chains, dir: nat, extra: seq<nat>, t: nat, name: seq<nat>, c: nat)
    requires WellFormed(v, ch) && dir in ch.dirs && InBounds(v.data, ch.dirs[dir]) && |v.fat| == |v.data|
    requires Grown(v, v', ch.dirs[dir], dir, extra, t, SubdirEntry(name, c)) && t == FreeSlot(SlotsAt(v, ch, dir), 0)
    requires Fledgling(v, ch, dir, c) && EightThree(name) && Find(SlotsAt(v, ch, dir), name) == None
    ensures Changed(v, v', ch, WithDir(ch, dir, extra, c), dir, t, SubdirEntry(name, c))
  {
    hide WellFormed, ZeroTail, UniqueNames, Shape, IsDir, ClusterOf, FullName, Upper, Find, Linked, FreeSlot, SlotsOf,
      SubdirEntry, EightThree, DotSlots, DirWell, Cut;
    DirAtOk(v, ch, dir);
    var s, ch', e := SlotsAt(v, ch, dir), WithDir(ch, dir, extra, c), SubdirEntry(name, c);
    SubdirEntryOk(name, c);
    FledglingStays(v, v', ch, dir, extra, t, e, c);
    assert SlotsAt(v', ch', dir) == SlotsOf(v'.data, ch.dirs[dir] + extra);
    SlotsTable(v', ch', dir);
    EnteredTail(s, SlotsAt(v', ch', dir), t, e);
    EnteredUnique(s, SlotsAt(v', ch', dir), t, e, name);
    GrownAlong(v, v', ch, dir, extra, t, e);
    NewDirWell(v, v', ch, dir, extra, t, e, c);
    NewDirApart(v, ch, dir, extra, c);
    FreshSlotNoFile(v, ch, dir, t);
  }

  lemma NewDirApart(v: Vol, ch: Chains, dir: nat, extra: seq<nat>, c: nat)
    requires WellFormed(v, ch) && dir in ch.dirs && c != dir && |extra| <= 1 && c !in extra
    requires forall x | x in extra :: x < |v.fat| && v.fat[x] == 0
    requires forall o: Owner, i: nat | i < |ChainOf(ch, o)| :: ChainOf(ch, o)[i] != c
    ensures Apart(WithDir(ch, dir, extra, c))
  {
    hide DirWell, FileWell, Shape, WithDir;
    forall o: Owner, i: nat | i < |ChainOf(ch, o)| ensures ChainOf(ch, o)[i] !in extra { Taken(v, ch, o, i); }
    WithDirApart(ch, dir, extra, c);
  }

  lemma FreshSlotNoFile(v: Vol, ch: Chains, dir: nat, t: nat)
    requires WellFormed(v, ch) && dir in ch.dirs && t == FreeSlot(SlotsAt(v, ch, dir), 0)
    ensures (dir, t) !in ch.files
  {
    hide Shape, Apart, ZeroTail, UniqueNames, FreeSlot, SlotsAt, Linked;
    if t < |SlotsAt(v, ch, dir)| {
      assert DirWell(v, ch, dir) && SlotWell(v, ch, dir, t);
    } else {
      BeyondFree(v, ch, dir, t);
    }
  }

  // ----- create_dir -----

  ghost function MkdirAt(v: Vol, ch: Chains, dir: nat, name: seq<nat>): (Result<nat>, Vol)
    requires WellFormed(v, ch)
  {
    ShapeOf(v, ch);
    if Find(SlotsAt(v, ch, dir), name).Some? then (Err(AlreadyExists), v)
    else
      NewDirOk(v, ch, dir);
      match NewDir(v, dir)
      case (None, v1) => (Err(Full), v1)
      case (Some(c), v1) =>
        Frame(v, v1, ch);
        var (r, v2) := InsertIn(v1, ch, dir, SubdirEntry(name, c));
        (if r.Ok? then Ok(c) else Err(r.error), v2)
  }

  ghost function MkdirChains(v: Vol, ch: Chains, dir: nat, name: seq<nat>): Chains
    requires WellFormed(v, ch)
  {
    ShapeOf(v, ch);
    NewDirOk(v, ch, dir);
    match NewDir(v, dir)
    case (None, _) => ch
    case (Some(c), v1) => Frame(v, v1, ch); if dir in ch.dirs then WithDir(ch, dir, Growth(v1, ch, dir), c) else ch
  }

  ghost predicate MadeDir(fs: Files, fs': Files, dir: nat, name: seq<nat>, c: nat)
    requires FilesOk(fs)
  {
    && fs'.root == fs.root && FilesOk(fs') && SameButNew(fs, fs', dir, name, c) && c !in fs.dirs && Chained(c)
    && DirectoryFrom(fs', dir, [name]) == Ok(c) && DotSlots(Slots(fs', c), c, if dir == fs.root then 0 else dir)
  }

  lemma EnterDirMeans(v: Vol, v': Vol, ch: Chains, dir: nat, extra: seq<nat>, name: seq<nat>, c: nat)
    requires WellFormed(v, ch) && FilesOk(Meaning(v, ch)) && dir in ch.dirs && InBounds(v.data, ch.dirs[dir])
    requires |v.fat| == |v.data|
    requires Grown(v, v', ch.dirs[dir], dir, extra, FreeSlot(SlotsAt(v, ch, dir), 0), SubdirEntry(name, c))
    requires Fledgling(v, ch, dir, c) && EightThree(name) && Find(SlotsAt(v, ch, dir), name) == None
    ensures var ch' := WithDir(ch, dir, extra, c);
      WellFormed(v', ch') && MadeDir(Meaning(v, ch), Meaning(v', ch'), dir, name, c)
  {
    hide WellFormed, Changed, Grown, Find, IsDir, ClusterOf, SlotsAt, FullName, Upper, SubdirEntry, EightThree,
      DotSlots, Fledgling, FilesOk, BytesAt, SameButNew, Matches, Entered, FreeSlot, ZeroTail, UniqueNames, Shape,
      Linked;
    var t, ch', e := FreeSlot(SlotsAt(v, ch, dir), 0), WithDir(ch, dir, extra, c), SubdirEntry(name, c);
    DirAtOk(v, ch, dir);
    GrownChanges(v, v', ch, dir, extra, t, name, c);
    ChangedOk(v, v', ch, ch', dir, t, e);
    MeaningOk(v', ch');
    NewDirWell(v, v', ch, dir, extra, t, e, c);
    var fs, fs' := Meaning(v, ch), Meaning(v', ch');
    FledglingNew(v, ch, dir, c);
    ChangedKeys(v, v', ch, ch', dir, t, e);
    FreshSlotNoFile(v, ch, dir, t);
    SubdirEntryOk(name, c);
    assert fs'.contents == fs.contents;
    SlotsMean(v, ch, dir);
    SlotsMean(v', ch', dir);
    SlotsMean(v', ch', c);
    assert fs'.dirs == fs.dirs[dir := fs'.dirs[dir]][c := Slots(fs', c)];
    ChangedEntered(v, v', ch, ch', dir, t, e);
    DirTable(fs, dir);
    EnterDirKeeps(fs, fs', dir, name, e, c);
    MadeFound(fs', SlotsAt(v, ch, dir), dir, name, t, e, c);
  }

  lemma FledglingNew(v: Vol, ch: Chains, dir: nat, c: nat)
    requires Fledgling(v, ch, dir, c) && Shape(v)
    ensures c !in ch.dirs && Chained(c)
  {
  }

  lemma ChangedEntered(v: Vol, v': Vol, ch: Chains, ch': Chains, dir: nat, t: nat, e: Raw)
    requires Changed(v, v', ch, ch', dir, t, e)
    ensures Entered(SlotsAt(v, ch, dir), SlotsAt(v', ch', dir), t, e)
  {
  }

  lemma MadeFound(fs': Files, slots: seq<Raw>, dir: nat, name: seq<nat>, t: nat, e: Raw, c: nat)
    requires FilesOk(fs') && Table(slots) && ZeroTail(slots) && Find(slots, name) == None && t == FreeSlot(slots, 0)
    requires Entered(slots, Slots(fs', dir), t, e) && |e| == 32 && Matches(e, name) && IsDir(e) && ClusterOf(e) == c
    ensures DirectoryFrom(fs', dir, [name]) == Ok(c)
  {
    hide FilesOk, Find, IsDir, ClusterOf, Matches, Upper;
    DirTable(fs', dir);
    EnteredFinds(slots, Slots(fs', dir), t, e, name, name);
    assert [name][1..] == [];
    assert DirectoryFrom(fs', c, []) == Ok(c);
  }

  /** A failed `create_dir` leaves everything readable as before; a successful one leaves a well-formed volume with a
      new empty directory under that name, and changes no other search. */
  lemma MkdirOk(v: Vol, ch: Chains, dir: nat, name: seq<nat>)
    requires WellFormed(v, ch) && FilesOk(Meaning(v, ch))
    requires (Find(SlotsAt(v, ch, dir), name) == None ==> EightThree(name))
    ensures var (r, v') := MkdirAt(v, ch, dir, name); var ch' := MkdirChains(v, ch, dir, name);
      && (r.Err? ==> WellFormed(v', ch) && Meaning(v', ch) == Meaning(v, ch))
      && (r.Ok? ==> WellFormed(v', ch') && MadeDir(Meaning(v, ch), Meaning(v', ch'), dir, name, r.value))
  {
    hide WellFormed, Grown, Find, SlotsAt, SubdirEntry, EightThree, Fledgling, FilesOk, Meaning, Agrees, Shape,
      InsertIn, NewDir, WithDir, Growth, MadeDir, FreeSlot, Linked;
    ShapeOf(v, ch);
    if Find(SlotsAt(v, ch, dir), name) == None {
      NewDirOk(v, ch, dir);
      var (n, v1) := NewDir(v, dir);
      if n.Some? {
        Frame(v, v1, ch);
        FatTheorems.SameSlots(v, v1, ch, dir);
        var e := SubdirEntry(name, n.value);
        FatTheorems.InsertFails(v1, ch, dir, e);
        if InsertIn(v1, ch, dir, e).0.Ok? {
          DirAtOk(v1, ch, dir);
          ShapeOf(v1, ch);
          FatTheorems.InsertGrows(v1, ch, dir, e);
          EnterDirMeans(v1, InsertIn(v1, ch, dir, e).1, ch, dir, Growth(v1, ch, dir), name, n.value);
        }
      }
    }
  }
}
