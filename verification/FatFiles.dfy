/** Well-formed FAT32 volumes: which chain belongs to which directory or file. */
module FatFiles {
  import opened FatEntries
  import opened FatDirs
  import opened FatChains
  import opened FatVolume

  /** A chain belongs to a directory, known by its first cluster, or to the file entered in a slot of one. */
  datatype Owner = OfDir(head: nat) | OfFile(key: (nat, nat))

  datatype Chains = Chains(dirs: map<nat, seq<nat>>, files: map<(nat, nat), seq<nat>>)

  function ChainOf(ch: Chains, o: Owner): seq<nat> {
    match o
    case OfDir(d) => if d in ch.dirs then ch.dirs[d] else []
    case OfFile(k) => if k in ch.files then ch.files[k] else []
  }

  function SlotsAt(v: Vol, ch: Chains, d: nat): (r: seq<Raw>)
    ensures Table(r)
  {
    if d in ch.dirs && InBounds(v.data, ch.dirs[d]) then SlotsOf(v.data, ch.dirs[d]) else []
  }

  function BytesAt(v: Vol, ch: Chains, k: (nat, nat)): seq<nat> {
    var s := SlotsAt(v, ch, k.0);
    if k in ch.files && InBounds(v.data, ch.files[k]) && k.1 < |s| then Content(v.data, ch.files[k], SizeOf(s[k.1]))
      else []
  }

  /** What a volume holds: its directories and the bytes of its files. */
  function Meaning(v: Vol, ch: Chains): Files {
    Files(v.root, map d | d in ch.dirs :: SlotsAt(v, ch, d), map k | k in ch.files :: BytesAt(v, ch, k))
  }

  /** Chains do not meet, neither with each other nor with themselves. */
  ghost predicate Apart(ch: Chains) {
    forall o1: Owner, i1: nat, o2: Owner, i2: nat | Meet(ch, o1, i1, o2, i2) :: o1 == o2 && i1 == i2
  }

  ghost predicate Meet(ch: Chains, o1: Owner, i1: nat, o2: Owner, i2: nat) {
    i1 < |ChainOf(ch, o1)| && i2 < |ChainOf(ch, o2)| && ChainOf(ch, o1)[i1] == ChainOf(ch, o2)[i2]
  }

  /** A file in use has a chain, and a directory entry leads to a known directory or nowhere. */
  ghost predicate SlotWell(v: Vol, ch: Chains, d: nat, i: nat)
    requires i < |SlotsAt(v, ch, d)|
  {
    var e := SlotsAt(v, ch, d)[i];
    && (Visible(e) && !IsDir(e) <==> (d, i) in ch.files)
    && (Visible(e) && IsDir(e) && Chained(ClusterOf(e)) ==> ClusterOf(e) in ch.dirs)
  }

  ghost predicate DirWell(v: Vol, ch: Chains, d: nat)
    requires d in ch.dirs
  {
    && Chained(d) && Linked(v.fat, d, ch.dirs[d])
    && ZeroTail(SlotsAt(v, ch, d)) && UniqueNames(SlotsAt(v, ch, d))
    && forall i | 0 <= i < |SlotsAt(v, ch, d)| :: SlotWell(v, ch, d, i)
  }

  ghost predicate FileWell(v: Vol, ch: Chains, k: (nat, nat))
    requires k in ch.files
  {
    && k.0 in ch.dirs && k.1 < |SlotsAt(v, ch, k.0)|
    && Linked(v.fat, ClusterOf(SlotsAt(v, ch, k.0)[k.1]), ch.files[k])
  }

  ghost predicate WellFormed(v: Vol, ch: Chains) {
    && Shape(v) && v.root in ch.dirs && Apart(ch)
    && (forall d | d in ch.dirs :: DirWell(v, ch, d))
    && (forall k | k in ch.files :: FileWell(v, ch, k))
  }

  lemma SlotsMean(v: Vol, ch: Chains, d: nat)
    ensures Slots(Meaning(v, ch), d) == SlotsAt(v, ch, d)
  {
  }

  /** A well-formed volume has a meaning. */
  lemma MeaningOk(v: Vol, ch: Chains)
    requires WellFormed(v, ch)
    ensures FilesOk(Meaning(v, ch))
  {
    hide Shape, Apart, Linked, SlotsAt, BytesAt, ZeroTail, UniqueNames, Visible, IsDir;
    var fs := Meaning(v, ch);
    forall d: nat | d in fs.dirs ensures FatDirs.DirOk(fs, d) {
      assert DirWell(v, ch, d);
      assert Slots(fs, d) == SlotsAt(v, ch, d);
      forall i | 0 <= i < |SlotsAt(v, ch, d)| && Visible(SlotsAt(v, ch, d)[i]) && !IsDir(SlotsAt(v, ch, d)[i])
        ensures (d, i) in fs.contents
      {
        assert SlotWell(v, ch, d, i);
      }
    }
  }

  /** A cluster in a chain is in the table and not free. */
  lemma Taken(v: Vol, ch: Chains, o: Owner, i: nat)
    requires WellFormed(v, ch) && i < |ChainOf(ch, o)|
    ensures 2 <= ChainOf(ch, o)[i] < |v.fat| == |v.data| && v.fat[ChainOf(ch, o)[i]] != 0
  {
    hide Closed, Apart, SlotsAt, ZeroTail, UniqueNames;
    match o
    case OfDir(d) =>
      assert DirWell(v, ch, d) && Link(v.fat, ch.dirs[d], i);
      if i + 1 < |ch.dirs[d]| { assert Link(v.fat, ch.dirs[d], i + 1); }
    case OfFile(k) =>
      assert FileWell(v, ch, k) && Link(v.fat, ch.files[k], i);
      if i + 1 < |ch.files[k]| { assert Link(v.fat, ch.files[k], i + 1); }
  }

  lemma ChainInBounds(v: Vol, ch: Chains, o: Owner)
    requires WellFormed(v, ch)
    ensures InBounds(v.data, ChainOf(ch, o)) && Distinct(ChainOf(ch, o))
  {
    hide WellFormed;
    forall i | 0 <= i < |ChainOf(ch, o)| ensures ChainOf(ch, o)[i] < |v.data| { Taken(v, ch, o, i); }
    forall i, j | 0 <= i < j < |ChainOf(ch, o)|
      ensures ChainOf(ch, o)[i] != ChainOf(ch, o)[j] { ApartUse(v, ch, o, i, o, j); }
  }

  lemma ApartUse(v: Vol, ch: Chains, o1: Owner, i1: nat, o2: Owner, i2: nat)
    requires WellFormed(v, ch) && i1 < |ChainOf(ch, o1)| && i2 < |ChainOf(ch, o2)| && (o1 != o2 || i1 != i2)
    ensures ChainOf(ch, o1)[i1] != ChainOf(ch, o2)[i2]
  {
    assert !Meet(ch, o1, i1, o2, i2);
  }

  /** Table and data agree along a chain. */
  ghost predicate SameAlong(v: Vol, v': Vol, s: seq<nat>) {
    |v.fat| == |v.data| && forall i | 0 <= i < |s| :: s[i] < |v.fat| && SameAt(v, v', s[i])
  }

  ghost predicate Agrees(v: Vol, v': Vol, ch: Chains) {
    SameForm(v, v') && Shape(v') && forall o: Owner :: SameAlong(v, v', ChainOf(ch, o))
  }

  lemma LinkedSame(v: Vol, v': Vol, head: nat, s: seq<nat>)
    requires Linked(v.fat, head, s) && SameAlong(v, v', s) && SameForm(v, v')
    ensures Linked(v'.fat, head, s)
  {
    forall i | 0 <= i < |s| ensures Link(v'.fat, s, i) { assert Link(v.fat, s, i) && SameAt(v, v', s[i]); }
  }

  lemma SlotsSame(v: Vol, v': Vol, ch: Chains, ch': Chains, d: nat)
    requires d in ch.dirs && d in ch'.dirs && ch'.dirs[d] == ch.dirs[d] && SameAlong(v, v', ch.dirs[d])
    requires SameForm(v, v')
    ensures SlotsAt(v', ch', d) == SlotsAt(v, ch, d)
  {
    var s := ch.dirs[d];
    assert forall i | 0 <= i < |s| :: SameAt(v, v', s[i]);
    SlotsFrame(v.data, v'.data, s);
  }

  lemma BytesSame(v: Vol, v': Vol, s: seq<nat>, size: nat)
    requires SameAlong(v, v', s) && SameForm(v, v')
    ensures InBounds(v.data, s) && InBounds(v'.data, s) && Content(v'.data, s, size) == Content(v.data, s, size)
  {
    assert forall i | 0 <= i < |s| :: SameAt(v, v', s[i]);
    SlotsFrame(v.data, v'.data, s);
  }

  /** Changing only clusters that belong to no chain changes nothing a caller can see. */
  lemma Frame(v: Vol, v': Vol, ch: Chains)
    requires WellFormed(v, ch) && Agrees(v, v', ch)
    ensures WellFormed(v', ch) && Meaning(v', ch) == Meaning(v, ch)
  {
    hide Shape, Apart, SlotsAt, ZeroTail, UniqueNames, SameForm, SameAlong, Linked, Visible, IsDir, ClusterOf, Content;
    forall d | d in ch.dirs ensures DirWell(v', ch, d) && SlotsAt(v', ch, d) == SlotsAt(v, ch, d) {
      assert DirWell(v, ch, d) && SameAlong(v, v', ChainOf(ch, OfDir(d)));
      SlotsSame(v, v', ch, ch, d);
      LinkedSame(v, v', d, ch.dirs[d]);
      forall i | 0 <= i < |SlotsAt(v', ch, d)| ensures SlotWell(v', ch, d, i) { assert SlotWell(v, ch, d, i); }
    }
    forall k | k in ch.files ensures FileWell(v', ch, k) && BytesAt(v', ch, k) == BytesAt(v, ch, k) {
      assert FileWell(v, ch, k) && SameAlong(v, v', ChainOf(ch, OfFile(k))) && k.0 in ch.dirs;
      LinkedSame(v, v', ClusterOf(SlotsAt(v, ch, k.0)[k.1]), ch.files[k]);
      BytesSame(v, v', ch.files[k], SizeOf(SlotsAt(v, ch, k.0)[k.1]));
    }
    FormSame(v, v');
    assert Meaning(v', ch).dirs == Meaning(v, ch).dirs && Meaning(v', ch).contents == Meaning(v, ch).contents;
  }

  lemma FormSame(v: Vol, v': Vol)
    requires SameForm(v, v')
    ensures v'.root == v.root
  {
  }

  // ----- One slot changed -----

  ghost predicate LinkedFrom(v: Vol, head: nat, s: seq<nat>) {
    Linked(v.fat, head, s) && InBounds(v.data, s)
  }

  /** Other directories and files are where they were. */
  ghost predicate OthersSame(v: Vol, v': Vol, ch: Chains, ch': Chains, dir: nat, t: nat) {
    && (forall d | d in ch.dirs && d != dir ::
          d in ch'.dirs && ch'.dirs[d] == ch.dirs[d] && SameAlong(v, v', ch.dirs[d]))
    && (forall k | k in ch.files && k != (dir, t) ::
          k in ch'.files && ch'.files[k] == ch.files[k] && SameAlong(v, v', ch.files[k]))
    && (forall k | k in ch'.files && k != (dir, t) :: k in ch.files)
  }

  /** The entry `e` and what it leads to. */
  ghost predicate EntryWell(v: Vol, ch: Chains, k: (nat, nat), e: Raw) {
    && |e| == 32
    && (Visible(e) && !IsDir(e) <==> k in ch.files) && (k in ch.files ==> LinkedFrom(v, ClusterOf(e), ch.files[k]))
    && (Visible(e) && IsDir(e) && Chained(ClusterOf(e)) ==> ClusterOf(e) in ch.dirs)
  }

  /** Slot `t` of `dir` now holds `e`; the directory may have grown, and there may be new directories. */
  ghost predicate Changed(v: Vol, v': Vol, ch: Chains, ch': Chains, dir: nat, t: nat, e: Raw) {
    && dir in ch.dirs && dir in ch'.dirs && SameForm(v, v') && Shape(v') && Apart(ch')
    && OthersSame(v, v', ch, ch', dir, t) && LinkedFrom(v', dir, ch'.dirs[dir]) && EntryWell(v', ch', (dir, t), e)
    && (forall d | d in ch'.dirs && d !in ch.dirs :: DirWell(v', ch', d))
    && Entered(SlotsAt(v, ch, dir), SlotsAt(v', ch', dir), t, e)
    && ZeroTail(SlotsAt(v', ch', dir)) && UniqueNames(SlotsAt(v', ch', dir))
  }

  lemma ChangedDir(v: Vol, v': Vol, ch: Chains, ch': Chains, dir: nat, t: nat, e: Raw)
    requires WellFormed(v, ch) && Changed(v, v', ch, ch', dir, t, e)
    ensures DirWell(v', ch', dir)
  {
    hide Shape, Apart, SlotsAt, ZeroTail, UniqueNames, SameForm, SameAlong, Linked, IsDir, ClusterOf;
    assert DirWell(v, ch, dir);
    var s, s' := SlotsAt(v, ch, dir), SlotsAt(v', ch', dir);
    forall i | 0 <= i < |s'| ensures SlotWell(v', ch', dir, i) {
      if i != t && i < |s| { assert SlotWell(v, ch, dir, i); }
      if i >= |s| && i != t { BeyondFree(v, ch, dir, i); }
    }
  }

  lemma BeyondFree(v: Vol, ch: Chains, d: nat, i: nat)
    requires WellFormed(v, ch) && i >= |SlotsAt(v, ch, d)|
    ensures (d, i) !in ch.files
  {
  }

  lemma ChangedOther(v: Vol, v': Vol, ch: Chains, ch': Chains, dir: nat, t: nat, e: Raw, d: nat)
    requires WellFormed(v, ch) && Changed(v, v', ch, ch', dir, t, e) && d in ch.dirs && d != dir
    ensures d in ch'.dirs && DirWell(v', ch', d) && SlotsAt(v', ch', d) == SlotsAt(v, ch, d)
  {
    hide Shape, Apart, SlotsAt, ZeroTail, UniqueNames, SameForm, SameAlong, Linked, IsDir, ClusterOf, Entered, Visible,
      EntryWell;
    assert DirWell(v, ch, d);
    SlotsSame(v, v', ch, ch', d);
    LinkedSame(v, v', d, ch.dirs[d]);
    forall i | 0 <= i < |SlotsAt(v', ch', d)| ensures SlotWell(v', ch', d, i) { assert SlotWell(v, ch, d, i); }
  }

  lemma ChangedFile(v: Vol, v': Vol, ch: Chains, ch': Chains, dir: nat, t: nat, e: Raw, k: (nat, nat))
    requires WellFormed(v, ch) && Changed(v, v', ch, ch', dir, t, e) && k in ch'.files
    ensures FileWell(v', ch', k)
    ensures k != (dir, t) ==> k in ch.files && BytesAt(v', ch', k) == BytesAt(v, ch, k)
    ensures k == (dir, t) ==> BytesAt(v', ch', k) == Content(v'.data, ch'.files[k], SizeOf(e))
  {
    hide Shape, Apart, SlotsAt, ZeroTail, UniqueNames, SameForm, SameAlong, Linked, IsDir, ClusterOf, Visible, Content,
      DirWell;
    if k != (dir, t) {
      assert FileWell(v, ch, k) && SameAlong(v, v', ch.files[k]);
      var s := SlotsAt(v, ch, k.0);
      if k.0 != dir { ChangedOther(v, v', ch, ch', dir, t, e, k.0); }
      assert SlotsAt(v', ch', k.0)[k.1] == s[k.1];
      LinkedSame(v, v', ClusterOf(s[k.1]), ch.files[k]);
      BytesSame(v, v', ch.files[k], SizeOf(s[k.1]));
    }
  }

  /** Such a change keeps the volume well formed and has the matching effect on its meaning. */
  lemma ChangedOk(v: Vol, v': Vol, ch: Chains, ch': Chains, dir: nat, t: nat, e: Raw)
    requires WellFormed(v, ch) && Changed(v, v', ch, ch', dir, t, e)
    ensures WellFormed(v', ch')
    ensures forall d | d in ch.dirs && d != dir :: d in ch'.dirs && SlotsAt(v', ch', d) == SlotsAt(v, ch, d)
    ensures forall k | k in ch.files && k != (dir, t) :: k in ch'.files && BytesAt(v', ch', k) == BytesAt(v, ch, k)
    ensures (dir, t) in ch'.files ==>
      && InBounds(v'.data, ch'.files[(dir, t)])
      && BytesAt(v', ch', (dir, t)) == Content(v'.data, ch'.files[(dir, t)], SizeOf(e))
  {
    hide Shape, Apart, SlotsAt, BytesAt, SameAlong, Linked, IsDir, ClusterOf, Visible, Content, Entered, DirWell,
      FileWell, SizeOf;
    ChangedDir(v, v', ch, ch', dir, t, e);
    forall d | d in ch'.dirs
      ensures DirWell(v', ch', d) && (d in ch.dirs && d != dir ==> SlotsAt(v', ch', d) == SlotsAt(v, ch, d)) {
      if d in ch.dirs && d != dir { ChangedOther(v, v', ch, ch', dir, t, e, d); }
    }
    forall k | k in ch'.files
      ensures FileWell(v', ch', k)
      ensures if k == (dir, t) then BytesAt(v', ch', k) == Content(v'.data, ch'.files[k], SizeOf(e))
        else k in ch.files && BytesAt(v', ch', k) == BytesAt(v, ch, k)
    {
      ChangedFile(v, v', ch, ch', dir, t, e, k);
    }
    RootStays(v, v', ch, ch', dir, t);
  }

  lemma RootStays(v: Vol, v': Vol, ch: Chains, ch': Chains, dir: nat, t: nat)
    requires v.root in ch.dirs && SameForm(v, v') && dir in ch'.dirs && OthersSame(v, v', ch, ch', dir, t)
    ensures v'.root == v.root && v'.root in ch'.dirs
  {
  }

  lemma ChangedKeys(v: Vol, v': Vol, ch: Chains, ch': Chains, dir: nat, t: nat, e: Raw)
    requires Changed(v, v', ch, ch', dir, t, e)
    ensures |e| == 32 && dir in ch.dirs && dir in ch'.dirs && v'.root == v.root
    ensures forall k | k in ch'.files && k != (dir, t) :: k in ch.files
    ensures Unused(e) ==> (dir, t) !in ch'.files
  {
  }

  // ----- A file entered, replaced or removed -----

  /** No directory is new; the file in slot `t` of `dir` has the chain `l` and the entry `e`. */
  ghost predicate Updated(v: Vol, v': Vol, ch: Chains, ch': Chains, dir: nat, t: nat, l: seq<nat>, e: Raw) {
    && Changed(v, v', ch, ch', dir, t, e) && Visible(e) && !IsDir(e)
    && ch'.dirs.Keys == ch.dirs.Keys && (dir, t) in ch'.files && ch'.files[(dir, t)] == l
  }

  lemma UpdatedOk(v: Vol, v': Vol, ch: Chains, ch': Chains, dir: nat, t: nat, l: seq<nat>, e: Raw)
    requires WellFormed(v, ch) && Updated(v, v', ch, ch', dir, t, l, e)
    ensures WellFormed(v', ch')
    ensures InBounds(v'.data, l)
    ensures Meaning(v', ch') == EnteredIn(Meaning(v, ch), dir, SlotsAt(v', ch', dir), t, Content(v'.data, l, SizeOf(e)))
  {
    hide Shape, Apart, SlotsAt, BytesAt, SameAlong, Linked, IsDir, ClusterOf, Visible, Content, Changed, WellFormed,
      SizeOf;
    ChangedKeys(v, v', ch, ch', dir, t, e);
    ChangedOk(v, v', ch, ch', dir, t, e);
    var fs, fs' := Meaning(v, ch), Meaning(v', ch');
    assert fs'.dirs == fs.dirs[dir := SlotsAt(v', ch', dir)];
    assert fs'.contents == fs.contents[(dir, t) := Content(v'.data, l, SizeOf(e))];
  }

  ghost predicate Cleared(v: Vol, v': Vol, ch: Chains, ch': Chains, dir: nat, t: nat, e: Raw) {
    Changed(v, v', ch, ch', dir, t, e) && ch'.dirs.Keys == ch.dirs.Keys && Unused(e)
  }

  lemma ClearedOk(v: Vol, v': Vol, ch: Chains, ch': Chains, dir: nat, t: nat, e: Raw)
    requires WellFormed(v, ch) && Cleared(v, v', ch, ch', dir, t, e)
    ensures WellFormed(v', ch')
    ensures Meaning(v', ch') == Meaning(v, ch).(dirs := Meaning(v, ch).dirs[dir := SlotsAt(v', ch', dir)],
      contents := Meaning(v, ch).contents - {(dir, t)})
  {
    hide Shape, Apart, SlotsAt, BytesAt, SameAlong, Linked, IsDir, ClusterOf, Content, Changed, WellFormed;
    ChangedKeys(v, v', ch, ch', dir, t, e);
    ChangedOk(v, v', ch, ch', dir, t, e);
    var fs, fs' := Meaning(v, ch), Meaning(v', ch');
    assert fs'.dirs == fs.dirs[dir := SlotsAt(v', ch', dir)];
    assert fs'.contents == fs.contents - {(dir, t)};
  }
}
