/** Writing and deleting files on a FAT32 volume. */
module FatWrites {
  import opened Wrappers
  import opened FatEntries
  import opened FatDirs
  import opened FatChains
  import opened FatVolume
  import opened FatFiles

  // ----- What the code does -----

  /** The number of clusters for `n` bytes, at least one. */
  function Needed(v: Vol, n: nat): (k: nat)
    requires v.spc > 0
    ensures Shortest(ClusterSize(v), k, n)
  {
    var k := (n + ClusterSize(v) - 1) / ClusterSize(v);
    RoundUp(n, ClusterSize(v));
    if k == 0 then 1 else k
  }

  /** `k` clusters hold `n` bytes and fewer do not; a file has at least one. */
  predicate Shortest(size: nat, k: nat, n: nat) {
    k >= 1 && n <= size * k && (k == 1 || size * (k - 1) < n)
  }

  lemma RoundUp(n: nat, a: nat)
    requires a > 0
    ensures var k := (n + a - 1) / a; n <= a * k && (k > 0 ==> a * (k - 1) < n)
  {
    var k, m := (n + a - 1) / a, (n + a - 1) % a;
    assert n + a - 1 == a * k + m;
    if k > 0 { assert a * k == a * (k - 1) + a; }
  }

  /** The shortest chain fits into `f` clusters exactly when there is one and the bytes fit. */
  lemma ShortestFits(size: nat, k: nat, n: nat, f: int)
    requires size > 0 && Shortest(size, k, n)
    ensures f >= k <==> f >= 1 && n <= size * f
  {
    if f >= k {
      Multiples(size, k, f);
    } else if f >= 1 {
      Multiples(size, f, k - 1);
    }
  }

  lemma {:induction false} Multiples(a: nat, i: nat, j: nat)
    requires i <= j
    ensures a * i <= a * j
  {
    if i < j {
      Multiples(a, i, j - 1);
      assert a * j == a * (j - 1) + a;
    }
  }

  /** `data.len() as u32`. */
  function Size32(bytes: seq<nat>): (r: nat)
    ensures r < 0x1_0000_0000 && r <= |bytes| && (r == |bytes| <==> |bytes| < 0x1_0000_0000)
  {
    |bytes| % 0x1_0000_0000
  }

  /** `insert_dir_entry` into a known directory, or the failure for a cluster number that is none. */
  function Insert(v: Vol, ch: Chains, dir: nat, e: Raw): (Result<()>, Vol)
    requires Shape(v) && |e| == 32
    requires (dir in ch.dirs ==> InBounds(v.data, ch.dirs[dir]) && Chained(dir) && Linked(v.fat, dir, ch.dirs[dir]))
  {
    if dir !in ch.dirs then (Err(NoSlot), v)
    else
      var chain, slots := ch.dirs[dir], SlotsAt(v, ch, dir);
      var k := FreeSlot(slots, 0);
      if k < |slots| then (Ok(()), v.(data := PatchSlot(v.data, chain, k, e)))
      else
        match Allocate(v, Some(chain[|chain| - 1]))
        case (None, _) => (Err(Full), v)
        case (Some(c), v1) =>
          AllocateSize(v, Some(chain[|chain| - 1]));
          (Ok(()), v1.(data := v1.data[c := Splice(v1.data[c], 0, e)]))
  }

  lemma AllocateSize(v: Vol, prev: Option<nat>)
    requires Shape(v) && (prev.Some? ==> prev.value < |v.fat|)
    ensures match Allocate(v, prev) case (None, _) => true case (Some(c), v1) => c < |v1.data| && |v1.data[c]| >= 512
  {
  }

  /** Release the chain of an entry and overwrite the entry. */
  function Replace(v: Vol, ch: Chains, dir: nat, i: nat, e: Raw): Vol
    requires Shape(v) && dir in ch.dirs && InBounds(v.data, ch.dirs[dir]) && i < |SlotsAt(v, ch, dir)| && |e| == 32
    requires InTable(v.fat, ClusterOf(SlotsAt(v, ch, dir)[i]))
  {
    v.(fat := FreeChain(v.fat, ClusterOf(SlotsAt(v, ch, dir)[i])), data := PatchSlot(v.data, ch.dirs[dir], i, e))
  }

  /** Allocate and fill a chain for the bytes. */
  function Stage(v: Vol, bytes: seq<nat>): (seq<nat>, Vol)
    requires Shape(v)
  {
    var (l, v1) := AllocateMany(v, Needed(v, |bytes|), None);
    AllocateManyOk(v, Needed(v, |bytes|), None);
    if |l| < Needed(v, |bytes|) then ([], v1)
    else
      assert Fresh(v, v1, l, 0);
      (l, Fill(v1, l[0], bytes))
  }

  /** A chain for nobody: linked, and apart from every chain in use. */
  ghost predicate Spare(v: Vol, ch: Chains, l: seq<nat>) {
    && l != [] && Chained(l[0]) && LinkedFrom(v, l[0], l) && Distinct(l)
    && forall o: Owner, i: nat | i < |ChainOf(ch, o)| :: ChainOf(ch, o)[i] !in l
  }

  lemma AllocatedAgrees(v: Vol, ch: Chains, v': Vol, l: seq<nat>)
    requires WellFormed(v, ch) && Allocated(v, v', l, None)
    ensures Agrees(v, v', ch) && forall o: Owner, i: nat | i < |ChainOf(ch, o)| :: ChainOf(ch, o)[i] !in l
  {
    hide WellFormed, Shape;
    ShapeOf(v, ch);
    forall o: Owner, i: nat | i < |ChainOf(ch, o)|
      ensures ChainOf(ch, o)[i] < |v.fat| && ChainOf(ch, o)[i] !in l && SameAt(v, v', ChainOf(ch, o)[i])
    {
      Taken(v, ch, o, i);
      var c := ChainOf(ch, o)[i];
      forall j | 0 <= j < |l| ensures l[j] != c { assert Fresh(v, v', l, j); }
    }
  }

  lemma ShapeOf(v: Vol, ch: Chains)
    requires WellFormed(v, ch)
    ensures Shape(v) && |v.fat| == |v.data|
  {
  }

  lemma FillAgrees(v: Vol, ch: Chains, l: seq<nat>, bytes: seq<nat>)
    requires WellFormed(v, ch) && Spare(v, ch, l) && |bytes| <= |Bytes(v.data, l)| && InTable(v.fat, l[0])
    ensures var v' := Fill(v, l[0], bytes);
      Agrees(v, v', ch) && Spare(v', ch, l) && InBounds(v'.data, l) && Content(v'.data, l, |bytes|) == bytes
  {
    hide Shape, Linked, Apart, DirWell, FileWell, Content, WellFormed, Fill;
    ShapeOf(v, ch);
    FillOk(v, l[0], l, bytes);
    var v' := Fill(v, l[0], bytes);
    forall o: Owner, i: nat | i < |ChainOf(ch, o)|
      ensures ChainOf(ch, o)[i] < |v.fat| && SameAt(v, v', ChainOf(ch, o)[i])
    {
      Taken(v, ch, o, i);
    }
  }

  /** Staging changes nothing a caller can see; if it does not fail, the spare chain holds the bytes. */
  lemma StageOk(v: Vol, ch: Chains, bytes: seq<nat>)
    requires WellFormed(v, ch)
    ensures var (l, v') := Stage(v, bytes);
      && WellFormed(v', ch) && Meaning(v', ch) == Meaning(v, ch)
      && (l != [] ==> Spare(v', ch, l) && InBounds(v'.data, l) && Content(v'.data, l, |bytes|) == bytes)
      && (l == [] ==> NoneFree(v'))
  {
    hide Shape, Linked, Apart, DirWell, FileWell, Content, Allocated, AllocateMany, WellFormed, Fill, Meaning, Agrees,
      NoneFree;
    ShapeOf(v, ch);
    var k := Needed(v, |bytes|);
    var (l, v1) := AllocateMany(v, k, None);
    AllocateManyOk(v, k, None);
    AllocatedAgrees(v, ch, v1, l);
    Frame(v, v1, ch);
    if |l| == k {
      StagedSpare(v, ch, v1, l);
      BytesLength(v1, l);
      FillAgrees(v1, ch, l, bytes);
      Frame(v1, Fill(v1, l[0], bytes), ch);
    }
  }

  lemma StagedSpare(v: Vol, ch: Chains, v1: Vol, l: seq<nat>)
    requires Shape(v) && Allocated(v, v1, l, None) && l != []
    requires forall o: Owner, i: nat | i < |ChainOf(ch, o)| :: ChainOf(ch, o)[i] !in l
    ensures Spare(v1, ch, l) && InTable(v1.fat, l[0]) && v1.spc == v.spc
    ensures Shape(v1) && forall i | 0 <= i < |l| :: 2 <= l[i] < |v1.fat|
  {
    AllocatedLinked(v, v1, l);
    forall i | 0 <= i < |l| ensures 2 <= l[i] < |v1.fat| { assert Fresh(v, v1, l, i); }
    TableBound(v.fat);
  }

  // ----- Chains after a write -----

  /** The chains with `l` for the file in slot `t` of `dir`, and the directory longer by `extra`. */
  function Rechain(ch: Chains, dir: nat, t: nat, l: seq<nat>, extra: seq<nat>): Chains
    requires dir in ch.dirs
  {
    Chains(ch.dirs[dir := ch.dirs[dir] + extra], ch.files[(dir, t) := l])
  }

  lemma RechainAt(ch: Chains, dir: nat, t: nat, l: seq<nat>, extra: seq<nat>, o: Owner, i: nat)
    requires dir in ch.dirs && i < |ChainOf(Rechain(ch, dir, t, l, extra), o)|
    ensures var c := ChainOf(Rechain(ch, dir, t, l, extra), o)[i];
      if o == OfFile((dir, t)) then i < |l| && c == l[i]
      else if o == OfDir(dir) && i >= |ch.dirs[dir]| then i - |ch.dirs[dir]| < |extra| && c == extra[i - |ch.dirs[dir]|]
      else i < |ChainOf(ch, o)| && c == ChainOf(ch, o)[i]
  {
  }

  lemma RechainApart(ch: Chains, dir: nat, t: nat, l: seq<nat>, extra: seq<nat>)
    requires Apart(ch) && dir in ch.dirs && Distinct(l) && |extra| <= 1
    requires forall o: Owner, i: nat | i < |ChainOf(ch, o)| :: ChainOf(ch, o)[i] !in l && ChainOf(ch, o)[i] !in extra
    requires forall x | x in extra :: x !in l
    ensures Apart(Rechain(ch, dir, t, l, extra))
  {
    hide ChainOf, Rechain, Apart;
    var ch' := Rechain(ch, dir, t, l, extra);
    forall o1: Owner, i1: nat, o2: Owner, i2: nat | Meet(ch', o1, i1, o2, i2) ensures o1 == o2 && i1 == i2 {
      RechainAt(ch, dir, t, l, extra, o1, i1);
      RechainAt(ch, dir, t, l, extra, o2, i2);
      if ChainOf(ch', o1)[i1] !in l && ChainOf(ch', o1)[i1] !in extra { MeetBefore(ch, o1, i1, o2, i2); }
    }
    ApartFrom(ch');
  }

  lemma MeetBefore(ch: Chains, o1: Owner, i1: nat, o2: Owner, i2: nat)
    requires Apart(ch) && Meet(ch, o1, i1, o2, i2)
    ensures o1 == o2 && i1 == i2
  {
  }

  lemma ApartFrom(ch: Chains)
    requires forall o1: Owner, i1: nat, o2: Owner, i2: nat | Meet(ch, o1, i1, o2, i2) :: o1 == o2 && i1 == i2
    ensures Apart(ch)
  {
  }

  // ----- Overwriting -----

  /** The entry, its chain, and the directory's chain, when a file is found. */
  ghost predicate FileAt(v: Vol, ch: Chains, dir: nat, i: nat) {
    WellFormed(v, ch) && dir in ch.dirs && i < |SlotsAt(v, ch, dir)| &&
      Visible(SlotsAt(v, ch, dir)[i]) && !IsDir(SlotsAt(v, ch, dir)[i])
  }

  lemma FileAtOk(v: Vol, ch: Chains, dir: nat, i: nat)
    requires FileAt(v, ch, dir, i)
    ensures (dir, i) in ch.files && Linked(v.fat, ClusterOf(SlotsAt(v, ch, dir)[i]), ch.files[(dir, i)])
    ensures InTable(v.fat, ClusterOf(SlotsAt(v, ch, dir)[i]))
    ensures Linked(v.fat, dir, ch.dirs[dir]) && InBounds(v.data, ch.dirs[dir]) && Distinct(ch.dirs[dir])
    ensures ZeroTail(SlotsAt(v, ch, dir)) && UniqueNames(SlotsAt(v, ch, dir)) && Shape(v)
  {
    hide Visible, IsDir, ClusterOf, ZeroTail, UniqueNames, Shape, Apart, SlotsAt;
    assert DirWell(v, ch, dir) && SlotWell(v, ch, dir, i);
    assert FileWell(v, ch, (dir, i));
    ChainInBounds(v, ch, OfDir(dir));
    var l := ch.files[(dir, i)];
    if l != [] { assert Link(v.fat, l, 0); }
  }

  /** A file in slot `i`, on a volume where its entry can be overwritten. */
  ghost predicate Replaceable(v: Vol, ch: Chains, dir: nat, i: nat, e: Raw) {
    && |e| == 32 && FileAt(v, ch, dir, i) && Shape(v)
    && InBounds(v.data, ch.dirs[dir]) && InTable(v.fat, ClusterOf(SlotsAt(v, ch, dir)[i]))
  }

  lemma ReplaceableOk(v: Vol, ch: Chains, dir: nat, i: nat, e: Raw)
    requires FileAt(v, ch, dir, i) && |e| == 32
    ensures Replaceable(v, ch, dir, i, e)
  {
    FileAtOk(v, ch, dir, i);
  }

  /** Replacing frees the chain of the file and touches the bytes of its directory only. */
  lemma ReplaceSame(v: Vol, ch: Chains, dir: nat, i: nat, e: Raw, x: nat)
    requires Replaceable(v, ch, dir, i, e) && x < |v.fat| == |v.data| && (dir, i) in ch.files
    ensures var v' := Replace(v, ch, dir, i, e);
      && SameForm(v, v')
      && v'.fat[x] == (if x in ch.files[(dir, i)] then 0 else v.fat[x])
      && (x !in ch.dirs[dir] ==> v'.data[x] == v.data[x])
  {
    hide WellFormed, Visible, IsDir, ClusterOf, SizeOf, Linked;
    FileAtOk(v, ch, dir, i);
    FreeLinked(v.fat, ClusterOf(SlotsAt(v, ch, dir)[i]), ch.files[(dir, i)], x);
    PatchSlotOk(v.data, ch.dirs[dir], i, e);
  }

  lemma ReplaceShape(v: Vol, ch: Chains, dir: nat, i: nat, e: Raw)
    requires Replaceable(v, ch, dir, i, e)
    ensures Shape(Replace(v, ch, dir, i, e)) && SameForm(v, Replace(v, ch, dir, i, e))
  {
  }

  lemma ReplaceAlong(v: Vol, ch: Chains, dir: nat, i: nat, e: Raw, o: Owner)
    requires Replaceable(v, ch, dir, i, e) && o != OfDir(dir) && o != OfFile((dir, i))
    ensures SameAlong(v, Replace(v, ch, dir, i, e), ChainOf(ch, o))
  {
    hide WellFormed, Visible, IsDir, ClusterOf, Replace, SlotsAt, Shape;
    FileAtOk(v, ch, dir, i);
    ShapeOf(v, ch);
    var v', s := Replace(v, ch, dir, i, e), ChainOf(ch, o);
    forall j | 0 <= j < |s| ensures s[j] < |v.fat| && SameAt(v, v', s[j]) {
      Taken(v, ch, o, j);
      ReplaceSame(v, ch, dir, i, e, s[j]);
      ApartAll(v, ch, o, j, OfDir(dir));
      ApartAll(v, ch, o, j, OfFile((dir, i)));
    }
  }

  lemma ApartAll(v: Vol, ch: Chains, o: Owner, j: nat, o2: Owner)
    requires WellFormed(v, ch) && j < |ChainOf(ch, o)| && o != o2
    ensures ChainOf(ch, o)[j] !in ChainOf(ch, o2)
  {
    hide WellFormed, ChainOf;
    forall i | 0 <= i < |ChainOf(ch, o2)|
      ensures ChainOf(ch, o2)[i] != ChainOf(ch, o)[j] { ApartUse(v, ch, o, j, o2, i); }
  }

  lemma ReplaceDirLinks(v: Vol, ch: Chains, dir: nat, i: nat, e: Raw)
    requires Replaceable(v, ch, dir, i, e)
    ensures LinkedFrom(Replace(v, ch, dir, i, e), dir, ch.dirs[dir])
  {
    hide WellFormed, Visible, IsDir, ClusterOf, Replace, SlotsAt, Shape;
    FileAtOk(v, ch, dir, i);
    ShapeOf(v, ch);
    var v', s := Replace(v, ch, dir, i, e), ch.dirs[dir];
    ReplaceShape(v, ch, dir, i, e);
    forall j | 0 <= j < |s| ensures Link(v'.fat, s, j) {
      assert Link(v.fat, s, j) && ChainOf(ch, OfDir(dir)) == s;
      ReplaceSame(v, ch, dir, i, e, s[j]);
      ApartAll(v, ch, OfDir(dir), j, OfFile((dir, i)));
    }
  }

  lemma ReplaceLinks(v: Vol, ch: Chains, dir: nat, i: nat, e: Raw, l: seq<nat>)
    requires Replaceable(v, ch, dir, i, e) && Spare(v, ch, l)
    ensures LinkedFrom(Replace(v, ch, dir, i, e), l[0], l) && SameAlong(v, Replace(v, ch, dir, i, e), l)
  {
    hide WellFormed, Visible, IsDir, ClusterOf, Replace, SlotsAt, Shape;
    FileAtOk(v, ch, dir, i);
    ShapeOf(v, ch);
    var v' := Replace(v, ch, dir, i, e);
    ReplaceShape(v, ch, dir, i, e);
    forall j | 0 <= j < |l| ensures Link(v'.fat, l, j) && SameAt(v, v', l[j]) {
      assert Link(v.fat, l, j);
      ReplaceSame(v, ch, dir, i, e, l[j]);
      NotInSpare(v, ch, l, OfDir(dir), l[j]);
      NotInSpare(v, ch, l, OfFile((dir, i)), l[j]);
    }
  }

  lemma NotInSpare(v: Vol, ch: Chains, l: seq<nat>, o: Owner, x: nat)
    requires Spare(v, ch, l) && x in l
    ensures x !in ChainOf(ch, o)
  {
  }

  lemma ReplaceSlots(v: Vol, ch: Chains, ch': Chains, dir: nat, i: nat, e: Raw)
    requires Replaceable(v, ch, dir, i, e) && ch'.dirs == ch.dirs
    ensures SlotsAt(Replace(v, ch, dir, i, e), ch', dir) == SlotsAt(v, ch, dir)[i := e]
  {
    hide WellFormed, Visible, IsDir, ClusterOf, FreeChain;
    FileAtOk(v, ch, dir, i);
    PatchSlotOk(v.data, ch.dirs[dir], i, e);
  }

  /** The chains agree except for the file in slot `i` of `dir`. */
  ghost predicate OneFile(ch: Chains, ch': Chains, k: (nat, nat)) {
    && ch'.dirs == ch.dirs
    && (forall x | x in ch.files && x != k :: x in ch'.files && ch'.files[x] == ch.files[x])
    && (forall x | x in ch'.files && x != k :: x in ch.files)
  }

  lemma ReplaceOthers(v: Vol, ch: Chains, ch': Chains, dir: nat, i: nat, e: Raw)
    requires Replaceable(v, ch, dir, i, e) && OneFile(ch, ch', (dir, i))
    ensures OthersSame(v, Replace(v, ch, dir, i, e), ch, ch', dir, i)
  {
    hide Visible, IsDir, ClusterOf, Shape, SlotsAt, WellFormed, Replace, SameAlong;
    var v' := Replace(v, ch, dir, i, e);
    forall d | d in ch.dirs && d != dir
      ensures SameAlong(v, v', ch.dirs[d]) { ReplaceAlong(v, ch, dir, i, e, OfDir(d)); }
    forall k | k in ch.files && k != (dir, i)
      ensures SameAlong(v, v', ch.files[k]) { ReplaceAlong(v, ch, dir, i, e, OfFile(k)); }
  }

  /** Replacing an entry changes one slot. */
  lemma ReplaceChanges(v: Vol, ch: Chains, ch': Chains, dir: nat, i: nat, e: Raw)
    requires Replaceable(v, ch, dir, i, e) && OneFile(ch, ch', (dir, i)) && Apart(ch')
    requires EntryWell(Replace(v, ch, dir, i, e), ch', (dir, i), e)
    requires ZeroTail(SlotsAt(v, ch, dir)[i := e]) && UniqueNames(SlotsAt(v, ch, dir)[i := e])
    ensures Changed(v, Replace(v, ch, dir, i, e), ch, ch', dir, i, e)
    ensures SlotsAt(Replace(v, ch, dir, i, e), ch', dir) == SlotsAt(v, ch, dir)[i := e]
  {
    hide Visible, IsDir, ClusterOf, Linked, ZeroTail, UniqueNames, Shape, SlotsAt, Apart, WellFormed, OthersSame,
      Replace, EntryWell;
    ReplaceSlots(v, ch, ch', dir, i, e);
    ReplaceShape(v, ch, dir, i, e);
    ReplaceDirLinks(v, ch, dir, i, e);
    ReplaceOthers(v, ch, ch', dir, i, e);
  }

  lemma ReplaceApart(v: Vol, ch: Chains, dir: nat, i: nat, l: seq<nat>)
    requires WellFormed(v, ch) && dir in ch.dirs && Spare(v, ch, l)
    ensures Apart(Rechain(ch, dir, i, l, []))
  {
    hide DirWell, FileWell, Shape, Rechain, Linked;
    RechainApart(ch, dir, i, l, []);
  }

  lemma RechainOne(ch: Chains, dir: nat, i: nat, l: seq<nat>)
    requires dir in ch.dirs
    ensures OneFile(ch, Rechain(ch, dir, i, l, []), (dir, i))
  {
    assert ch.dirs[dir] + [] == ch.dirs[dir];
  }

  lemma SpareHead(v: Vol, ch: Chains, l: seq<nat>)
    requires Spare(v, ch, l)
    ensures l != [] && Chained(l[0])
  {
  }

  /** Overwriting is an update of one slot. */
  lemma ReplaceUpdates(v: Vol, ch: Chains, dir: nat, i: nat, l: seq<nat>, size: nat)
    requires FileAt(v, ch, dir, i) && Spare(v, ch, l) && size < 0x1_0000_0000
    requires Replaceable(v, ch, dir, i, Retarget(SlotsAt(v, ch, dir)[i], l[0], size))
    ensures var e := Retarget(SlotsAt(v, ch, dir)[i], l[0], size);
      && Updated(v, Replace(v, ch, dir, i, e), ch, Rechain(ch, dir, i, l, []), dir, i, l, e)
      && SlotsAt(Replace(v, ch, dir, i, e), Rechain(ch, dir, i, l, []), dir) == SlotsAt(v, ch, dir)[i := e]
  {
    hide Visible, IsDir, ClusterOf, Linked, ZeroTail, UniqueNames, Shape, SizeOf, Retarget, SlotsAt, Apart, Spare,
      WellFormed, Changed, Replace, OneFile;
    SpareHead(v, ch, l);
    var was := SlotsAt(v, ch, dir)[i];
    var e, ch' := Retarget(was, l[0], size), Rechain(ch, dir, i, l, []);
    FileAtOk(v, ch, dir, i);
    RetargetOk(was, l[0], size);
    SameFace(was, e);
    ReplaceLinks(v, ch, dir, i, e, l);
    ReplaceApart(v, ch, dir, i, l);
    RechainOne(ch, dir, i, l);
    PatchUnique(SlotsAt(v, ch, dir), i, e);
    PatchFinds(SlotsAt(v, ch, dir), i, e, []);
    ReplaceChanges(v, ch, ch', dir, i, e);
  }

  // ----- Deleting -----

  function Forget(ch: Chains, k: (nat, nat)): Chains {
    ch.(files := ch.files - {k})
  }

  lemma ForgetApart(ch: Chains, k: (nat, nat))
    requires Apart(ch)
    ensures Apart(Forget(ch, k))
  {
    var ch' := Forget(ch, k);
    forall o1: Owner, i1: nat, o2: Owner, i2: nat | Meet(ch', o1, i1, o2, i2) ensures o1 == o2 && i1 == i2 {
      assert Meet(ch, o1, i1, o2, i2);
    }
  }

  function Deleted(e: Raw): (r: Raw)
    requires |e| == 32
    ensures |r| == 32 && r[0] == DELETED && Unused(r)
  {
    e[0 := DELETED]
  }

  /** Deleting a file frees its chain and clears its slot. */
  lemma DeleteClears(v: Vol, ch: Chains, dir: nat, i: nat)
    requires FileAt(v, ch, dir, i) && Replaceable(v, ch, dir, i, Deleted(SlotsAt(v, ch, dir)[i]))
    ensures var e := Deleted(SlotsAt(v, ch, dir)[i]);
      && Cleared(v, Replace(v, ch, dir, i, e), ch, Forget(ch, (dir, i)), dir, i, e)
      && SlotsAt(Replace(v, ch, dir, i, e), Forget(ch, (dir, i)), dir) == SlotsAt(v, ch, dir)[i := e]
  {
    hide IsDir, ClusterOf, Linked, ZeroTail, UniqueNames, Shape, SlotsAt, Apart, WellFormed, Changed, Replace;
    var e, ch' := Deleted(SlotsAt(v, ch, dir)[i]), Forget(ch, (dir, i));
    FileAtOk(v, ch, dir, i);
    DeleteFinds(SlotsAt(v, ch, dir), i, e, []);
    ApartOf(v, ch);
    ForgetApart(ch, (dir, i));
    ReplaceChanges(v, ch, ch', dir, i, e);
  }

  lemma ApartOf(v: Vol, ch: Chains)
    requires WellFormed(v, ch)
    ensures Apart(ch)
  {
  }

  // ----- Entering -----

  /** The directory, when it is known. */
  lemma DirAtOk(v: Vol, ch: Chains, dir: nat)
    requires WellFormed(v, ch) && dir in ch.dirs
    ensures Chained(dir) && Linked(v.fat, dir, ch.dirs[dir]) && InBounds(v.data, ch.dirs[dir]) && Distinct(ch.dirs[dir])
    ensures ZeroTail(SlotsAt(v, ch, dir)) && UniqueNames(SlotsAt(v, ch, dir)) && Shape(v)
    ensures ch.dirs[dir] != [] && SlotsAt(v, ch, dir) == SlotsOf(v.data, ch.dirs[dir])
  {
    hide ZeroTail, UniqueNames, Shape, Apart;
    assert DirWell(v, ch, dir);
    ChainInBounds(v, ch, OfDir(dir));
  }

  function InsertIn(v: Vol, ch: Chains, dir: nat, e: Raw): (Result<()>, Vol)
    requires WellFormed(v, ch) && |e| == 32
  {
    ShapeOf(v, ch);
    if dir in ch.dirs then DirAtOk(v, ch, dir); Insert(v, ch, dir, e) else Insert(v, ch, dir, e)
  }

  /** The cluster a full directory grows by. */
  function Growth(v: Vol, ch: Chains, dir: nat): seq<nat>
    requires WellFormed(v, ch) && dir in ch.dirs
  {
    DirAtOk(v, ch, dir);
    var slots, chain := SlotsAt(v, ch, dir), ch.dirs[dir];
    assert chain[|chain| - 1] < |v.data|;
    if FreeSlot(slots, 0) < |slots| then []
    else
      match Allocate(v, Some(chain[|chain| - 1]))
      case (None, _) => []
      case (Some(c), _) => [c]
  }

  /** What entering an entry changes: the clusters of the directory and the one it grows by. */
  ghost predicate Grown(v: Vol, v': Vol, chain: seq<nat>, dir: nat, extra: seq<nat>, t: nat, e: Raw)
    requires InBounds(v.data, chain) && |v.fat| == |v.data|
  {
    && SameForm(v, v') && Shape(v') && |extra| <= 1 && (forall x | x in extra :: 2 <= x < |v.fat| && v.fat[x] == 0)
    && (forall x | 0 <= x < |v.fat| && x !in chain && x !in extra :: SameAt(v, v', x))
    && LinkedFrom(v', dir, chain + extra)
    && Entered(SlotsOf(v.data, chain), SlotsOf(v'.data, chain + extra), t, e)
  }

  /** Entering into a free slot. */
  lemma InsertFree(v: Vol, ch: Chains, dir: nat, e: Raw)
    requires WellFormed(v, ch) && dir in ch.dirs && |e| == 32 && InBounds(v.data, ch.dirs[dir]) && |v.fat| == |v.data|
    requires FreeSlot(SlotsAt(v, ch, dir), 0) < |SlotsAt(v, ch, dir)|
    ensures InsertIn(v, ch, dir, e).0.Ok?
    ensures Grown(v, InsertIn(v, ch, dir, e).1, ch.dirs[dir], dir, [], FreeSlot(SlotsAt(v, ch, dir), 0), e)
  {
    hide WellFormed, Linked, ZeroTail, UniqueNames;
    DirAtOk(v, ch, dir);
    PatchSlotOk(v.data, ch.dirs[dir], FreeSlot(SlotsAt(v, ch, dir), 0), e);
    assert ch.dirs[dir] + [] == ch.dirs[dir];
  }

  lemma NewClusterSlots(n: nat, e: Raw)
    requires n >= 512 && |e| == 32
    ensures var s := Cut(Splice(Zeros(n), 0, e));
      |s| == n / 32 && s[0] == e && forall j | 0 < j < |s| :: s[j] == Zeros(32)
  {
    hide Zeros;
    var bytes := Splice(Zeros(n), 0, e);
    var s := Cut(bytes);
    assert bytes == e + Zeros(n)[32..];
    assert s[0] == bytes[0..32] == e;
    forall j | 0 < j < |s| ensures s[j] == Zeros(32) {
      assert s[j] == bytes[32 * j..32 * j + 32];
      forall x | 32 * j <= x < 32 * j + 32 ensures bytes[x] == 0 { assert bytes[x] == Zeros(n)[x]; }
    }
  }

  lemma LinkedGrows(v: Vol, v1: Vol, dir: nat, chain: seq<nat>, c: nat)
    requires |v.fat| == |v.data| && Linked(v.fat, dir, chain) && chain != [] && Distinct(chain)
    requires InBounds(v.data, chain)
    requires Allocated(v, v1, [c], Some(chain[|chain| - 1]))
    ensures Linked(v1.fat, dir, chain + [c])
  {
    hide Shape, Closed;
    var s, n := chain + [c], |chain|;
    assert Fresh(v, v1, [c], 0);
    forall i | 0 <= i < |s| ensures Link(v1.fat, s, i) {
      if i < n {
        assert Link(v.fat, chain, i);
        if i + 1 < n { assert chain[i] != chain[n - 1]; }
        if chain[i] == c { LinkNonZero(v.fat, chain, i); }
      }
    }
  }

  lemma LinkNonZero(fat: seq<nat>, chain: seq<nat>, i: nat)
    requires i < |chain| && forall j | 0 <= j < |chain| :: Link(fat, chain, j)
    ensures chain[i] < |fat| && fat[chain[i]] != 0
  {
    assert Link(fat, chain, i);
    if i + 1 < |chain| { assert Link(fat, chain, i + 1); }
  }

  /** Entering into a full directory. */
  lemma InsertGrow(v: Vol, ch: Chains, dir: nat, e: Raw)
    requires WellFormed(v, ch) && dir in ch.dirs && |e| == 32 && InBounds(v.data, ch.dirs[dir]) && |v.fat| == |v.data|
    requires FreeSlot(SlotsAt(v, ch, dir), 0) == |SlotsAt(v, ch, dir)| && InsertIn(v, ch, dir, e).0.Ok?
    ensures Grown(v, InsertIn(v, ch, dir, e).1, ch.dirs[dir], dir, Growth(v, ch, dir),
      FreeSlot(SlotsAt(v, ch, dir), 0), e)
  {
    hide WellFormed, ZeroTail, UniqueNames, Cut, Allocate, Linked, Splice, Zeros, SlotsOf, FreeSlot, Shape, Insert;
    DirAtOk(v, ch, dir);
    var chain := ch.dirs[dir];
    var last := chain[|chain| - 1];
    Taken(v, ch, OfDir(dir), |chain| - 1);
    AllocateOk(v, Some(last));
    GrowIs(v, ch, dir, e);
    var c, v1 := Allocate(v, Some(last)).0.value, Allocate(v, Some(last)).1;
    var v' := InsertIn(v, ch, dir, e).1;
    assert Fresh(v, v1, [c], 0);
    LinkedGrows(v, v1, dir, chain, c);
    forall i | 0 <= i < |chain| ensures chain[i] != c { Taken(v, ch, OfDir(dir), i); }
    SplicedShape(v1, v', c);
    GrowEntered(v, v1, v', chain, c, e);
  }

  lemma GrowIs(v: Vol, ch: Chains, dir: nat, e: Raw)
    requires WellFormed(v, ch) && dir in ch.dirs && |e| == 32 && InBounds(v.data, ch.dirs[dir]) && |v.fat| == |v.data|
    requires FreeSlot(SlotsAt(v, ch, dir), 0) == |SlotsAt(v, ch, dir)| && InsertIn(v, ch, dir, e).0.Ok?
    requires ch.dirs[dir] != []
    ensures var (r, v1) := Allocate(v, Some(ch.dirs[dir][|ch.dirs[dir]| - 1]));
      && r.Some? && r.value < |v1.data| && |v1.data[r.value]| >= 32 && Growth(v, ch, dir) == [r.value]
      && InsertIn(v, ch, dir, e).1 == v1.(data := v1.data[r.value := Splice(v1.data[r.value], 0, e)])
  {
  }

  lemma SplicedShape(v1: Vol, v': Vol, c: nat)
    requires Shape(v1) && c < |v1.data| == |v'.data| && v' == v1.(data := v1.data[c := v'.data[c]])
    requires |v'.data[c]| == |v1.data[c]|
    ensures Shape(v')
  {
  }

  lemma GrowEntered(v: Vol, v1: Vol, v': Vol, chain: seq<nat>, c: nat, e: Raw)
    requires Shape(v) && |e| == 32 && chain != [] && InBounds(v.data, chain) && c < |v1.data| == |v.data|
    requires (forall i | 0 <= i < |chain| :: chain[i] != c)
    requires Allocated(v, v1, [c], Some(chain[|chain| - 1])) && v1.data[c] == Zeros(ClusterSize(v))
    requires ClusterSize(v) >= 512
    requires v' == v1.(data := v1.data[c := Splice(v1.data[c], 0, e)])
    ensures InBounds(v'.data, chain + [c])
    ensures Entered(SlotsOf(v.data, chain), SlotsOf(v'.data, chain + [c]), |SlotsOf(v.data, chain)|, e)
  {
    hide Cut, Splice, Zeros, Shape, SlotsOf;
    NewClusterSlots(ClusterSize(v), e);
    ShapeLengths(v);
    forall i | 0 <= i < |chain| ensures v'.data[chain[i]] == v.data[chain[i]] { assert chain[i] !in [c]; }
    SlotsFrame(v.data, v'.data, chain);
    SlotsJoin(v'.data, chain, c);
  }

  /** Entering keeps apart from a spare chain. */
  lemma GrownUpdates(v: Vol, v': Vol, ch: Chains, dir: nat, extra: seq<nat>, t: nat, e: Raw, name: seq<nat>,
      l: seq<nat>)
    requires WellFormed(v, ch) && dir in ch.dirs && |e| == 32 && InBounds(v.data, ch.dirs[dir]) && |v.fat| == |v.data|
    requires Grown(v, v', ch.dirs[dir], dir, extra, t, e) && t == FreeSlot(SlotsAt(v, ch, dir), 0)
    requires Spare(v, ch, l) && Find(SlotsAt(v, ch, dir), name) == None
    requires Matches(e, name) && !IsDir(e) && ClusterOf(e) == l[0]
    ensures Updated(v, v', ch, Rechain(ch, dir, t, l, extra), dir, t, l, e) && SameAlong(v, v', l)
  {
    hide WellFormed, ZeroTail, UniqueNames, Shape, IsDir, ClusterOf, FullName, Upper, Find, Linked, FreeSlot, SlotsOf;
    DirAtOk(v, ch, dir);
    var s, ch' := SlotsAt(v, ch, dir), Rechain(ch, dir, t, l, extra);
    assert SlotsAt(v', ch', dir) == SlotsOf(v'.data, ch.dirs[dir] + extra);
    SlotsTable(v', ch', dir);
    EnteredTail(s, SlotsAt(v', ch', dir), t, e);
    EnteredUnique(s, SlotsAt(v', ch', dir), t, e, name);
    GrownAlong(v, v', ch, dir, extra, t, e);
    SpareAlong(v, v', ch, dir, extra, t, e, l);
    GrownApart(v, ch, dir, extra, t, l);
  }

  lemma SlotsTable(v: Vol, ch: Chains, d: nat)
    ensures Table(SlotsAt(v, ch, d))
  {
  }

  lemma GrownAlong(v: Vol, v': Vol, ch: Chains, dir: nat, extra: seq<nat>, t: nat, e: Raw)
    requires WellFormed(v, ch) && dir in ch.dirs && InBounds(v.data, ch.dirs[dir]) && |v.fat| == |v.data|
    requires Grown(v, v', ch.dirs[dir], dir, extra, t, e)
    ensures forall o: Owner | o != OfDir(dir) :: SameAlong(v, v', ChainOf(ch, o))
    ensures forall d | d in ch.dirs && d != dir :: SameAlong(v, v', ch.dirs[d])
    ensures forall k | k in ch.files :: SameAlong(v, v', ch.files[k])
  {
    hide WellFormed, Entered, Linked, Shape, SlotsOf;
    forall o: Owner | o != OfDir(dir) ensures SameAlong(v, v', ChainOf(ch, o)) {
      var s := ChainOf(ch, o);
      forall j | 0 <= j < |s| ensures s[j] < |v.fat| && SameAt(v, v', s[j]) {
        Taken(v, ch, o, j);
        ApartAll(v, ch, o, j, OfDir(dir));
      }
    }
    assert forall d | d in ch.dirs && d != dir :: ChainOf(ch, OfDir(d)) == ch.dirs[d];
    assert forall k | k in ch.files :: ChainOf(ch, OfFile(k)) == ch.files[k];
  }

  lemma SpareAlong(v: Vol, v': Vol, ch: Chains, dir: nat, extra: seq<nat>, t: nat, e: Raw, l: seq<nat>)
    requires dir in ch.dirs && InBounds(v.data, ch.dirs[dir]) && |v.fat| == |v.data|
    requires Grown(v, v', ch.dirs[dir], dir, extra, t, e) && Spare(v, ch, l)
    ensures SameAlong(v, v', l) && LinkedFrom(v', l[0], l)
  {
    hide Entered, Shape, SlotsOf;
    forall j | 0 <= j < |l| ensures l[j] < |v.fat| && SameAt(v, v', l[j]) {
      NotInSpare(v, ch, l, OfDir(dir), l[j]);
      LinkNonZero(v.fat, l, j);
    }
    LinkedSame(v, v', l[0], l);
  }

  lemma GrownApart(v: Vol, ch: Chains, dir: nat, extra: seq<nat>, t: nat, l: seq<nat>)
    requires WellFormed(v, ch) && dir in ch.dirs && Spare(v, ch, l) && |extra| <= 1
    requires forall x | x in extra :: x < |v.fat| && v.fat[x] == 0
    ensures Apart(Rechain(ch, dir, t, l, extra))
  {
    hide DirWell, FileWell, Shape, Rechain;
    forall o: Owner, i: nat | i < |ChainOf(ch, o)| ensures ChainOf(ch, o)[i] !in l && ChainOf(ch, o)[i] !in extra {
      Taken(v, ch, o, i);
    }
    forall x | x in extra ensures x !in l {
      forall j | 0 <= j < |l| ensures l[j] != x { LinkNonZero(v.fat, l, j); }
    }
    RechainApart(ch, dir, t, l, extra);
  }
}
