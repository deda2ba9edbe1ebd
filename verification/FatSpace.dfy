/** Where the clusters of a FAT32 volume are: free, in a chain, or lost by a call that failed half-way. */
module FatSpace {
  import opened Wrappers
  import opened FatEntries
  import opened FatDirs
  import opened FatChains
  import opened FatVolume
  import opened FatFiles
  import opened FatWrites
  import opened FatTheorems
  import opened FatMakeDir
  import opened FatRuns

  /** The clusters `allocate_cluster` may hand out. */
  function FreeSet(v: Vol): set<nat> {
    set c | 3 <= c < |v.fat| - 2 && v.fat[c] == 0
  }

  ghost predicate Held(ch: Chains, c: nat) {
    exists o: Owner :: c in ChainOf(ch, o)
  }

  /** In use, but in no chain. */
  ghost function Orphans(v: Vol, ch: Chains): set<nat> {
    set c | 2 <= c < |v.fat| && v.fat[c] != 0 && !Held(ch, c)
  }

  function Elems(l: seq<nat>): set<nat> {
    set x | x in l
  }

  lemma {:induction false} ElemsCount(l: seq<nat>)
    requires Distinct(l)
    ensures |Elems(l)| == |l|
  {
    if l != [] {
      assert Elems(l) == {l[0]} + Elems(l[1..]);
      assert forall i | 0 <= i < |l[1..]| :: l[1..][i] == l[i + 1] != l[0];
      ElemsCount(l[1..]);
    }
  }

  // ----- Allocating -----

  lemma AllocateSpace(v: Vol, prev: Option<nat>)
    requires Shape(v) && (prev.Some? ==> prev.value < |v.fat| && v.fat[prev.value] != 0)
    ensures match Allocate(v, prev)
      case (None, v') => FreeSet(v) == {} && v' == v
      case (Some(c), v') => c in FreeSet(v) && FreeSet(v') == FreeSet(v) - {c}
  {
  }

  /** The loop gets what it asks for, or every free cluster there is. */
  lemma {:induction false} AllocateManyCount(v: Vol, k: nat, prev: Option<nat>)
    requires Shape(v) && (prev.Some? ==> prev.value < |v.fat| && v.fat[prev.value] != 0)
    ensures var (l, v') := AllocateMany(v, k, prev);
      Elems(l) <= FreeSet(v) && FreeSet(v') == FreeSet(v) - Elems(l) && |l| == Least(k, |FreeSet(v)|)
    decreases k
  {
    hide Closed, Zeros, FirstFree, Allocate, FreeSet, Elems;
    assert Elems([]) == {} by { NoElems(); }
    if k > 0 {
      AllocateSpace(v, prev);
      AllocateOk(v, prev);
      var (r, v1) := Allocate(v, prev);
      if r.Some? {
        var c := r.value;
        assert Fresh(v, v1, [c], 0);
        AllocateManyCount(v1, k - 1, Some(c));
        var l := AllocateMany(v1, k - 1, Some(c)).0;
        OneMore(FreeSet(v), c, l);
      }
    }
  }

  lemma NoElems()
    ensures Elems([]) == {}
  {
  }

  lemma OneMore(free: set<nat>, c: nat, l: seq<nat>)
    requires c in free && Elems(l) <= free - {c}
    ensures Elems([c] + l) <= free && free - {c} - Elems(l) == free - Elems([c] + l) && |free - {c}| == |free| - 1
  {
    assert Elems([c] + l) == {c} + Elems(l);
  }

  /** What staging the bytes takes. */
  function Staged(v: Vol, n: nat): seq<nat>
    requires Shape(v)
  {
    AllocateMany(v, Needed(v, n), None).0
  }

  /** The table differs at the clusters taken, which were free and are so no more. */
  ghost predicate Takes(v: Vol, v': Vol, l: seq<nat>) {
    && |v'.fat| == |v.fat| && Distinct(l)
    && (forall c | 0 <= c < |v.fat| && c !in l :: v'.fat[c] == v.fat[c])
    && (forall c | c in l :: 2 <= c < |v.fat| && v.fat[c] == 0 && v'.fat[c] != 0)
  }

  lemma AllocatedTakes(v: Vol, v': Vol, l: seq<nat>)
    requires Shape(v) && Allocated(v, v', l, None)
    ensures Takes(v, v', l)
  {
    forall c | c in l ensures 2 <= c < |v.fat| && v.fat[c] == 0 && v'.fat[c] != 0 {
      var i :| 0 <= i < |l| && l[i] == c;
      assert Fresh(v, v', l, i);
      if i + 1 < |l| { assert Fresh(v, v', l, i + 1); }
    }
  }

  /** Staging succeeds exactly when there are clusters enough; otherwise it takes all there are. */
  lemma StageSpace(v: Vol, bytes: seq<nat>)
    requires Shape(v)
    ensures var (l, v') := Stage(v, bytes); var taken := Staged(v, |bytes|);
      && (l != [] <==> |FreeSet(v)| >= Needed(v, |bytes|)) && (l != [] ==> l == taken)
      && Takes(v, v', taken) && Elems(taken) <= FreeSet(v) && FreeSet(v') == FreeSet(v) - Elems(taken)
      && |taken| == Least(Needed(v, |bytes|), |FreeSet(v)|)
  {
    hide Closed, AllocateMany, Fill, Takes, Allocated;
    var k := Needed(v, |bytes|);
    var (l, v1) := AllocateMany(v, k, None);
    AllocateManyOk(v, k, None);
    AllocateManyCount(v, k, None);
    AllocatedTakes(v, v1, l);
    if |l| == k {
      FreshHead(v, v1, l);
      FilledTakes(v, v1, Fill(v1, l[0], bytes), l);
    }
  }

  lemma FreshHead(v: Vol, v1: Vol, l: seq<nat>)
    requires |v.fat| == |v.data| && Allocated(v, v1, l, None) && l != []
    ensures Shape(v1) && InTable(v1.fat, l[0])
  {
    assert Fresh(v, v1, l, 0);
  }

  lemma FilledTakes(v: Vol, v1: Vol, v2: Vol, l: seq<nat>)
    requires Takes(v, v1, l) && v2.fat == v1.fat
    ensures Takes(v, v2, l) && FreeSet(v2) == FreeSet(v1)
  {
  }

  // ----- Orphans -----

  /** Clusters taken and put in no chain are orphans from then on. */
  lemma TakenOrphans(v: Vol, v': Vol, ch: Chains, l: seq<nat>)
    requires WellFormed(v, ch) && Takes(v, v', l)
    ensures Orphans(v', ch) == Orphans(v, ch) + Elems(l) && |Orphans(v', ch)| == |Orphans(v, ch)| + |l|
  {
    hide WellFormed;
    forall c | c in l ensures !Held(ch, c) { FreeNotHeld(v, ch, c); }
    assert Orphans(v', ch) == Orphans(v, ch) + Elems(l);
    ElemsCount(l);
    assert Orphans(v, ch) !! Elems(l);
  }

  lemma FreeNotHeld(v: Vol, ch: Chains, c: nat)
    requires WellFormed(v, ch) && c < |v.fat| && v.fat[c] == 0
    ensures !Held(ch, c)
  {
    hide WellFormed, ChainOf;
    forall o: Owner ensures c !in ChainOf(ch, o) {
      forall i | 0 <= i < |ChainOf(ch, o)| ensures ChainOf(ch, o)[i] != c { Taken(v, ch, o, i); }
    }
  }

  /** The chains now hold `more` and no longer hold `less`. */
  ghost predicate Reheld(ch: Chains, ch': Chains, more: set<nat>, less: set<nat>) {
    forall c: nat :: Held(ch', c) <==> (Held(ch, c) && c !in less) || c in more
  }

  /** If what was taken is held and what was given up is free, nobody is orphaned and nobody found. */
  lemma SameOrphans(v: Vol, v': Vol, ch: Chains, ch': Chains, more: set<nat>, less: set<nat>)
    requires WellFormed(v, ch) && |v'.fat| == |v.fat| && Reheld(ch, ch', more, less) && more !! less
    requires forall c | c in more :: c < |v.fat| && v.fat[c] == 0
    requires forall c | c in less :: Held(ch, c) && c < |v.fat| && v'.fat[c] == 0
    requires forall c | 2 <= c < |v.fat| && c !in more && c !in less && !Held(ch, c) :: v'.fat[c] == v.fat[c]
    ensures Orphans(v', ch') == Orphans(v, ch)
  {
    hide WellFormed, Held;
  }

  lemma RechainHolds(ch: Chains, dir: nat, t: nat, l: seq<nat>, extra: seq<nat>)
    requires Apart(ch) && dir in ch.dirs
    ensures Reheld(ch, Rechain(ch, dir, t, l, extra), Elems(l) + Elems(extra), Elems(ChainOf(ch, OfFile((dir, t)))))
  {
    hide Apart;
    var ch', was := Rechain(ch, dir, t, l, extra), ChainOf(ch, OfFile((dir, t)));
    forall c: nat ensures Held(ch', c) <==> (Held(ch, c) && c !in Elems(was)) || c in Elems(l) + Elems(extra) {
      if Held(ch', c) {
        var o: Owner :| c in ChainOf(ch', o);
        var i :| 0 <= i < |ChainOf(ch', o)| && ChainOf(ch', o)[i] == c;
        RechainAt(ch, dir, t, l, extra, o, i);
        if c !in l && c !in extra { OneOwner(ch, o, i, OfFile((dir, t))); }
      }
      if Held(ch, c) && c !in was {
        var o: Owner :| c in ChainOf(ch, o);
        assert c in ChainOf(ch', o);
      }
      if c in l { assert c in ChainOf(ch', OfFile((dir, t))); }
      if c in extra { assert c in ChainOf(ch', OfDir(dir)); }
    }
  }

  lemma OneOwner(ch: Chains, o: Owner, i: nat, o2: Owner)
    requires Apart(ch) && i < |ChainOf(ch, o)| && o != o2
    ensures ChainOf(ch, o)[i] !in ChainOf(ch, o2)
  {
    hide Apart, ChainOf;
    forall j | 0 <= j < |ChainOf(ch, o2)| ensures ChainOf(ch, o2)[j] != ChainOf(ch, o)[i] {
      if ChainOf(ch, o2)[j] == ChainOf(ch, o)[i] { MeetBefore(ch, o, i, o2, j); }
    }
  }

  // ----- Entering -----

  /** The directory has a slot that is not in use. */
  ghost predicate HasRoom(v: Vol, ch: Chains, dir: nat) {
    exists i :: 0 <= i < |SlotsAt(v, ch, dir)| && Unused(SlotsAt(v, ch, dir)[i])
  }

  /** An entry is made exactly in a known directory with a free slot or room to grow. */
  lemma InsertIff(v: Vol, ch: Chains, dir: nat, e: Raw)
    requires WellFormed(v, ch) && |e| == 32
    ensures InsertIn(v, ch, dir, e).0.Ok? <==> dir in ch.dirs && (HasRoom(v, ch, dir) || FreeSet(v) != {})
  {
    hide WellFormed, FreeSlot, Allocate, FreeSet, Shape, ZeroTail, UniqueNames, Linked;
    if dir in ch.dirs {
      DirAtOk(v, ch, dir);
      var chain := ch.dirs[dir];
      Taken(v, ch, OfDir(dir), |chain| - 1);
      AllocateSpace(v, Some(chain[|chain| - 1]));
    }
  }

  // ----- Writing -----

  /** The name is a file and the clusters for the new bytes are free besides its own; or it is new, and there is a free
      cluster more if the directory is full. */
  ghost predicate CanWrite(v: Vol, ch: Chains, dir: nat, name: seq<nat>, n: nat) {
    match Find(SlotsAt(v, ch, dir), name)
    case Some(_) => BytesFit(v, n, |FreeSet(v)|)
    case None => dir in ch.dirs && BytesFit(v, n, |FreeSet(v)| - if HasRoom(v, ch, dir) then 0 else 1)
  }

  /** There is a cluster, and the bytes fit into all of them. */
  predicate BytesFit(v: Vol, n: nat, clusters: int) {
    clusters >= 1 && n <= ClusterSize(v) * clusters
  }

  /** A write succeeds exactly when there is room. */
  lemma WriteIff(v: Vol, ch: Chains, dir: nat, name: seq<nat>, bytes: seq<nat>)
    requires Writable(v, ch, dir, name) && v.spc > 0
    ensures WriteAt(v, ch, dir, name, bytes).0.Ok? <==> CanWrite(v, ch, dir, name, |bytes|)
  {
    hide WellFormed, Find, IsDir, SlotsAt, Stage, FreeSet, Shape, Spare, Content, Meaning, Replace, InsertIn,
      EightThree, FileEntry, Retarget, Takes, Size32, Needed, FileAt, FreeSlot;
    ShapeOf(v, ch);
    StageOk(v, ch, bytes);
    StageSpace(v, bytes);
    ShortestFits(ClusterSize(v), Needed(v, |bytes|), |bytes|, |FreeSet(v)|);
    ShortestFits(ClusterSize(v), Needed(v, |bytes|), |bytes|, |FreeSet(v)| - 1);
    var (l, v2) := Stage(v, bytes);
    if l != [] {
      SameSlots(v, v2, ch, dir);
      if Find(SlotsAt(v, ch, dir), name) == None {
        InsertIff(v2, ch, dir, FileEntry(name, l, bytes));
        LeftOver(v, v2, l);
      }
    }
  }

  lemma LeftOver(v: Vol, v2: Vol, l: seq<nat>)
    requires Takes(v, v2, l) && Elems(l) <= FreeSet(v) && FreeSet(v2) == FreeSet(v) - Elems(l)
    ensures |FreeSet(v)| == |FreeSet(v2)| + |l|
  {
    hide FreeSet;
    ElemsCount(l);
    assert FreeSet(v) == FreeSet(v2) + Elems(l);
  }

  /** The chain of a written file is the shortest that holds the bytes. */
  lemma WriteChain(v: Vol, ch: Chains, dir: nat, name: seq<nat>, bytes: seq<nat>)
    requires Writable(v, ch, dir, name) && WriteAt(v, ch, dir, name, bytes).0.Ok?
    ensures var ch' := ChainsAfter(v, ch, dir, name, bytes);
      exists i :: (dir, i) in ch'.files && Shortest(ClusterSize(v), |ch'.files[(dir, i)]|, |bytes|)
                  && (forall k | k in ch.files && k != (dir, i) :: k in ch'.files && ch'.files[k] == ch.files[k])
                  && (Find(SlotsAt(v, ch, dir), name).Some? ==> Find(SlotsAt(v, ch, dir), name) == Some(i))
  {
    hide WellFormed, Find, IsDir, SlotsAt, Stage, FreeSet, Shape, Spare, Content, Meaning, Replace, InsertIn,
      EightThree, FileEntry, Retarget, Takes, Size32, Needed, FileAt, FreeSlot, Growth;
    ShapeOf(v, ch);
    StageOk(v, ch, bytes);
    StageSpace(v, bytes);
    var (l, v2) := Stage(v, bytes);
    var f := Find(SlotsAt(v, ch, dir), name);
    if f.Some? {
      FoundDir(v, ch, dir, name);
    } else {
      InsertFails(v2, ch, dir, FileEntry(name, l, bytes));
    }
    var i := if f.Some? then f.value else FreeSlot(SlotsAt(v2, ch, dir), 0);
    assert (dir, i) in ChainsAfter(v, ch, dir, name, bytes).files;
  }

  /** What a failed write loses: all it had taken. */
  function Wasted(v: Vol, n: nat): nat
    requires v.spc > 0
  {
    Least(Needed(v, n), |FreeSet(v)|)
  }

  lemma OverwriteSpace(v: Vol, v2: Vol, ch: Chains, dir: nat, i: nat, l: seq<nat>, e: Raw)
    requires WellFormed(v, ch) && WellFormed(v2, ch) && Takes(v, v2, l) && Replaceable(v2, ch, dir, i, e)
    ensures Orphans(Replace(v2, ch, dir, i, e), Rechain(ch, dir, i, l, [])) == Orphans(v, ch)
  {
    hide WellFormed, Replace, Held, Orphans, FileAt, Shape, SlotsAt, ClusterOf;
    FileInUse(v2, ch, dir, i, e);
    var v', ch', was := Replace(v2, ch, dir, i, e), Rechain(ch, dir, i, l, []), ch.files[(dir, i)];
    ApartOf(v, ch);
    ShapeOf(v2, ch);
    RechainHolds(ch, dir, i, l, []);
    assert Elems(l) + Elems([]) == Elems(l);
    ReplaceShape(v2, ch, dir, i, e);
    forall c | c in was ensures c < |v.fat| && v'.fat[c] == 0 && Held(ch, c) && c !in l {
      ChainHeld(v2, ch, OfFile((dir, i)), c);
      ReplaceSame(v2, ch, dir, i, e, c);
      if c in l { FreeNotHeld(v, ch, c); }
    }
    forall c | 2 <= c < |v.fat| && c !in l && c !in was ensures v'.fat[c] == v.fat[c] {
      ReplaceSame(v2, ch, dir, i, e, c);
    }
    SameOrphans(v, v', ch, ch', Elems(l), Elems(was));
  }

  lemma FileInUse(v: Vol, ch: Chains, dir: nat, i: nat, e: Raw)
    requires Replaceable(v, ch, dir, i, e)
    ensures (dir, i) in ch.files && dir in ch.dirs && FileAt(v, ch, dir, i)
  {
    FileAtOk(v, ch, dir, i);
  }

  lemma ChainHeld(v: Vol, ch: Chains, o: Owner, c: nat)
    requires WellFormed(v, ch) && c in ChainOf(ch, o)
    ensures Held(ch, c) && c < |v.fat|
  {
    hide WellFormed, ChainOf;
    var i :| 0 <= i < |ChainOf(ch, o)| && ChainOf(ch, o)[i] == c;
    Taken(v, ch, o, i);
  }

  lemma EnterSpace(v: Vol, v2: Vol, v': Vol, ch: Chains, dir: nat, extra: seq<nat>, l: seq<nat>, e: Raw)
    requires WellFormed(v, ch) && WellFormed(v2, ch) && Takes(v, v2, l)
    requires dir in ch.dirs && InBounds(v2.data, ch.dirs[dir]) && |v2.fat| == |v2.data|
    requires Grown(v2, v', ch.dirs[dir], dir, extra, FreeSlot(SlotsAt(v2, ch, dir), 0), e)
    ensures Orphans(v', Rechain(ch, dir, FreeSlot(SlotsAt(v2, ch, dir), 0), l, extra)) == Orphans(v, ch)
  {
    hide WellFormed, Held, Orphans, Entered, SlotsOf, FreeSlot, Shape, SlotsAt, Linked;
    var t := FreeSlot(SlotsAt(v2, ch, dir), 0);
    var ch' := Rechain(ch, dir, t, l, extra);
    FreshSlotNoFile(v2, ch, dir, t);
    ApartOf(v, ch);
    RechainHolds(ch, dir, t, l, extra);
    assert Elems(ChainOf(ch, OfFile((dir, t)))) == {};
    forall c | 2 <= c < |v.fat| && c !in l && c !in extra && !Held(ch, c) ensures v'.fat[c] == v.fat[c] {
      if c in ch.dirs[dir] { ChainHeld(v2, ch, OfDir(dir), c); }
      assert SameAt(v2, v', c);
    }
    SameOrphans(v, v', ch, ch', Elems(l) + Elems(extra), {});
  }

  /** A successful write orphans no cluster; a failed one orphans exactly what it had taken. */
  lemma WriteSpace(v: Vol, ch: Chains, dir: nat, name: seq<nat>, bytes: seq<nat>)
    requires Writable(v, ch, dir, name) && v.spc > 0
    ensures var (r, v') := WriteAt(v, ch, dir, name, bytes);
      && (r.Ok? ==> Orphans(v', ChainsAfter(v, ch, dir, name, bytes)) == Orphans(v, ch))
      && (r.Err? ==> Orphans(v, ch) <= Orphans(v', ch) && |Orphans(v', ch)| == |Orphans(v, ch)| + Wasted(v, |bytes|))
  {
    hide WellFormed, Find, IsDir, SlotsAt, Stage, FreeSet, Shape, Spare, Content, Meaning, Replace, InsertIn,
      EightThree, FileEntry, Retarget, Takes, Size32, Needed, FileAt, FreeSlot, Orphans, Rechain, Growth, Grown,
      Replaceable;
    ShapeOf(v, ch);
    StageOk(v, ch, bytes);
    StageSpace(v, bytes);
    TakenOrphans(v, Stage(v, bytes).1, ch, Staged(v, |bytes|));
    var (l, v2) := Stage(v, bytes);
    if l != [] {
      SameSlots(v, v2, ch, dir);
      var f := Find(SlotsAt(v, ch, dir), name);
      if f.Some? {
        FoundFile(v, v2, ch, dir, name);
        var e := Retarget(SlotsAt(v2, ch, dir)[f.value], l[0], Size32(bytes));
        ReplaceableOk(v2, ch, dir, f.value, e);
        FoundDir(v, ch, dir, name);
        OverwriteSpace(v, v2, ch, dir, f.value, l, e);
      } else {
        EnterFileSpace(v, v2, ch, dir, l, FileEntry(name, l, bytes));
      }
    }
  }

  lemma EnterFileSpace(v: Vol, v2: Vol, ch: Chains, dir: nat, l: seq<nat>, e: Raw)
    requires WellFormed(v, ch) && WellFormed(v2, ch) && Takes(v, v2, l) && |e| == 32
    ensures var (r, v') := InsertIn(v2, ch, dir, e);
      && (r.Err? ==> v' == v2)
      && (r.Ok? ==>
            && dir in ch.dirs
            && Orphans(v', Rechain(ch, dir, FreeSlot(SlotsAt(v2, ch, dir), 0), l, Growth(v2, ch, dir))) ==
                  Orphans(v, ch))
  {
    hide WellFormed, SlotsAt, Shape, InsertIn, FreeSlot, Orphans, Rechain, Growth, Grown, Takes;
    InsertFails(v2, ch, dir, e);
    if InsertIn(v2, ch, dir, e).0.Ok? {
      DirAtOk(v2, ch, dir);
      ShapeOf(v2, ch);
      InsertGrows(v2, ch, dir, e);
      EnterSpace(v, v2, InsertIn(v2, ch, dir, e).1, ch, dir, Growth(v2, ch, dir), l, e);
    }
  }

  // ----- Deleting -----

  lemma ForgetHolds(ch: Chains, k: (nat, nat))
    requires Apart(ch)
    ensures Reheld(ch, Forget(ch, k), {}, Elems(ChainOf(ch, OfFile(k))))
  {
    hide Apart;
    var ch', was := Forget(ch, k), ChainOf(ch, OfFile(k));
    forall c: nat ensures Held(ch', c) <==> Held(ch, c) && c !in Elems(was) {
      if Held(ch', c) {
        var o: Owner :| c in ChainOf(ch', o);
        var i :| 0 <= i < |ChainOf(ch', o)| && ChainOf(ch', o)[i] == c;
        assert ChainOf(ch, o) == ChainOf(ch', o);
        OneOwner(ch, o, i, OfFile(k));
      }
      if Held(ch, c) && c !in was {
        var o: Owner :| c in ChainOf(ch, o);
        assert c in ChainOf(ch', o);
      }
    }
  }

  /** Deleting a file orphans no cluster. */
  lemma DeleteSpace(v: Vol, ch: Chains, dir: nat, i: nat, e: Raw)
    requires WellFormed(v, ch) && Replaceable(v, ch, dir, i, e)
    ensures Orphans(Replace(v, ch, dir, i, e), Forget(ch, (dir, i))) == Orphans(v, ch)
  {
    hide WellFormed, Replace, Held, Orphans, FileAt, Shape, SlotsAt, ClusterOf;
    FileInUse(v, ch, dir, i, e);
    var v', ch', was := Replace(v, ch, dir, i, e), Forget(ch, (dir, i)), ch.files[(dir, i)];
    ApartOf(v, ch);
    ShapeOf(v, ch);
    ForgetHolds(ch, (dir, i));
    ReplaceShape(v, ch, dir, i, e);
    forall c | c in was ensures c < |v.fat| && v'.fat[c] == 0 && Held(ch, c) {
      ChainHeld(v, ch, OfFile((dir, i)), c);
      ReplaceSame(v, ch, dir, i, e, c);
    }
    forall c | 2 <= c < |v.fat| && c !in was ensures v'.fat[c] == v.fat[c] {
      ReplaceSame(v, ch, dir, i, e, c);
    }
    SameOrphans(v, v', ch, ch', {}, Elems(was));
  }

  // ----- Creating directories -----

  lemma WithDirHolds(ch: Chains, dir: nat, extra: seq<nat>, c: nat)
    requires dir in ch.dirs && c !in ch.dirs
    ensures Reheld(ch, WithDir(ch, dir, extra, c), {c} + Elems(extra), {})
  {
    var ch' := WithDir(ch, dir, extra, c);
    forall x: nat ensures Held(ch', x) <==> Held(ch, x) || x in {c} + Elems(extra) {
      if Held(ch', x) {
        var o: Owner :| x in ChainOf(ch', o);
        var i :| 0 <= i < |ChainOf(ch', o)| && ChainOf(ch', o)[i] == x;
        WithDirAt(ch, dir, extra, c, o, i);
      }
      if Held(ch, x) {
        var o: Owner :| x in ChainOf(ch, o);
        assert o != OfDir(c) && x in ChainOf(ch', o);
      }
      if x == c { assert x in ChainOf(ch', OfDir(c)); }
      if x in extra { assert x in ChainOf(ch', OfDir(dir)); }
    }
  }

  /** A cluster for the new directory, and one more if its parent is full. */
  ghost predicate CanMkdir(v: Vol, ch: Chains, dir: nat, name: seq<nat>) {
    && Find(SlotsAt(v, ch, dir), name) == None && dir in ch.dirs
    && |FreeSet(v)| >= if HasRoom(v, ch, dir) then 1 else 2
  }

  lemma NewDirSpace(v: Vol, ch: Chains, dir: nat)
    requires WellFormed(v, ch) && Shape(v)
    ensures match NewDir(v, dir)
      case (None, v1) => v1 == v && FreeSet(v) == {}
      case (Some(c), v1) =>
        c !in ch.dirs && Takes(v, v1, [c]) && Elems([c]) <= FreeSet(v) && FreeSet(v1) == FreeSet(v) - Elems([c])
  {
    hide WellFormed, Allocate, Takes, Splice, DotEntry, DotDotEntry;
    AllocateOk(v, None);
    AllocateSpace(v, None);
    var (r, va) := Allocate(v, None);
    if r.Some? {
      AllocateSize(v, None);
      AllocatedTakes(v, va, [r.value]);
      FilledTakes(v, va, NewDir(v, dir).1, [r.value]);
      NewHead(v, ch, r.value);
      assert Elems([r.value]) == {r.value};
    }
  }

  lemma EnterDirSpace(v: Vol, v1: Vol, ch: Chains, dir: nat, c: nat, e: Raw)
    requires WellFormed(v, ch) && WellFormed(v1, ch) && Takes(v, v1, [c]) && c !in ch.dirs && |e| == 32
    ensures var (r, v') := InsertIn(v1, ch, dir, e);
      && (r.Err? ==> v' == v1)
      && (r.Ok? ==> dir in ch.dirs && Orphans(v', WithDir(ch, dir, Growth(v1, ch, dir), c)) == Orphans(v, ch))
  {
    hide WellFormed, SlotsAt, Shape, InsertIn, FreeSlot, Orphans, Growth, Grown, Takes, WithDir;
    InsertFails(v1, ch, dir, e);
    if InsertIn(v1, ch, dir, e).0.Ok? {
      DirAtOk(v1, ch, dir);
      ShapeOf(v1, ch);
      InsertGrows(v1, ch, dir, e);
      GrownDirSpace(v, v1, InsertIn(v1, ch, dir, e).1, ch, dir, Growth(v1, ch, dir), c, e);
    }
  }

  lemma GrownDirSpace(v: Vol, v1: Vol, v': Vol, ch: Chains, dir: nat, extra: seq<nat>, c: nat, e: Raw)
    requires WellFormed(v, ch) && WellFormed(v1, ch) && Takes(v, v1, [c]) && c !in ch.dirs
    requires dir in ch.dirs && InBounds(v1.data, ch.dirs[dir]) && |v1.fat| == |v1.data|
    requires Grown(v1, v', ch.dirs[dir], dir, extra, FreeSlot(SlotsAt(v1, ch, dir), 0), e)
    ensures Orphans(v', WithDir(ch, dir, extra, c)) == Orphans(v, ch)
  {
    hide WellFormed, Held, Orphans, Entered, SlotsOf, FreeSlot, Shape, SlotsAt, Linked;
    var ch' := WithDir(ch, dir, extra, c);
    WithDirHolds(ch, dir, extra, c);
    assert c in [c];
    forall x | 2 <= x < |v.fat| && x != c && x !in extra && !Held(ch, x) ensures v'.fat[x] == v.fat[x] {
      if x in ch.dirs[dir] { ChainHeld(v1, ch, OfDir(dir), x); }
      assert SameAt(v1, v', x) && x !in [c];
    }
    SameOrphans(v, v', ch, ch', {c} + Elems(extra), {});
  }

  /** A directory is made exactly when the name is new and there is room; success orphans no cluster, and failure
      orphans one exactly when the new directory had its cluster but its parent no place for it. */
  lemma MkdirSpace(v: Vol, ch: Chains, dir: nat, name: seq<nat>)
    requires WellFormed(v, ch)
    ensures var (r, v') := MkdirAt(v, ch, dir, name);
      && (r.Ok? <==> CanMkdir(v, ch, dir, name))
      && (r.Ok? ==> Orphans(v', MkdirChains(v, ch, dir, name)) == Orphans(v, ch))
      && (r.Err? ==> Orphans(v, ch) <= Orphans(v', ch))
      && (r.Err? && Find(SlotsAt(v, ch, dir), name) == None && FreeSet(v) != {} ==>
            |Orphans(v', ch)| == |Orphans(v, ch)| + 1)
      && (r.Err? && (Find(SlotsAt(v, ch, dir), name).Some? || FreeSet(v) == {}) ==> v' == v)
  {
    hide WellFormed, Find, SlotsAt, NewDir, FreeSet, Shape, Meaning, InsertIn, SubdirEntry, Takes, FreeSlot, Orphans,
      WithDir, Growth, Agrees, Fledgling;
    ShapeOf(v, ch);
    NewDirOk(v, ch, dir);
    NewDirSpace(v, ch, dir);
    var (n, v1) := NewDir(v, dir);
    if n.Some? && Find(SlotsAt(v, ch, dir), name) == None {
      Frame(v, v1, ch);
      SameSlots(v, v1, ch, dir);
      LeftOver(v, v1, [n.value]);
      TakenOrphans(v, v1, ch, [n.value]);
      InsertIff(v1, ch, dir, SubdirEntry(name, n.value));
      EnterDirSpace(v, v1, ch, dir, n.value, SubdirEntry(name, n.value));
    }
  }

  // ----- Histories -----

  lemma SpcPositive(v: Vol, ch: Chains)
    requires WellFormed(v, ch)
    ensures v.spc > 0
  {
  }

  /** The clusters an event loses: none when it succeeds, and none when it deletes. */
  ghost function Lost(v: Vol, ch: Chains, e: Event): nat
    requires WellFormed(v, ch)
  {
    SpcPositive(v, ch);
    if !May(v, ch, e) || e.Delete? || HomeOf(v, ch, e.path).Err? then 0
    else
      var dir, name := HomeOf(v, ch, e.path).value, Last(e.path);
      if e.Write? then if CanWrite(v, ch, dir, name, |e.bytes|) then 0 else Wasted(v, |e.bytes|)
      else if CanMkdir(v, ch, dir, name) || Find(SlotsAt(v, ch, dir), name).Some? || FreeSet(v) == {} then 0 else 1
  }

  ghost predicate SpaceKept(v: Vol, ch: Chains, v': Vol, ch': Chains, lost: nat) {
    Orphans(v, ch) <= Orphans(v', ch') && |Orphans(v', ch')| == |Orphans(v, ch)| + lost
  }

  lemma StepSpace(v: Vol, ch: Chains, e: Event)
    requires WellFormed(v, ch)
    ensures var (v', ch') := Step(v, ch, e); SpaceKept(v, ch, v', ch', Lost(v, ch, e))
  {
    hide WellFormed, Orphans, Find, SlotsAt, FreeSet, CanWrite, CanMkdir, WriteAt, ChainsAfter, MkdirAt, MkdirChains,
      DirectoryFrom, Meaning, Writable, EightThree, IsDir, Replace, Wasted, FileAt, Deleted;
    SpcPositive(v, ch);
    if May(v, ch, e) && HomeOf(v, ch, e.path).Ok? {
      var dir, name := HomeOf(v, ch, e.path).value, Last(e.path);
      match e
      case Write(p, bytes) =>
        WriteIff(v, ch, dir, name, bytes);
        WriteSpace(v, ch, dir, name, bytes);
      case Delete(p) =>
        var f := Find(SlotsAt(v, ch, dir), name);
        if f.Some? {
          DeleteTarget(v, ch, dir, name);
          DeleteSpace(v, ch, dir, f.value, Deleted(SlotsAt(v, ch, dir)[f.value]));
        }
      case MakeDir(p) => MkdirSpace(v, ch, dir, name);
    }
  }

  ghost function LostBy(v: Vol, ch: Chains, es: seq<Event>): nat
    requires WellFormed(v, ch)
    decreases es
  {
    if es == [] then 0
    else
      StepOk(v, ch, es[0], []);
      var (v1, ch1) := Step(v, ch, es[0]);
      Lost(v, ch, es[0]) + LostBy(v1, ch1, es[1..])
  }

  /** Over every history, exactly the clusters counted as lost join the orphans, and no orphan is ever found again. */
  lemma {:induction false} RunSpace(v: Vol, ch: Chains, es: seq<Event>)
    requires WellFormed(v, ch)
    ensures var (v', ch') := Run(v, ch, es); SpaceKept(v, ch, v', ch', LostBy(v, ch, es))
    decreases es
  {
    hide WellFormed, Orphans, Step, Lost;
    if es != [] {
      StepOk(v, ch, es[0], []);
      StepSpace(v, ch, es[0]);
      var (v1, ch1) := Step(v, ch, es[0]);
      RunSpace(v1, ch1, es[1..]);
    }
  }

  /** On a freshly formatted volume every cluster in use is in a chain, so a history that loses none keeps it so. */
  lemma FormattedSpace(mark: seq<nat>, data: seq<seq<nat>>, es: seq<Event>)
    requires |mark| == 11 && 3 <= |data| <= END && forall c | 2 <= c < |data| :: |data[c]| == 512
    ensures WellFormed(Formatted(mark, data), RootOnly())
    ensures var (v, ch) := Run(Formatted(mark, data), RootOnly(), es);
      |Orphans(v, ch)| == LostBy(Formatted(mark, data), RootOnly(), es)
  {
    hide WellFormed, Run, LostBy;
    var v, ch := Formatted(mark, data), RootOnly();
    FormattedOk(mark, data);
    assert Orphans(v, ch) == {} by {
      assert 2 in ChainOf(ch, OfDir(2));
      forall c | 3 <= c < |v.fat| ensures v.fat[c] == 0 { assert v.fat[c] == Zeros(|data| - 3)[c - 3]; }
    }
    RunSpace(v, ch, es);
  }

  /** A formatted volume has five table entries it never hands out. */
  lemma FormattedFree(mark: seq<nat>, data: seq<seq<nat>>)
    requires |mark| == 11 && |data| >= 5
    ensures |FreeSet(Formatted(mark, data))| == |data| - 5
  {
    var v := Formatted(mark, data);
    var all := seq(|data| - 5, i requires 0 <= i => i + 3);
    forall c | 3 <= c < |v.fat| - 2 ensures c in all && v.fat[c] == 0 {
      assert all[c - 3] == c && v.fat[c] == Zeros(|data| - 3)[c - 3];
    }
    assert FreeSet(v) == Elems(all);
    ElemsCount(all);
  }

  /** On a freshly formatted volume a write of a new file succeeds exactly when a cluster is free and the bytes fit. */
  lemma FreshWriteIff(mark: seq<nat>, data: seq<seq<nat>>, name: seq<nat>, bytes: seq<nat>)
    requires |mark| == 11 && 5 <= |data| <= END && forall c | 2 <= c < |data| :: |data[c]| == 512
    requires EightThree(name)
    ensures var v, ch := Formatted(mark, data), RootOnly();
      && MayWrite(v, ch, [name])
      && (WriteFile(v, ch, [name], bytes).0.Ok? <==> |data| >= 6 && |bytes| <= 512 * (|data| - 5))
  {
    hide EightThree, WriteAt, FreeSet, WellFormed, Formatted, SlotsAt;
    var v, ch := Formatted(mark, data), RootOnly();
    FormattedFree(mark, data);
    FreshRoot(mark, data, name);
    RootSlots(mark, data);
    assert Unused(SlotsAt(v, ch, 2)[1]);
    WriteIff(v, ch, 2, name, bytes);
  }

  /** How a cluster is lost: one write that is too large for a freshly formatted volume loses all of them. */
  lemma OversizedWrite(mark: seq<nat>, data: seq<seq<nat>>, name: seq<nat>, bytes: seq<nat>)
    requires |mark| == 11 && 5 <= |data| <= END && forall c | 2 <= c < |data| :: |data[c]| == 512
    requires EightThree(name) && |bytes| > 512 * (|data| - 5)
    ensures var v, ch := Formatted(mark, data), RootOnly();
      && MayWrite(v, ch, [name])
      && var (r, v', ch') := WriteFile(v, ch, [name], bytes);
         r == Err(Full) && Orphans(v, ch) == {} && |Orphans(v', ch')| == |data| - 5 && FreeSet(v') == {}
  {
    hide EightThree, WriteAt, Orphans, FreeSet, Needed, WellFormed, Formatted;
    var v, ch := Formatted(mark, data), RootOnly();
    FormattedOk(mark, data);
    FormattedFree(mark, data);
    FreshRoot(mark, data, name);
    SpcPositive(v, ch);
    assert Needed(v, |bytes|) > |data| - 5 by { assert |bytes| <= 512 * Needed(v, |bytes|); }
    WriteIff(v, ch, 2, name, bytes);
    WriteSpace(v, ch, 2, name, bytes);
    FullWrite(v, ch, 2, name, bytes);
    FormattedSpace(mark, data, []);
  }

  /** The name is new in the root of a fresh volume. */
  lemma FreshRoot(mark: seq<nat>, data: seq<seq<nat>>, name: seq<nat>)
    requires |mark| == 11 && 5 <= |data| <= END && forall c | 2 <= c < |data| :: |data[c]| == 512
    ensures var v, ch := Formatted(mark, data), RootOnly();
      WellFormed(v, ch) && v.spc == 1 && HomeOf(v, ch, [name]) == Ok(2) && Find(SlotsAt(v, ch, 2), name) == None
  {
    hide WellFormed, SlotsAt, Find;
    var v, ch := Formatted(mark, data), RootOnly();
    FormattedOk(mark, data);
    RootSlots(mark, data);
    MeaningOk(v, ch);
    var s := SlotsAt(v, ch, 2);
    forall i | 0 <= i < 16 ensures !Visible(s[i]) { if i > 0 { assert s[i] == Zeros(32); } }
    DirAtOk(v, ch, 2);
    if Find(s, name).Some? { FindVisible(s, name); }
    assert Parent([name]) == [];
  }

  /** A write that does not get its clusters has taken all there were. */
  lemma FullWrite(v: Vol, ch: Chains, dir: nat, name: seq<nat>, bytes: seq<nat>)
    requires Writable(v, ch, dir, name) && v.spc > 0 && |FreeSet(v)| < Needed(v, |bytes|)
    ensures var (r, v') := WriteAt(v, ch, dir, name, bytes); r == Err(Full) && FreeSet(v') == {}
  {
    hide WellFormed, Find, IsDir, SlotsAt, Stage, FreeSet, Shape, Spare, Content, Meaning, EightThree, Takes, Needed;
    ShapeOf(v, ch);
    StageSpace(v, bytes);
    LeftOver(v, Stage(v, bytes).1, Staged(v, |bytes|));
  }
}
