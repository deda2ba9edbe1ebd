/** mmap: placing a new area, and filling it eagerly on request. */
module Mmap {
  import opened Wrappers
  import opened Paging
  import opened PageTables
  import opened UserPages
  import opened Vmas
  import opened AddressSpaces
  import opened VmCalls
  import opened PoolNeeds

  /** MAP_FIXED, MAP_POPULATE and PROT_WRITE are single bits. */
  predicate IsFixed(flags: nat) { flags / 0x10 % 2 == 1 }

  predicate WantsPopulate(flags: nat) { flags / 0x8000 % 2 == 1 }

  predicate AllowsWrite(prot: nat) { prot / 2 % 2 == 1 }

  /** Where the search starts: the hint if it lies in the window, else the bump pointer. */
  function Candidate(sp: Space, hint: Option<nat>): (c: nat)
    ensures c % PAGE_SIZE == 0 && c >= MMAP_BASE_START
  {
    var c := if hint.Some? && MMAP_BASE_START <= AlignUp(hint.value) < MMAP_BASE_END then AlignUp(hint.value)
             else AlignUp(sp.bump);
    if c < MMAP_BASE_START then MMAP_BASE_START else c
  }

  function Place(sp: Space, hint: Option<nat>, len: nat, flags: nat): Result<nat> {
    if IsFixed(flags) then
      if hint == None || hint.value % PAGE_SIZE != 0 then Err(InvalidAddress)
      else if Conflict(sp.vmas, hint.value, len).Some? then Err(Overlap)
      else Ok(hint.value)
    else
      match FirstFit(sp.vmas, Candidate(sp, hint), len)
      case None => Err(OutOfMemory)
      case Some(c) => Ok(c)
  }

  /** The request sets MAP_FIXED, bit 4; MAP_POPULATE, bit 15. */
  predicate AsksFixed(flags: nat) { flags % 0x20 >= 0x10 }

  predicate AsksPopulate(flags: nat) { flags % 0x1_0000 >= 0x8000 }

  /** A page-aligned hint, rounded up, lies in the window. */
  predicate HintCounts(hint: Option<nat>) {
    hint.Some? && MMAP_BASE_START - PAGE_SIZE < hint.value <= MMAP_BASE_END - PAGE_SIZE
  }

  /** The search starts at the first page boundary from the hint on, if that counts, and else from the end of the last
      area placed by search, but not below the window. */
  predicate StartsAt(sp: Space, hint: Option<nat>, s: nat) {
    var from := if HintCounts(hint) then hint.value else if sp.bump < MMAP_BASE_START then MMAP_BASE_START else sp.bump;
    s % PAGE_SIZE == 0 && from <= s < from + PAGE_SIZE
  }

  /** Without MAP_FIXED the area goes to the lowest free place from the start of the search on, and the request fails
      only when there is none; with MAP_FIXED it goes exactly where asked or nowhere. */
  lemma PlaceOk(sp: Space, hint: Option<nat>, len: nat, flags: nat) returns (s: nat)
    ensures StartsAt(sp, hint, s) && s >= MMAP_BASE_START
    ensures match Place(sp, hint, len, flags)
      case Ok(a) =>
        && a % PAGE_SIZE == 0 && RangeFree(sp.vmas, a, len)
        && (AsksFixed(flags) ==> hint == Some(a))
        && (!AsksFixed(flags) ==>
              && s <= a && a + len <= MMAP_BASE_END
              && forall x | s <= x < a && x % PAGE_SIZE == 0 :: !RangeFree(sp.vmas, x, len))
      case Err(e) =>
        && (AsksFixed(flags) ==>
              if hint == None || hint.value % PAGE_SIZE != 0 then e == InvalidAddress
              else e == Overlap && !RangeFree(sp.vmas, hint.value, len))
        && (!AsksFixed(flags) ==>
              && e == OutOfMemory
              && forall x | s <= x && x + len <= MMAP_BASE_END && x % PAGE_SIZE == 0 :: !RangeFree(sp.vmas, x, len))
  {
    hide RangeFree, FirstFit, Conflict;
    s := Candidate(sp, hint);
    StartIs(sp, hint);
    FixedBit(flags);
    if !AsksFixed(flags) { FirstFitOk(sp.vmas, s, len); } else if hint.Some? { ConflictIs(sp.vmas, hint.value, len); }
  }

  lemma FixedBit(flags: nat)
    ensures IsFixed(flags) <==> AsksFixed(flags)
  {
  }

  lemma PopulateBit(flags: nat)
    ensures WantsPopulate(flags) <==> AsksPopulate(flags)
  {
  }

  lemma WriteBitOf(prot: nat)
    ensures AllowsWrite(prot) <==> Writes(prot)
  {
  }

  lemma ConflictIs(vs: seq<VmArea>, a: nat, len: nat)
    ensures Conflict(vs, a, len) == None <==> RangeFree(vs, a, len)
  {
  }

  lemma StartIs(sp: Space, hint: Option<nat>)
    ensures StartsAt(sp, hint, Candidate(sp, hint))
  {
  }

  /** A range is free exactly when no address of it is in an area. */
  lemma FreeMeans(vs: seq<VmArea>, a: nat, len: nat)
    requires AllWell(vs) && len > 0
    ensures RangeFree(vs, a, len) <==> forall i, x | 0 <= i < |vs| && a <= x < a + len :: !vs[i].Contains(x)
  {
    if !RangeFree(vs, a, len) {
      var i :| 0 <= i < |vs| && vs[i].Overlaps(a, len);
      assert vs[i].WellFormed();
      var x := if a < vs[i].start then vs[i].start else a;
      assert vs[i].Contains(x);
    }
  }

  function Push(vm: Vm, v: VmArea): Vm {
    vm.(sp := vm.sp.(vmas := vm.sp.vmas + [v]))
  }

  function SetBump(vm: Vm, flags: nat, a: nat, n: nat): Vm {
    if IsFixed(flags) then vm else vm.(sp := vm.sp.(bump := AlignUp(a + n)))
  }

  ghost function Mmap(vm: Vm, hint: Option<nat>, len: nat, prot: nat, flags: nat): (Result<nat>, Vm) {
    if len == 0 then (Err(InvalidArguments), vm)
    else
      var n := AlignUp(len);
      match Place(vm.sp, hint, n, flags)
      case Err(e) => (Err(e), vm)
      case Ok(a) =>
        var vm1, v := SetBump(vm, flags, a, n), VmArea(a, n, prot, flags, false, "[mmap]", map[]);
        if !WantsPopulate(flags) then (Ok(a), Push(vm1, v))
        else
          match Populate(PtOf(vm1), vm1.sp.root, a, a + n, AllowsWrite(prot), map[])
          case Filled(st, pages) => (Ok(a), Push(WithPt(vm1, st), v.(populated := pages)))
          case Stopped(st, at) => (Err(OutOfMemory), Munmap(WithPt(vm1, st), a, at - a).1)
  }

  /** The pages the call may touch are the space's own. */
  ghost predicate MmapUser(vm: Vm, k: Kernel, hint: Option<nat>, len: nat, flags: nat) {
    && !k.pdpt[1].present
    && (IsFixed(flags) && len > 0 && Place(vm.sp, hint, AlignUp(len), flags).Ok? ==>
          var a := Place(vm.sp, hint, AlignUp(len), flags).value; UserRange(k, a, a + AlignUp(len)))
  }

  /** No page it asks for finds the pool between empty and sufficient. */
  ghost predicate MmapPaid(vm: Vm, hint: Option<nat>, len: nat, prot: nat, flags: nat) {
    WantsPopulate(flags) && len > 0 && Place(vm.sp, hint, AlignUp(len), flags).Ok? ==>
      var a := Place(vm.sp, hint, AlignUp(len), flags).value;
      PopulateSafe(PtOf(vm), vm.sp.root, a, a + AlignUp(len), AllowsWrite(prot))
  }

  /** The default window lies in PDPT slot 1. */
  lemma WindowIsUser(k: Kernel, lo: nat, hi: nat)
    requires !k.pdpt[1].present && 0x4000_0000 <= lo && hi <= 0x8000_0000
    ensures UserRange(k, lo, hi)
  {
  }

  lemma {:induction false} CutNothing(vs: seq<VmArea>, a: nat, n: nat, hi: nat)
    requires RangeFree(vs, a, n) && a <= hi <= a + n
    ensures CutAll(vs, a, hi) == vs
  {
    if vs != [] {
      assert !vs[0].Overlaps(a, n);
      CutNothing(vs[1..], a, n, hi);
    }
  }

  lemma PushOk(vm: Vm, k: Kernel, at: Paths, v: VmArea)
    requires VmInv(vm, k, at) && v.WellFormed() && RangeFree(vm.sp.vmas, v.start, v.size)
    requires UserRange(k, v.start, v.End())
    ensures VmInv(Push(vm, v), k, at) && (AreasOk(vm.sp.vmas) ==> AreasOk(Push(vm, v).sp.vmas))
  {
  }

  ghost predicate MmapDone(vm: Vm, vm': Vm, at': Paths, a: nat, n: nat, prot: nat, flags: nat) {
    && |vm'.sp.vmas| == |vm.sp.vmas| + 1
    && var v := vm'.sp.vmas[|vm.sp.vmas|];
       && vm'.sp.vmas == vm.sp.vmas + [v]
       && v == VmArea(a, n, prot, flags, false, "[mmap]", v.populated)
       && (!AsksPopulate(flags) ==> PtOf(vm') == PtOf(vm) && v.populated == map[])
       && (AsksPopulate(flags) ==> AllReady(PtOf(vm'), at', vm.sp.root, a, a + n, v.populated, AllowsWrite(prot)))
  }

  /** Every address of the range translates as before or not at all, and every other address as before. */
  ghost predicate SameOrNone(m: Mem, m': Mem, root: nat, lo: nat, hi: nat) {
    forall v: nat | v < VIRT_LIMIT ::
      Translate(m', root, v) == Translate(m, root, v) || (lo <= v < hi && Translate(m', root, v) == None)
  }

  /** A failed `mmap` leaves the areas as they were and no address of the chosen range newly mapped. */
  ghost predicate MmapUndone(vm: Vm, vm': Vm, p: Result<nat>, n: nat) {
    && vm'.sp.vmas == vm.sp.vmas
    && (p.Err? ==> vm' == vm)
    && (p.Ok? ==> SameOrNone(vm.mem, vm'.mem, vm.sp.root, p.value, p.value + n))
  }

  /** What every `mmap` keeps: the areas stay disjoint, the records stay in step with the tables, and translations
      outside the chosen range do not change. */
  ghost predicate MmapKeeps(vm: Vm, vm': Vm, k: Kernel, a: nat, n: nat) {
    && (AreasOk(vm.sp.vmas) ==> AreasOk(vm'.sp.vmas))
    && (Matched(k, vm.sp.vmas, vm.mem, vm.sp.root) ==> Matched(k, vm'.sp.vmas, vm'.mem, vm.sp.root))
    && SameOutside(vm.mem, vm'.mem, vm.sp.root, a, a + n)
    && vm'.sp == vm.sp.(frames := vm'.sp.frames, vmas := vm'.sp.vmas, bump := vm'.sp.bump)
  }

  /** `mmap` adds exactly one area at the chosen place, backed at once by zeroed frames under MAP_POPULATE. It fails
      exactly when there is no place, or under MAP_POPULATE when the pool holds fewer frames than the pages and the
      absent tables need, and then leaves nothing behind. */
  lemma MmapOk(vm: Vm, k: Kernel, at: Paths, hint: Option<nat>, len: nat, prot: nat, flags: nat) returns (at': Paths)
    requires VmInv(vm, k, at) && MmapUser(vm, k, hint, len, flags) && MmapPaid(vm, hint, len, prot, flags)
    ensures var (r, vm') := Mmap(vm, hint, len, prot, flags); var n := AlignUp(len);
      var p := Place(vm.sp, hint, n, flags);
      && VmInv(vm', k, at') && Local(PtOf(vm), PtOf(vm'))
      && (r.Ok? ==> len > 0 && p == r && MmapDone(vm, vm', at', r.value, n, prot, flags))
      && (r.Err? ==> MmapUndone(vm, vm', p, n))
      && (r.Err? <==> len == 0 || p.Err? || (AsksPopulate(flags) && |vm.free| < Needs(at, p.value, p.value + n)))
      && (p.Ok? ==> MmapKeeps(vm, vm', k, p.value, n))
      && (p.Err? ==> vm' == vm)
      && (len > 0 && p.Ok? ==> vm'.sp.bump == if AsksFixed(flags) then vm.sp.bump else p.value + n)
  {
    hide Index, Inv, Translate, Local, Place, Populate, PopulateSafe, PageReady, AllReady, SameOutside, SameOrNone,
      Matched, AreasOk, Munmap, UserVa, Needs;
    at' := at;
    LocalRefl(PtOf(vm));
    PopulateBit(flags);
    var p, n := Place(vm.sp, hint, AlignUp(len), flags), AlignUp(len);
    if p.Ok? { SameRefl(vm.mem, vm.sp.root, p.value, p.value + n); }
    if len > 0 && p.Ok? {
      var a, vm1 := p.value, SetBump(vm, flags, p.value, n);
      var _ := PlaceOk(vm.sp, hint, n, flags);
    FixedBit(flags);
      AlignedSum(a, n);
      AlignedUp(a + n);
      if !IsFixed(flags) { WindowIsUser(k, a, a + n); }
      var v := VmArea(a, n, prot, flags, false, "[mmap]", map[]);
      assert PtOf(vm1) == PtOf(vm);
      if !WantsPopulate(flags) {
        PushOk(vm1, k, at, v);
        EmptyMatched(k, vm.sp.vmas, v, vm.mem, vm.sp.root);
        assert PtOf(Push(vm1, v)) == PtOf(vm);
      } else {
        PopulateCount(PtOf(vm), k, at, a, a + n, AllowsWrite(prot), map[]);
        at' := MmapPopulated(vm, vm1, k, at, a, n, prot, flags);
      }
    }
  }

  /** If some page does, `mmap` fails and leaves a frame both free and in use, even after its clean-up. */
  lemma MmapShort(vm: Vm, k: Kernel, at: Paths, hint: Option<nat>, len: nat, prot: nat, flags: nat)
    requires VmInv(vm, k, at) && MmapUser(vm, k, hint, len, flags) && !MmapPaid(vm, hint, len, prot, flags)
    ensures var (r, vm') := Mmap(vm, hint, len, prot, flags); r == Err(OutOfMemory) && DoubleBooked(PtOf(vm'))
  {
    hide Inv, Place, Populate, PopulateSafe, UserVa, Slipped, Advances, AllReady, SameOutside, Munmap, DoubleBooked,
      AlignUp, AllWell, AreasUser;
    AlignsUp(len);
    var n := AlignUp(len);
    var a := Place(vm.sp, hint, n, flags).value;
    var _ := PlaceOk(vm.sp, hint, n, flags);
    FixedBit(flags);
    AlignedSum(a, n);
    if !IsFixed(flags) { WindowIsUser(k, a, a + n); }
    assert PtOf(SetBump(vm, flags, a, n)) == PtOf(vm);
    var bad := PopulateOk(PtOf(vm), k, at, a, a + n, AllowsWrite(prot), map[]);
    var r := Populate(PtOf(vm), vm.sp.root, a, a + n, AllowsWrite(prot), map[]);
    var f :| Slipped(r.st, k, bad, f);
    var vm2 := WithPt(SetBump(vm, flags, a, n), r.st);
    assert PtOf(vm2) == r.st;
    UndoShort(vm2, k, bad, f, a, n, r.at);
  }

  lemma AlignsUp(len: nat)
    ensures AlignUp(len) % PAGE_SIZE == 0 && AlignUp(len) >= len
  {
  }

  lemma UndoShort(vm: Vm, k: Kernel, at: Paths, f: nat, a: nat, n: nat, x: nat)
    requires Slipped(PtOf(vm), k, at, f) && [] in at && at[[]] == vm.sp.root && UserRange(k, a, a + n)
    requires a % PAGE_SIZE == 0 && x % PAGE_SIZE == 0 && a <= x < a + n
    ensures DoubleBooked(PtOf(Munmap(vm, a, x - a).1))
  {
    hide Slipped, UserVa, UnmapRange, DoubleBooked, AlignUp, CutAll;
    AlignedGap(a, x);
    AlignedUp(x - a);
    if x == a {
      SlippedBreaks(PtOf(vm), k, at, f);
    } else {
      SlippedStays(PtOf(vm), k, at, f, a, x);
      assert PtOf(Munmap(vm, a, x - a).1) == UnmapRange(PtOf(vm), vm.sp.root, a, x);
    }
  }

  lemma SameRefl(m: Mem, root: nat, lo: nat, hi: nat)
    ensures SameOutside(m, m, root, lo, hi) && SameOrNone(m, m, root, lo, hi)
  {
  }

  lemma EmptyMatched(k: Kernel, vs: seq<VmArea>, v: VmArea, m: Mem, root: nat)
    requires v.populated == map[]
    ensures Matched(k, vs, m, root) ==> Matched(k, vs + [v], m, root)
  {
    hide UserPage, PageAt;
    forall p: nat, f: Backing ensures Populates(vs + [v], p, f) <==> Populates(vs, p, f) {
      PopulatesAppend(vs, [v], p, f);
    }
  }

  lemma LocalTwice(st: Pt, st1: Pt, st2: Pt)
    requires Local(st, st1) && Local(st1, st2)
    ensures Local(st, st2)
  {
  }

  lemma AdvancesParts(st: Pt, st': Pt, k: Kernel, at: Paths, at': Paths, lo: nat, hi: nat)
    requires Advances(st, st', k, at, at', lo, hi)
    ensures Inv(st', k, at') && Local(st, st') && [] in at && [] in at' && at'[[]] == at[[]]
    ensures SameOutside(st.mem, st'.mem, at[[]], lo, hi)
  {
  }

  /** A free range holds no record. */
  lemma FreeRangeEmpty(vs: seq<VmArea>, a: nat, n: nat, p: nat, f: Backing)
    requires AllWell(vs) && RangeFree(vs, a, n) && a <= p < a + n
    ensures !Populates(vs, p, f)
  {
    forall i | 0 <= i < |vs| ensures p !in vs[i].populated {
      assert vs[i].WellFormed() && !vs[i].Overlaps(a, n);
    }
  }

  /** Filling a free range and recording it keeps records and tables in step. */
  lemma FilledMatched(k: Kernel, vs: seq<VmArea>, v: VmArea, st: Pt, st': Pt, at': Paths, root: nat, writable: bool)
    requires AllWell(vs) && RangeFree(vs, v.start, v.size) && Matched(k, vs, st.mem, root)
    requires SameOutside(st.mem, st'.mem, root, v.start, v.End())
    requires AllReady(st', at', root, v.start, v.End(), v.populated, writable)
    requires (writable <==> Writes(v.prot)) && forall p | p in v.populated :: v.start <= p < v.End()
    ensures Matched(k, vs + [v], st'.mem, root)
  {
    hide Translate, UserVa;
    forall p: nat, f: Backing | UserPage(k, p)
      ensures Populates(vs + [v], p, f) <==> PageAt(st'.mem, root, p) == Some(f)
    {
      PopulatesAppend(vs, [v], p, f);
      assert Populates([v], p, f) <==> Records([v][0], p, f);
      if v.start <= p < v.End() {
        FreeRangeEmpty(vs, v.start, v.size, p, f);
        assert PageReady(st', at', root, p, v.populated[p], writable);
      }
    }
  }

  /** Undoing inside a free range keeps records and tables in step. */
  lemma UndoneMatched(k: Kernel, vs: seq<VmArea>, a: nat, n: nat, m: Mem, m': Mem, root: nat)
    requires AllWell(vs) && RangeFree(vs, a, n) && Matched(k, vs, m, root) && SameOrNone(m, m', root, a, a + n)
    ensures Matched(k, vs, m', root)
  {
    hide Translate, UserVa;
    forall p: nat, f: Backing | UserPage(k, p) ensures Populates(vs, p, f) <==> PageAt(m', root, p) == Some(f) {
      if a <= p < a + n { FreeRangeEmpty(vs, a, n, p, f); }
    }
  }

  lemma MmapPopulated(vm: Vm, vm1: Vm, k: Kernel, at: Paths, a: nat, n: nat, prot: nat, flags: nat) returns (at': Paths)
    requires VmInv(vm, k, at) && vm1 == SetBump(vm, flags, a, n) && WantsPopulate(flags)
    requires a % PAGE_SIZE == 0 && n % PAGE_SIZE == 0 && n > 0 && RangeFree(vm.sp.vmas, a, n) && UserRange(k, a, a + n)
    requires PopulateSafe(PtOf(vm), vm.sp.root, a, a + n, AllowsWrite(prot))
    ensures var v := VmArea(a, n, prot, flags, false, "[mmap]", map[]);
      match Populate(PtOf(vm1), vm1.sp.root, a, a + n, AllowsWrite(prot), map[])
      case Filled(st, pages) =>
        var vm' := Push(WithPt(vm1, st), v.(populated := pages));
        && VmInv(vm', k, at') && Local(PtOf(vm), PtOf(vm')) && MmapDone(vm, vm', at', a, n, prot, flags)
        && MmapKeeps(vm, vm', k, a, n) && vm'.sp.bump == vm1.sp.bump
      case Stopped(st, x) =>
        x >= a &&
        var vm' := Munmap(WithPt(vm1, st), a, x - a).1;
        && VmInv(vm', k, at') && Local(PtOf(vm), PtOf(vm')) && MmapUndone(vm, vm', Ok(a), n)
        && MmapKeeps(vm, vm', k, a, n) && vm'.sp.bump == vm1.sp.bump
  {
    hide Index, Inv, Translate, Local, Populate, PopulateSafe, PageReady, AllReady, SameOutside, SameOrNone, Matched,
      Munmap, UserVa, Advances;
    assert PtOf(vm1) == PtOf(vm);
    PopulateBit(flags);
    AlignedSum(a, n);
    at' := PopulateOk(PtOf(vm), k, at, a, a + n, AllowsWrite(prot), map[]);
    var r := Populate(PtOf(vm), vm.sp.root, a, a + n, AllowsWrite(prot), map[]);
    AdvancesParts(PtOf(vm), r.st, k, at, at', a, a + n);
    var vm2 := WithPt(vm1, r.st);
    assert PtOf(vm2) == r.st;
    assert VmInv(vm2, k, at');
    if r.Filled? {
      var v := VmArea(a, n, prot, flags, false, "[mmap]", r.pages);
      PushOk(vm2, k, at', v);
      assert PtOf(Push(vm2, v)) == r.st;
      if Matched(k, vm.sp.vmas, vm.mem, vm.sp.root) {
        WriteBitOf(prot);
        FilledMatched(k, vm.sp.vmas, v, PtOf(vm), r.st, at', vm.sp.root, AllowsWrite(prot));
      }
    } else {
      at' := UndoPopulate(vm, vm2, k, at', a, n, r.at);
    }
  }

  /** The clean-up after a populate that stopped at page `x`. */
  lemma UndoPopulate(vm: Vm, vm2: Vm, k: Kernel, at: Paths, a: nat, n: nat, x: nat) returns (at': Paths)
    requires VmInv(vm2, k, at) && Local(PtOf(vm), PtOf(vm2)) && vm2.sp.root == vm.sp.root && vm2.sp.vmas == vm.sp.vmas
    requires vm2.sp == vm.sp.(frames := vm2.sp.frames, bump := vm2.sp.bump)
    requires SameOutside(vm.mem, vm2.mem, vm.sp.root, a, x)
    requires RangeFree(vm.sp.vmas, a, n) && UserRange(k, a, a + n)
    requires a % PAGE_SIZE == 0 && x % PAGE_SIZE == 0 && a <= x < a + n
    ensures var vm' := Munmap(vm2, a, x - a).1;
      && VmInv(vm', k, at') && Local(PtOf(vm), PtOf(vm')) && MmapUndone(vm, vm', Ok(a), n)
      && MmapKeeps(vm, vm', k, a, n) && vm'.sp.bump == vm2.sp.bump
  {
    hide Inv, Local, UserVa, UnmapsTo, UnmapRange, CutAll, Subtracts, AreasOk, AllWell, AreasUser, Matched, SameOutside,
      SameOrNone, AlignUp;
    AlignedGap(a, x);
    AlignedUp(x - a);
    at' := MunmapOk(vm2, k, at, a, x - a);
    var vm' := Munmap(vm2, a, x - a).1;
    LocalTwice(PtOf(vm), PtOf(vm2), PtOf(vm'));
    if x > a {
      UnmapsWalks(PtOf(vm2), PtOf(vm'), k, at, at', a, x);
      CutNothing(vm.sp.vmas, a, n, x);
      OutsideThenUnmap(vm.mem, vm2.mem, vm'.mem, vm.sp.root, a, x, a + n);
    } else {
      OutsideNothing(vm.mem, vm'.mem, vm.sp.root, a, a + n);
    }
    if Matched(k, vm.sp.vmas, vm.mem, vm.sp.root) {
      UndoneMatched(k, vm.sp.vmas, a, n, vm.mem, vm'.mem, vm.sp.root);
    }
  }

  lemma AlignedUp(x: nat)
    requires x % PAGE_SIZE == 0
    ensures AlignUp(x) == x
  {
  }

  lemma OutsideThenUnmap(m: Mem, m1: Mem, m2: Mem, root: nat, lo: nat, mid: nat, hi: nat)
    requires SameOutside(m, m1, root, lo, mid) && UnmapsRange(m1, m2, root, lo, mid) && mid <= hi
    ensures SameOutside(m, m2, root, lo, hi) && SameOrNone(m, m2, root, lo, hi)
  {
  }

  lemma OutsideNothing(m: Mem, m': Mem, root: nat, lo: nat, hi: nat)
    requires SameOutside(m, m', root, lo, lo)
    ensures SameOutside(m, m', root, lo, hi) && SameOrNone(m, m', root, lo, hi)
  {
  }
}
