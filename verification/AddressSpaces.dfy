/** The operations of one user address space - mmap, munmap, brk, demand faults, creation and teardown - as functions of
    the frame pool, physical memory and the space's own records. */
module AddressSpaces {
  import opened Wrappers
  import opened Paging
  import opened PageTables
  import opened UserPages
  import opened Vmas

  const DEFAULT_USER_HEAP_START: nat := 0x5000_0000
  const HEAP := "[heap]"

  datatype Space = Space(root: nat, frames: seq<nat>, vmas: seq<VmArea>, bump: nat, heapStart: nat, heapEnd: nat)

  /** What one space's operations see: the pool, physical memory and the space. */
  datatype Vm = Vm(free: set<nat>, mem: Mem, sp: Space)

  function PtOf(vm: Vm): Pt {
    Pt(vm.free, vm.mem, vm.sp.frames)
  }

  function WithPt(vm: Vm, pt: Pt): Vm {
    Vm(pt.free, pt.mem, vm.sp.(frames := pt.frames))
  }

  /** Pages outside the kernel's own slots. */
  ghost predicate UserRange(k: Kernel, lo: nat, hi: nat) {
    hi <= VIRT_LIMIT && forall a | lo <= a < hi :: UserVa(k, a)
  }

  // ----- munmap -----

  /** The first loop of `munmap`. */
  function UnmapRange(st: Pt, root: nat, lo: nat, hi: nat): Pt
    decreases hi - lo
  {
    if lo >= hi then st else UnmapRange(UnmapAndFree(st, root, lo), root, lo + PAGE_SIZE, hi)
  }

  /** No walk reaches the range any more, and no other walk has changed. */
  ghost predicate UnmapsRange(m: Mem, m': Mem, root: nat, lo: nat, hi: nat) {
    forall v: nat | v < VIRT_LIMIT ::
      Translate(m', root, v) == if lo <= v < hi then None else Translate(m, root, v)
  }

  /** `at'` is `at` without the pages of the range, whose frames are all free. */
  ghost predicate Releases(at: Paths, at': Paths, free: set<nat>, lo: nat, hi: nat) {
    && (forall p | p in at' :: p in at && at'[p] == at[p])
    && (forall p | p in at && p !in at' :: at[p] in free)
    && (forall p | p in at && |p| < 4 :: p in at')
    && (forall v: nat | v < VIRT_LIMIT && Path(v) in at :: Path(v) in at' <==> !(lo <= v < hi))
  }

  ghost predicate UnmapsTo(st: Pt, st': Pt, k: Kernel, at: Paths, at': Paths, lo: nat, hi: nat) {
    && [] in at && Inv(st', k, at') && Local(st, st') && Owned(st'.frames) <= Owned(st.frames)
    && st.free <= st'.free <= st.free + at.Values
    && Releases(at, at', st'.free, lo, hi) && UnmapsRange(st.mem, st'.mem, at[[]], lo, hi)
    && KeepsPages(st.mem, st'.mem, st'.frames, at)
  }

  lemma {:induction false} UnmapRangeOk(st: Pt, k: Kernel, at: Paths, lo: nat, hi: nat) returns (at': Paths)
    requires Inv(st, k, at) && lo % PAGE_SIZE == 0 && hi % PAGE_SIZE == 0 && UserRange(k, lo, hi)
    ensures UnmapsTo(st, UnmapRange(st, at[[]], lo, hi), k, at, at', lo, hi)
    decreases hi - lo
  {
    hide Index, Tree, KernelOk, Ledger, Translate, Local, UnmapsOne, KeepsPages, UnmapAndFree, UnmapsTo;
    at' := at;
    if lo < hi {
      var st1, at1 := UnmapAndFree(st, at[[]], lo), at - {Path(lo)};
      UnmapAndFreeOk(st, k, at, lo);
      AlignedGap(lo, hi);
      AlignedSum(lo, PAGE_SIZE);
      RootStays(st1, k, at, at1, lo);
      at' := UnmapRangeOk(st1, k, at1, lo + PAGE_SIZE, hi);
      UnmapsMore(st, st1, UnmapRange(st1, at[[]], lo + PAGE_SIZE, hi), k, at, at1, at', lo, hi);
    } else {
      UnmapsNone(st, k, at, lo, hi);
    }
  }

  lemma RootStays(st1: Pt, k: Kernel, at: Paths, at1: Paths, lo: nat)
    requires at1 == at - {Path(lo)} && Inv(st1, k, at1)
    ensures [] in at && [] in at1 && at1[[]] == at[[]]
  {
    hide Index;
  }

  lemma UnmapsNone(st: Pt, k: Kernel, at: Paths, lo: nat, hi: nat)
    requires Inv(st, k, at) && lo >= hi
    ensures UnmapsTo(st, st, k, at, at, lo, hi)
  {
    hide Index, Translate;
  }

  lemma SamePage(lo: nat)
    requires lo % PAGE_SIZE == 0 && lo + PAGE_SIZE <= VIRT_LIMIT
    ensures forall v: nat | v < VIRT_LIMIT :: Path(v) == Path(lo) <==> lo <= v < lo + PAGE_SIZE
  {
    hide Path;
    forall v: nat | v < VIRT_LIMIT ensures Path(v) == Path(lo) <==> lo <= v < lo + PAGE_SIZE {
      PathIsPage(v, lo);
    }
  }

  lemma UnmapsMore(st: Pt, st1: Pt, st2: Pt, k: Kernel, at: Paths, at1: Paths, at2: Paths, lo: nat, hi: nat)
    requires Inv(st, k, at) && Inv(st1, k, at1) && lo % PAGE_SIZE == 0 && lo + PAGE_SIZE <= hi <= VIRT_LIMIT
    requires at1 == at - {Path(lo)} && Local(st, st1) && UnmapsOne(st.mem, st1.mem, at[[]], lo)
    requires KeepsPages(st.mem, st1.mem, st.frames, at)
    requires st1.free == st.free + (if Path(lo) in at then {at[Path(lo)]} else {})
    requires UnmapsTo(st1, st2, k, at1, at2, lo + PAGE_SIZE, hi)
    ensures UnmapsTo(st, st2, k, at, at2, lo, hi)
  {
    hide Inv, Translate, Path, Releases, KeepsPages, UnmapsRange, UnmapsOne;
    LedgerSplit(st1, k, at1);
    MoreReleased(at, at1, at2, st.free, st1.free, st2.free, lo, hi);
    MoreWalks(st.mem, st1.mem, st2.mem, at[[]], lo, hi);
    MoreKept(st, st1, st2, at, at1, lo);
    assert at1.Values <= at.Values;
    assert Path(lo) in at ==> at[Path(lo)] in at.Values;
  }

  lemma LedgerSplit(st: Pt, k: Kernel, at: Paths)
    requires Inv(st, k, at)
    ensures st.free !! Owned(st.frames)
  {
  }

  lemma MoreReleased(at: Paths, at1: Paths, at2: Paths, free: set<nat>, free1: set<nat>, free2: set<nat>, lo: nat,
      hi: nat)
    requires lo % PAGE_SIZE == 0 && lo + PAGE_SIZE <= hi <= VIRT_LIMIT && at1 == at - {Path(lo)}
    requires free1 == free + (if Path(lo) in at then {at[Path(lo)]} else {}) && free1 <= free2
    requires Releases(at1, at2, free2, lo + PAGE_SIZE, hi)
    ensures Releases(at, at2, free2, lo, hi)
  {
    hide Path;
    assert |Path(lo)| == 4;
    SamePage(lo);
  }

  lemma MoreWalks(m: Mem, m1: Mem, m2: Mem, root: nat, lo: nat, hi: nat)
    requires lo % PAGE_SIZE == 0 && lo + PAGE_SIZE <= hi <= VIRT_LIMIT
    requires UnmapsOne(m, m1, root, lo) && UnmapsRange(m1, m2, root, lo + PAGE_SIZE, hi)
    ensures UnmapsRange(m, m2, root, lo, hi)
  {
    hide Translate, Path;
    SamePage(lo);
  }

  lemma MoreKept(st: Pt, st1: Pt, st2: Pt, at: Paths, at1: Paths, lo: nat)
    requires at1 == at - {Path(lo)} && KeepsPages(st.mem, st1.mem, st.frames, at)
    requires KeepsPages(st1.mem, st2.mem, st2.frames, at1)
    requires Owned(st2.frames) <= Owned(st1.frames) && Local(st, st1) && st.free <= st1.free
    requires st1.free !! Owned(st1.frames)
    ensures Owned(st2.frames) <= Owned(st.frames) && KeepsPages(st.mem, st2.mem, st2.frames, at)
  {
    hide Path;
    assert Owned(st1.frames) <= Owned(st.frames);
    forall f | f in st2.frames && !IsTable(at, f) ensures Get(st2.mem, f) == Get(st.mem, f) {
      assert f in Owned(st2.frames);
      assert f in Owned(st.frames);
      assert !IsTable(at1, f);
    }
  }

  // ----- Taking a frame for a page -----

  datatype Taken = NoFrame | MapFailed(st: Pt) | Took(st: Pt, frame: nat)

  /** Allocate a frame, zero it, record it and map it; give it back if the mapping fails. */
  ghost function TakePage(st: Pt, root: nat, va: nat, writable: bool): Taken {
    if st.free == {} then NoFrame
    else
      var n := Lowest(st.free);
      var r := MapPage(Pt(st.free - {n}, st.mem[n := ZeroTable()], st.frames + [n]), root, va, n, writable);
      if r.ok then Took(r.st, n) else MapFailed(r.st.(free := FreeFrame(r.st.free, n)))
  }

  /** Some frame is in the pool and in use at once: the next allocation may hand it out again. */
  ghost predicate DoubleBooked(st: Pt) {
    exists f :: f in st.free && f in st.frames
  }

  /** A frame given back to the pool but still recorded; apart from it everything is in order. */
  ghost predicate Slipped(st: Pt, k: Kernel, at: Paths, n: nat) {
    && Inv(st.(free := st.free - {n}), k, at) && IsFrame(n)
    && n in st.free && n in st.frames && n !in at.Values
  }

  lemma SlippedBreaks(st: Pt, k: Kernel, at: Paths, n: nat)
    requires Slipped(st, k, at, n)
    ensures DoubleBooked(st) && !Ledger(st, k)
  {
    assert n in Owned(st.frames);
  }

  /** The pool is empty, or it can supply the page and every missing table. Between the two, the frame is returned to
      the pool but stays in `allocated_frames`. */
  predicate Affordable(st: Pt, root: nat, va: nat) {
    st.free == {} || |st.free| >= 1 + Missing(st.mem, root, 0, va)
  }

  lemma {:induction false} MissingReads(m: Mem, m': Mem, k: Kernel, at: Paths, va: nat, d: nat)
    requires Tree(m, k, at) && UserVa(k, va) && Agree(m, m', at.Values)
    requires d < 4 && Path(va)[..d] in at
    ensures Missing(m, at[Path(va)[..d]], d, va) == Missing(m', at[Path(va)[..d]], d, va)
    decreases 4 - d
  {
    var p := Path(va)[..d];
    assert at[p] in at.Values;
    if d < 3 {
      assert p + [Index(va, d)] == Path(va)[..d + 1];
      assert SlotOk(m, k, at, p, Index(va, d));
      if p + [Index(va, d)] in at { MissingReads(m, m', k, at, va, d + 1); }
    }
  }

  ghost predicate TookOk(st: Pt, st': Pt, n: nat, k: Kernel, at: Paths, at': Paths, va: nat, writable: bool) {
    && [] in at && [] in at' && at'[[]] == at[[]]
    && Inv(st', k, at') && Local(st, st')
    && n in st.free && Get(st'.mem, n) == ZeroTable()
    && MapsOne(st.mem, st'.mem, at[[]], va, n, writable)
    && KeepsPages(st.mem, st'.mem, st.frames, at) && PagesStay(st.frames, at, at')
    && Owned(st.frames) <= Owned(st'.frames) && st'.free <= st.free
    && Path(va) in at' && at'[Path(va)] == n && n in st'.frames && !IsTable(at', n)
    && Opens(at, at', va) && Path(va)[..3] in at' && |st'.free| == |st.free| - 1 - Missing(st.mem, at[[]], 0, va)
  }

  /** The new page is zeroed, mapped where it was asked for and nowhere else; and the ledger survives exactly when the
      request was affordable. */
  lemma TakePageOk(st: Pt, k: Kernel, at: Paths, va: nat, writable: bool) returns (at': Paths)
    requires Inv(st, k, at) && UserVa(k, va)
    ensures match TakePage(st, at[[]], va, writable)
      case NoFrame => st.free == {}
      case Took(st', n) => Affordable(st, at[[]], va) && TookOk(st, st', n, k, at, at', va, writable)
      case MapFailed(st') =>
        && !Affordable(st, at[[]], va) && Slipped(st', k, at', Lowest(st.free)) && [] in at' && at'[[]] == at[[]]
  {
    hide Index, Tree, KernelOk, Ledger, Translate, Local, SameWalks, MapsOne, KeepsPages, PagesStay, Owned, Missing,
      MapPage, Opens;
    at' := at;
    if st.free != {} {
      var n := Lowest(st.free);
      var st1 := Pt(st.free - {n}, st.mem[n := ZeroTable()], st.frames + [n]);
      LooseFrame(st, st1, k, at, n, va);
      at' := MapPageOk(st1, k, at, va, n, writable);
      var r := MapPage(st1, at[[]], va, n, writable);
      if r.ok {
        LooseThenMapped(st, st1, r.st, k, at, at', n, va, writable);
      } else {
        BothFreeAndOwned(r.st, k, at', n);
      }
    }
  }

  lemma LooseFrame(st: Pt, st1: Pt, k: Kernel, at: Paths, n: nat, va: nat)
    requires Inv(st, k, at) && UserVa(k, va) && n in st.free && [] in at
    requires st1 == Pt(st.free - {n}, st.mem[n := ZeroTable()], st.frames + [n])
    ensures Inv(st1, k, at) && Local(st, st1) && SameWalks(st.mem, st1.mem, at[[]])
    ensures n !in at.Values && IsFrame(n) && |st1.free| == |st.free| - 1
    ensures Missing(st1.mem, at[[]], 0, va) == Missing(st.mem, at[[]], 0, va)
  {
    hide Index, Tree, KernelOk, Ledger, Translate, Local, AgreeTables, Agree, Missing;
    NotOwned(st, k, at, n);
    FreshAgrees(st.mem, k, at, n);
    TreeReads(st.mem, st1.mem, k, at);
    assert Path(va)[..0] == [];
    MissingReads(st.mem, st1.mem, k, at, va, 0);
    TakeFrame(st, k, n, st1.mem);
  }

  lemma LooseThenMapped(st: Pt, st1: Pt, st2: Pt, k: Kernel, at: Paths, at2: Paths, n: nat, va: nat, writable: bool)
    requires n in st.free && [] in at && n !in at.Values
    requires st1 == Pt(st.free - {n}, st.mem[n := ZeroTable()], st.frames + [n]) && Ledger(st, k)
    requires Local(st, st1) && SameWalks(st.mem, st1.mem, at[[]])
    requires Local(st1, st2) && MapsOne(st1.mem, st2.mem, at[[]], va, n, writable)
    requires KeepsPages(st1.mem, st2.mem, st1.frames, at)
    requires PagesStay(st1.frames, at, at2) && Owned(st1.frames) <= Owned(st2.frames)
    ensures Local(st, st2) && MapsOne(st.mem, st2.mem, at[[]], va, n, writable)
    ensures KeepsPages(st.mem, st2.mem, st.frames, at) && Get(st2.mem, n) == ZeroTable()
    ensures PagesStay(st.frames, at, at2) && !IsTable(at2, n)
    ensures Owned(st.frames) <= Owned(st2.frames) && n in st2.frames
  {
    hide Index, Translate;
    assert !IsTable(at, n) && n !in Owned(st.frames);
    assert Owned(st1.frames) == Owned(st.frames) + {n};
  }

  lemma BothFreeAndOwned(st: Pt, k: Kernel, at: Paths, n: nat)
    requires Inv(st, k, at) && n in st.frames && n !in st.free && n !in at.Values && IsFrame(n)
    ensures Slipped(st.(free := FreeFrame(st.free, n)), k, at, n)
  {
    hide Inv;
    var st' := st.(free := FreeFrame(st.free, n));
    assert st'.(free := st'.free - {n}) == st;
  }

  // ----- Demand faults -----

  /** The tables and the ledger of a space are in order, and its areas are well formed and outside the kernel's slots;
      whether they are disjoint is another matter. */
  ghost predicate VmInv(vm: Vm, k: Kernel, at: Paths) {
    && Inv(PtOf(vm), k, at) && [] in at && at[[]] == vm.sp.root
    && AllWell(vm.sp.vmas) && AreasUser(k, vm.sp.vmas)
  }

  /** The frame a page is mapped to, with the rights the walk grants. */
  function PageAt(m: Mem, root: nat, p: nat): Option<Backing> {
    match Translate(m, root, p) case None => None case Some(leaf) => Some(Backing(leaf.base, leaf.writable, leaf.user))
  }

  /** The `populated_pages` of the areas are exactly the mapped user pages, with their frames, and a mapped page grants
      user access, and write access exactly if its area has PROT_WRITE. */
  ghost predicate Matched(k: Kernel, vs: seq<VmArea>, m: Mem, root: nat) {
    forall p: nat, f: Backing | UserPage(k, p) :: Populates(vs, p, f) <==> PageAt(m, root, p) == Some(f)
  }

  ghost predicate UserPage(k: Kernel, p: nat) {
    p % PAGE_SIZE == 0 && p < VIRT_LIMIT && UserVa(k, p)
  }

  ghost predicate AreasUser(k: Kernel, vs: seq<VmArea>) {
    forall i | 0 <= i < |vs| :: UserRange(k, vs[i].start, vs[i].End())
  }

  function FindArea(vs: seq<VmArea>, a: nat): (r: Option<nat>)
    ensures r.Some? ==> r.value < |vs| && vs[r.value].Contains(a)
    ensures r == None ==> forall i | 0 <= i < |vs| :: !vs[i].Contains(a)
  {
    if vs == [] then None
    else if vs[0].Contains(a) then Some(0)
    else match FindArea(vs[1..], a) case None => None case Some(i) => Some(i + 1)
  }

  /** The fault lies in an area that allows the access. */
  predicate Allowed(vm: Vm, a: nat, isWrite: bool) {
    match FindArea(vm.sp.vmas, a)
    case None => false
    case Some(i) =>
      var v := vm.sp.vmas[i];
      !v.guard && v.prot != 0 && (isWrite ==> v.IsWritable())
  }

  function SetPopulated(vs: seq<VmArea>, i: nat, page: nat, f: nat): seq<VmArea>
    requires i < |vs|
  {
    vs[i := vs[i].(populated := vs[i].populated[page := f])]
  }

  ghost function Fault(vm: Vm, a: nat, isWrite: bool): (bool, Vm) {
    if !Allowed(vm, a, isWrite) then (false, vm)
    else
      var i := FindArea(vm.sp.vmas, a).value;
      var page := AlignDown(a);
      match TakePage(PtOf(vm), vm.sp.root, page, vm.sp.vmas[i].IsWritable())
      case NoFrame => (false, vm)
      case MapFailed(st) => (false, WithPt(vm, st))
      case Took(st, n) =>
        var vm' := WithPt(vm, st);
        (true, vm'.(sp := vm'.sp.(vmas := SetPopulated(vm.sp.vmas, i, page, n))))
  }

  /** What a resolved fault leaves: a zeroed page with the area's rights, recorded in the area, and no other change. */
  ghost predicate FaultDone(vm: Vm, vm': Vm, k: Kernel, at: Paths, at': Paths, a: nat, n: nat) {
    && FindArea(vm.sp.vmas, a).Some?
    && var i := FindArea(vm.sp.vmas, a).value;
       && (AreasOk(vm.sp.vmas) ==> AreasOk(vm'.sp.vmas))
       && TookOk(PtOf(vm), PtOf(vm'), n, k, at, at', AlignDown(a), vm.sp.vmas[i].IsWritable())
       && vm'.sp == vm.sp.(frames := vm'.sp.frames, vmas := SetPopulated(vm.sp.vmas, i, AlignDown(a), n))
  }

  ghost predicate FaultAffordable(vm: Vm, a: nat, isWrite: bool) {
    Allowed(vm, a, isWrite) ==> Affordable(PtOf(vm), vm.sp.root, AlignDown(a))
  }

  /** A demand fault is resolved exactly when its area allows it and the pool can pay for it; the page is then zeroed,
      has the area's rights, and nothing else is mapped differently. A refused fault changes nothing, except that with
      some frames but not enough it leaves a frame both free and in use. */
  lemma FaultOk(vm: Vm, k: Kernel, at: Paths, a: nat, isWrite: bool) returns (at': Paths, n: nat)
    requires VmInv(vm, k, at)
    ensures var r := Fault(vm, a, isWrite);
      && (r.0 <==> Allowed(vm, a, isWrite) && vm.free != {} && FaultAffordable(vm, a, isWrite))
      && (r.0 ==> FaultDone(vm, r.1, k, at, at', a, n))
      && (FaultAffordable(vm, a, isWrite) ==>
            VmInv(r.1, k, at') && Local(PtOf(vm), PtOf(r.1)) && (!r.0 ==> r.1 == vm && at' == at))
      && (!FaultAffordable(vm, a, isWrite) ==> DoubleBooked(PtOf(r.1)) && !Ledger(PtOf(r.1), k))
  {
    hide Index, Tree, KernelOk, Ledger, Translate, Local, TookOk, TakePage, Affordable, DoubleBooked;
    at', n := at, 0;
    LocalRefl(PtOf(vm));
    if Allowed(vm, a, isWrite) {
      var i, page := FindArea(vm.sp.vmas, a).value, AlignDown(a);
      var v := vm.sp.vmas[i];
      PageInArea(v, a);
      assert UserRange(k, v.start, v.End());
      at' := TakePageOk(PtOf(vm), k, at, page, v.IsWritable());
      var t := TakePage(PtOf(vm), vm.sp.root, page, v.IsWritable());
      var vm' := Fault(vm, a, isWrite).1;
      if t.Took? {
        SetPopulatedOk(k, vm.sp.vmas, i, page, t.frame);
        TookInv(PtOf(vm), t.st, t.frame, k, at, at', page, v.IsWritable());
        n := t.frame;
        assert PtOf(vm') == t.st;
        assert vm'.sp == vm.sp.(frames := vm'.sp.frames, vmas := SetPopulated(vm.sp.vmas, i, page, t.frame));
      } else {
        var bad := at';
        at' := at;
        EmptyAffordable(PtOf(vm), vm.sp.root, page);
        if t.MapFailed? {
          assert PtOf(vm') == t.st;
          SlippedBreaks(t.st, k, bad, Lowest(vm.free));
        }
      }
    }
  }

  lemma EmptyAffordable(st: Pt, root: nat, va: nat)
    ensures st.free == {} ==> Affordable(st, root, va)
  {
  }

  lemma LocalRefl(st: Pt)
    ensures Local(st, st)
  {
  }

  lemma TookInv(st: Pt, st': Pt, n: nat, k: Kernel, at: Paths, at': Paths, va: nat, writable: bool)
    requires TookOk(st, st', n, k, at, at', va, writable)
    ensures Inv(st', k, at') && Local(st, st') && [] in at' && [] in at && at'[[]] == at[[]] && n in st.free
  {
  }

  lemma PageInArea(v: VmArea, a: nat)
    requires v.WellFormed() && v.Contains(a)
    ensures v.Contains(AlignDown(a)) && AlignDown(a) + PAGE_SIZE <= v.End()
  {
    AlignedSum(v.start, v.size);
  }

  lemma SetPopulatedOk(k: Kernel, vs: seq<VmArea>, i: nat, page: nat, f: nat)
    requires i < |vs| && AllWell(vs) && AreasUser(k, vs) && vs[i].Contains(page) && page % PAGE_SIZE == 0
    ensures var ws := SetPopulated(vs, i, page, f);
      AllWell(ws) && AreasUser(k, ws) && (AreasOk(vs) ==> AreasOk(ws))
  {
    hide UserVa;
    var ws := SetPopulated(vs, i, page, f);
    forall j | 0 <= j < |ws| ensures ws[j].WellFormed() && UserRange(k, ws[j].start, ws[j].End()) {
      assert vs[j].WellFormed() && UserRange(k, vs[j].start, vs[j].End());
    }
    if AreasOk(vs) {
      forall j, l | 0 <= j < l < |ws| ensures Apart(ws[j], ws[l]) { assert Apart(vs[j], vs[l]); }
    }
  }

  /** Another page has another path. */
  lemma OtherPage(p: nat, page: nat)
    requires p % PAGE_SIZE == 0 && page % PAGE_SIZE == 0 && p < VIRT_LIMIT && page < VIRT_LIMIT && p != page
    ensures Path(p) != Path(page)
  {
    hide Path;
    PathIsPage(p, page);
  }

  /** Recording a new page where it was mapped keeps records and tables matched. */
  lemma SetPopulatedMatched(k: Kernel, vs: seq<VmArea>, m: Mem, m': Mem, root: nat, i: nat, page: nat, f: nat,
      writable: bool)
    requires AreasOk(vs) && Matched(k, vs, m, root) && i < |vs| && vs[i].Contains(page) && page % PAGE_SIZE == 0
    requires page < VIRT_LIMIT && MapsOne(m, m', root, page, f, writable) && (writable <==> Writes(vs[i].prot))
    ensures Matched(k, SetPopulated(vs, i, page, f), m', root)
  {
    hide Path, Translate, UserVa;
    var ws := SetPopulated(vs, i, page, f);
    forall p: nat, g: Backing | UserPage(k, p) ensures Populates(ws, p, g) <==> PageAt(m', root, p) == Some(g) {
      if p == page {
        OnlyThere(vs, i, page, f, g);
      } else {
        OtherPage(p, page);
        SameElsewhere(vs, i, page, f, p, g);
      }
    }
  }

  lemma OnlyThere(vs: seq<VmArea>, i: nat, page: nat, f: nat, g: Backing)
    requires AreasOk(vs) && i < |vs| && vs[i].Contains(page)
    ensures Populates(SetPopulated(vs, i, page, f), page, g) <==> g == Backing(f, Writes(vs[i].prot), true)
  {
    var ws := SetPopulated(vs, i, page, f);
    assert Records(ws[i], page, Backing(f, Writes(vs[i].prot), true));
    forall j | 0 <= j < |vs| && j != i ensures page !in ws[j].populated {
      assert ws[j] == vs[j] && vs[j].WellFormed() && (Apart(vs[i], vs[j]) || Apart(vs[j], vs[i]));
    }
  }

  lemma SameElsewhere(vs: seq<VmArea>, i: nat, page: nat, f: nat, p: nat, g: Backing)
    requires i < |vs| && p != page
    ensures Populates(SetPopulated(vs, i, page, f), p, g) <==> Populates(vs, p, g)
  {
    var ws := SetPopulated(vs, i, page, f);
    assert forall j | 0 <= j < |vs| :: Records(ws[j], p, g) <==> Records(vs[j], p, g);
  }
}
