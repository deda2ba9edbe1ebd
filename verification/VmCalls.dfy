/** mmap, munmap and brk on one address space. */
module VmCalls {
  import opened Wrappers
  import opened Paging
  import opened PageTables
  import opened UserPages
  import opened Vmas
  import opened AddressSpaces

  datatype VmmError = OutOfMemory | InvalidAddress | InvalidArguments | Overlap

  datatype Result<+T> = Ok(value: T) | Err(error: VmmError)

  // ----- munmap -----

  predicate MunmapArgsOk(addr: nat, len: nat) {
    len != 0 && addr % PAGE_SIZE == 0
  }

  function Munmap(vm: Vm, addr: nat, len: nat): (Result<()>, Vm) {
    if !MunmapArgsOk(addr, len) then (Err(InvalidArguments), vm)
    else
      var hi := addr + AlignUp(len);
      var vm' := WithPt(vm, UnmapRange(PtOf(vm), vm.sp.root, addr, hi));
      (Ok(()), vm'.(sp := vm'.sp.(vmas := CutAll(vm.sp.vmas, addr, hi))))
  }

  /** `munmap` removes the range from the page tables and from the areas, returns its frames, and touches nothing
      outside it; bad arguments change nothing. */
  lemma MunmapOk(vm: Vm, k: Kernel, at: Paths, addr: nat, len: nat) returns (at': Paths)
    requires VmInv(vm, k, at)
    requires MunmapArgsOk(addr, len) ==> UserRange(k, addr, addr + AlignUp(len))
    ensures var (r, vm') := Munmap(vm, addr, len); var hi := addr + AlignUp(len);
      && VmInv(vm', k, at') && Local(PtOf(vm), PtOf(vm'))
      && (r.Ok? <==> len != 0 && addr % PAGE_SIZE == 0)
      && (r.Err? ==> r == Err(InvalidArguments) && vm' == vm)
      && (r.Err? ==> at' == at)
      && (r.Ok? ==> UnmapsTo(PtOf(vm), PtOf(vm'), k, at, at', addr, hi) && Subtracts(vm.sp.vmas, vm'.sp.vmas, addr, hi))
      && (AreasOk(vm.sp.vmas) ==> AreasOk(vm'.sp.vmas))
      && vm'.sp == vm.sp.(frames := vm'.sp.frames, vmas := vm'.sp.vmas)
  {
    hide Index, Tree, KernelOk, Ledger, Translate, Local, UnmapRange, UnmapsTo, Subtracts, CutAll;
    at' := at;
    LocalRefl(PtOf(vm));
    if MunmapArgsOk(addr, len) {
      var hi := addr + AlignUp(len);
      AlignedSum(addr, AlignUp(len));
      at' := UnmapRangeOk(PtOf(vm), k, at, addr, hi);
      UnmapsInv(PtOf(vm), UnmapRange(PtOf(vm), vm.sp.root, addr, hi), k, at, at', addr, hi);
      CutAllSubtracts(vm.sp.vmas, addr, hi);
      if AreasOk(vm.sp.vmas) { CutAllOk(vm.sp.vmas, addr, hi); }
      CutAllUser(k, vm.sp.vmas, addr, hi);
      assert PtOf(Munmap(vm, addr, len).1) == UnmapRange(PtOf(vm), vm.sp.root, addr, hi);
    }
  }

  lemma UnmapsInv(st: Pt, st': Pt, k: Kernel, at: Paths, at': Paths, lo: nat, hi: nat)
    requires UnmapsTo(st, st', k, at, at', lo, hi)
    ensures Inv(st', k, at') && Local(st, st') && [] in at && [] in at' && at'[[]] == at[[]]
  {
  }

  lemma UnmapsWalks(st: Pt, st': Pt, k: Kernel, at: Paths, at': Paths, lo: nat, hi: nat)
    requires UnmapsTo(st, st', k, at, at', lo, hi)
    ensures UnmapsRange(st.mem, st'.mem, at[[]], lo, hi)
  {
  }

  lemma CutAllUser(k: Kernel, vs: seq<VmArea>, lo: nat, hi: nat)
    requires lo <= hi && AreasUser(k, vs) && Subtracts(vs, CutAll(vs, lo, hi), lo, hi) && AllWell(CutAll(vs, lo, hi))
    ensures AreasUser(k, CutAll(vs, lo, hi))
  {
    hide CutAll, UserVa;
    var ws := CutAll(vs, lo, hi);
    forall j | 0 <= j < |ws| ensures UserRange(k, ws[j].start, ws[j].End()) {
      var w := ws[j];
      assert w.WellFormed();
      forall a: nat | w.Contains(a) ensures UserVa(k, a) && a < VIRT_LIMIT {
        assert Covers(ws, a, AttrsOf(w));
        var i :| 0 <= i < |vs| && vs[i].Contains(a) && AttrsOf(vs[i]) == AttrsOf(w);
        assert UserRange(k, vs[i].start, vs[i].End());
      }
      assert w.Contains(w.End() - 1);
    }
  }

  /** `munmap` keeps records and tables matched. */
  lemma UnmapMatched(k: Kernel, vs: seq<VmArea>, ws: seq<VmArea>, m: Mem, m': Mem, root: nat, lo: nat, hi: nat)
    requires Matched(k, vs, m, root) && Subtracts(vs, ws, lo, hi) && UnmapsRange(m, m', root, lo, hi)
    ensures Matched(k, ws, m', root)
  {
    hide Translate, UserVa;
  }

  // ----- Eager population -----

  datatype Populated = Filled(st: Pt, pages: map<nat, nat>) | Stopped(st: Pt, at: nat)

  /** The MAP_POPULATE loop of `mmap`, from page `va`. */
  ghost function Populate(st: Pt, root: nat, va: nat, end: nat, writable: bool, pages: map<nat, nat>): (r: Populated)
    ensures r.Stopped? ==> va <= r.at
    decreases end - va
  {
    if va >= end then Filled(st, pages)
    else match TakePage(st, root, va, writable)
      case NoFrame => Stopped(st, va)
      case MapFailed(st') => Stopped(st', va)
      case Took(st', n) => Populate(st', root, va + PAGE_SIZE, end, writable, pages[va := n])
  }

  /** No page of the loop finds the pool between empty and sufficient. */
  ghost predicate PopulateSafe(st: Pt, root: nat, va: nat, end: nat, writable: bool)
    decreases end - va
  {
    va >= end ||
    (Affordable(st, root, va) &&
     match TakePage(st, root, va, writable)
     case Took(st', n) => PopulateSafe(st', root, va + PAGE_SIZE, end, writable)
     case _ => true)
  }

  ghost predicate SameOutside(m: Mem, m': Mem, root: nat, lo: nat, hi: nat) {
    forall v: nat | v < VIRT_LIMIT && !(lo <= v < hi) :: Translate(m', root, v) == Translate(m, root, v)
  }

  /** Page `p` is backed by the zeroed frame `f` with the wanted rights. */
  ghost predicate PageReady(st: Pt, at: Paths, root: nat, p: nat, f: nat, writable: bool) {
    && f in st.frames && !IsTable(at, f) && Get(st.mem, f) == ZeroTable()
    && Translate(st.mem, root, p) == Some(Leaf(f, 0, writable, true))
  }

  ghost predicate AllReady(st: Pt, at: Paths, root: nat, lo: nat, hi: nat, pages: map<nat, nat>, writable: bool) {
    forall p: nat | lo <= p < hi && p % PAGE_SIZE == 0 :: p in pages && PageReady(st, at, root, p, pages[p], writable)
  }

  ghost predicate Advances(st: Pt, st': Pt, k: Kernel, at: Paths, at': Paths, lo: nat, hi: nat) {
    && [] in at && [] in at' && at'[[]] == at[[]] && Inv(st', k, at') && Local(st, st')
    && KeepsPages(st.mem, st'.mem, st.frames, at) && PagesStay(st.frames, at, at')
    && Owned(st.frames) <= Owned(st'.frames) && SameOutside(st.mem, st'.mem, at[[]], lo, hi)
  }

  lemma AdvancesOne(st: Pt, st': Pt, n: nat, k: Kernel, at: Paths, at': Paths, va: nat, writable: bool, hi: nat)
    requires TookOk(st, st', n, k, at, at', va, writable) && va % PAGE_SIZE == 0 && va + PAGE_SIZE <= hi <= VIRT_LIMIT
    ensures Advances(st, st', k, at, at', va, hi) && PageReady(st', at', at[[]], va, n, writable)
  {
    hide Index, Tree, KernelOk, Ledger, Path, Translate;
    SamePage(va);
    assert forall v: nat | v < VIRT_LIMIT && !(va <= v < hi) :: Path(v) != Path(va);
    assert Translate(st'.mem, at[[]], va) == Some(Leaf(n, va % PAGE_SIZE, writable, true));
  }

  lemma AdvancesTwice(st: Pt, st1: Pt, st2: Pt, k: Kernel, at: Paths, at1: Paths, at2: Paths, lo: nat, mid: nat,
      hi: nat)
    requires Advances(st, st1, k, at, at1, lo, hi) && Advances(st1, st2, k, at1, at2, mid, hi) && lo <= mid
    ensures Advances(st, st2, k, at, at2, lo, hi)
  {
    hide Index, Tree, KernelOk, Ledger, Translate;
    assert forall f | f in st.frames :: f in Owned(st.frames);
    assert forall f | f in Owned(st1.frames) :: f in st1.frames;
  }

  lemma StillReady(st: Pt, st': Pt, k: Kernel, at: Paths, at': Paths, p: nat, f: nat, writable: bool, lo: nat, hi: nat)
    requires Advances(st, st', k, at, at', lo, hi) && PageReady(st, at, at[[]], p, f, writable) && p < lo
    requires p < VIRT_LIMIT
    ensures PageReady(st', at', at[[]], p, f, writable)
  {
    hide Index, Tree, KernelOk, Ledger, Translate;
    assert f in Owned(st.frames);
  }

  /** Either every page of the range is backed by its own zeroed frame, or the pool ran dry on the way; if it ran out
      between a page and its tables, a frame is left both free and in use. */
  lemma {:induction false} PopulateOk(st: Pt, k: Kernel, at: Paths, va: nat, end: nat, writable: bool,
      pages: map<nat, nat>) returns (at': Paths)
    requires Inv(st, k, at) && UserRange(k, va, end) && va % PAGE_SIZE == 0 && end % PAGE_SIZE == 0
    ensures var r := Populate(st, at[[]], va, end, writable, pages);
      && (r.Stopped? ==> va <= r.at < end && r.at % PAGE_SIZE == 0)
      && (!PopulateSafe(st, at[[]], va, end, writable) ==>
            r.Stopped? && [] in at' && at'[[]] == at[[]] && exists n :: Slipped(r.st, k, at', n))
      && (PopulateSafe(st, at[[]], va, end, writable) ==>
            && Advances(st, r.st, k, at, at', va, end)
            && (r.Filled? ==> AllReady(r.st, at', at[[]], va, end, r.pages, writable)
                              && (forall p | p in r.pages ::
                                    (p in pages && r.pages[p] == pages[p]) || (va <= p < end && p % PAGE_SIZE == 0))
                              && (forall p | p in pages && p < va :: p in r.pages && r.pages[p] == pages[p]))
            && (r.Stopped? ==> r.st.free == {} && SameOutside(st.mem, r.st.mem, at[[]], va, r.at)))
    decreases end - va
  {
    hide Index, Tree, KernelOk, Ledger, Translate, Local, TakePage, Affordable, TookOk, Advances, PageReady,
      DoubleBooked;
    at' := at;
    if va >= end {
      AdvancesNone(st, k, at, va, end);
    } else {
      AlignedGap(va, end);
      AlignedSum(va, PAGE_SIZE);
      var at1 := TakePageOk(st, k, at, va, writable);
      var t := TakePage(st, at[[]], va, writable);
      EmptyAffordable(st, at[[]], va);
      if t.Took? {
        TookInv(st, t.st, t.frame, k, at, at1, va, writable);
        AdvancesOne(st, t.st, t.frame, k, at, at1, va, writable, end);
        at' := PopulateOk(t.st, k, at1, va + PAGE_SIZE, end, writable, pages[va := t.frame]);
        var r := Populate(st, at[[]], va, end, writable, pages);
        if PopulateSafe(st, at[[]], va, end, writable) {
          AdvancesTwice(st, t.st, r.st, k, at, at1, at', va, va + PAGE_SIZE, end);
          StillReady(t.st, r.st, k, at1, at', va, t.frame, writable, va + PAGE_SIZE, end);
          if r.Filled? {
            NoPageBetween(va);
          } else {
            AdvancesOne(st, t.st, t.frame, k, at, at1, va, writable, va + PAGE_SIZE);
            OutsideTwice(st, t.st, k, at, at1, r.st.mem, va, va + PAGE_SIZE, r.at);
          }
        }
      } else {
        AdvancesNone(st, k, at, va, end);
        if t.MapFailed? { at' := at1; }
      }
    }
  }

  /** Unmapping does not look at the pool. */
  lemma {:induction false} UnmapAnyPool(st: Pt, root: nat, lo: nat, hi: nat, n: nat)
    ensures UnmapRange(st.(free := st.free + {n}), root, lo, hi) ==
      var u := UnmapRange(st, root, lo, hi); u.(free := u.free + {n})
    decreases hi - lo
  {
    hide UnmapPage;
    if lo < hi {
      var st1 := UnmapAndFree(st, root, lo);
      UnmapOneAnyPool(st, root, lo, n);
      UnmapAnyPool(st1, root, lo + PAGE_SIZE, hi, n);
    }
  }

  lemma UnmapOneAnyPool(st: Pt, root: nat, va: nat, n: nat)
    ensures UnmapAndFree(st.(free := st.free + {n}), root, va) ==
      var u := UnmapAndFree(st, root, va); u.(free := u.free + {n})
  {
    hide LastTable, RemoveFirst;
    match UnmapPage(st, root, va).phys
    case None =>
    case Some(f) => assert st.free + {n} + {f} == st.free + {f} + {n};
  }

  /** No unmapping takes back a frame that slipped. */
  lemma SlippedStays(st: Pt, k: Kernel, at: Paths, n: nat, lo: nat, hi: nat)
    requires Slipped(st, k, at, n) && [] in at
    requires lo % PAGE_SIZE == 0 && hi % PAGE_SIZE == 0 && UserRange(k, lo, hi)
    ensures DoubleBooked(UnmapRange(st, at[[]], lo, hi))
  {
    hide Inv, UserVa, UnmapRange, Releases, UnmapsRange, KeepsPages;
    var st0 := st.(free := st.free - {n});
    var at' := UnmapRangeOk(st0, k, at, lo, hi);
    UnmapAnyPool(st0, at[[]], lo, hi, n);
    assert st0.free + {n} == st.free;
    var u0 := UnmapRange(st0, at[[]], lo, hi);
    assert n in Owned(st0.frames);
    assert n in u0.free + Owned(u0.frames);
    assert n in UnmapRange(st, at[[]], lo, hi).free && n in UnmapRange(st, at[[]], lo, hi).frames;
  }

  lemma OutsideTwice(st: Pt, st1: Pt, k: Kernel, at: Paths, at1: Paths, m2: Mem, lo: nat, mid: nat, hi: nat)
    requires Advances(st, st1, k, at, at1, lo, mid) && SameOutside(st1.mem, m2, at[[]], mid, hi) && lo <= mid <= hi
    ensures SameOutside(st.mem, m2, at[[]], lo, hi)
  {
    hide Translate, Inv, Local;
  }

  lemma NoPageBetween(va: nat)
    requires va % PAGE_SIZE == 0
    ensures forall p | va < p < va + PAGE_SIZE :: p % PAGE_SIZE != 0
  {
  }

  lemma AdvancesNone(st: Pt, k: Kernel, at: Paths, lo: nat, hi: nat)
    requires Inv(st, k, at)
    ensures Advances(st, st, k, at, at, lo, hi)
  {
  }
}
