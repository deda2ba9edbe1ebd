/** The page tables the boot loader hands over, and the first steps of a system that starts from them. */
module Boot {
  import opened Wrappers
  import opened Paging
  import opened PageTables
  import opened UserPages
  import opened Vmas
  import opened AddressSpaces
  import opened PoolNeeds
  import opened Spaces
  import opened SpaceRuns
  import B = Brk

  /** PRESENT | WRITABLE, and HUGE_PAGE on request; never USER. */
  function KernelEntry(a: nat, huge: bool): Pte {
    Pte(a, true, true, false, huge, 0)
  }

  function BootPml4(base: nat): Table {
    ZeroTable()[0 := KernelEntry(base + 0x1000, false)]
  }

  function BootPdpt(base: nat): Table {
    ZeroTable()[0 := KernelEntry(base + 0x2000, false)][3 := KernelEntry(0xC000_0000, true)]
  }

  function PdEntry(base: nat, i: nat): Pte {
    if i == 0 then KernelEntry(base + 0x3000, false) else if i < 256 then KernelEntry(i * 0x20_0000, true) else UNUSED
  }

  function BootPd(base: nat): Table {
    seq(512, i requires 0 <= i => PdEntry(base, i))
  }

  function BootPt(): Table {
    seq(512, i requires 0 <= i => KernelEntry(i * 0x1000, false))
  }

  function BootMem(base: nat): Mem {
    map[base := BootPml4(base), base + 0x1000 := BootPdpt(base), base + 0x2000 := BootPd(base),
      base + 0x3000 := BootPt()]
  }

  /** The page table of the first 2 MiB, filled entry by entry. */
  method FillPt(m: Mem, pt: nat) returns (r: Mem)
    ensures r == m[pt := BootPt()]
  {
    r := m[pt := ZeroTable()];
    for i := 0 to 512
      invariant r == m[pt := Get(r, pt)]
      invariant forall j | 0 <= j < i :: Get(r, pt)[j] == KernelEntry(j * 0x1000, false)
    {
      r := SetEntry(r, pt, i, KernelEntry(i * 0x1000, false));
    }
    assert Get(r, pt) == BootPt();
  }

  /** The directory of the first GiB: its first entry is the page table, the next 255 are 2 MiB pages. */
  method FillPd(base: nat, m: Mem, pd: nat) returns (r: Mem)
    ensures r == m[pd := BootPd(base)]
  {
    r := m[pd := ZeroTable()];
    r := SetEntry(r, pd, 0, KernelEntry(base + 0x3000, false));
    for j := 1 to 256
      invariant r == m[pd := Get(r, pd)]
      invariant forall i | 0 <= i < 512 :: Get(r, pd)[i] == if i < j then PdEntry(base, i) else UNUSED
    {
      r := SetEntry(r, pd, j, KernelEntry(j * 0x20_0000, true));
    }
    assert Get(r, pd) == BootPd(base);
  }

  function BootKernel(base: nat): Kernel {
    Kernel(base, {base, base + 0x1000, base + 0x2000, base + 0x3000}, BootPml4(base), BootPdpt(base))
  }

  /** Memory that holds the four tables, and anything else. */
  ghost predicate BootRam(base: nat, m: Mem) {
    Agree(BootMem(base), m, BootKernel(base).frames)
  }

  /** The two upper tables. */
  method FillTop(m: Mem, base: nat) returns (r: Mem)
    ensures r == m[base := BootPml4(base)][base + 0x1000 := BootPdpt(base)]
  {
    hide ZeroTable;
    r := m[base := ZeroTable()];
    r := SetEntry(r, base, 0, KernelEntry(base + 0x1000, false));
    assert r == m[base := BootPml4(base)];
    ghost var half := r;
    r := r[base + 0x1000 := ZeroTable()];
    r := SetEntry(r, base + 0x1000, 0, KernelEntry(base + 0x2000, false));
    r := SetEntry(r, base + 0x1000, 3, KernelEntry(0xC000_0000, true));
    assert r == half[base + 0x1000 := BootPdpt(base)];
  }

  /** The loader clears four frames, whatever was in memory, and fills them in place. */
  method BuildTables(ram: Mem, base: nat) returns (m: Mem)
    ensures BootRam(base, m) && forall f | f !in BootKernel(base).frames :: Get(m, f) == Get(ram, f)
  {
    hide BootRam, BootPd, BootPt, BootPml4, BootPdpt;
    m := FillTop(ram, base);
    m := FillPd(base, m, base + 0x2000);
    m := FillPt(m, base + 0x3000);
    Built(ram, base, m);
  }

  lemma Built(ram: Mem, base: nat, m: Mem)
    requires m == ram[base := BootPml4(base)][base + 0x1000 := BootPdpt(base)]
                     [base + 0x2000 := BootPd(base)][base + 0x3000 := BootPt()]
    ensures BootRam(base, m) && forall f | f !in BootKernel(base).frames :: Get(m, f) == Get(ram, f)
  {
    hide BootPd, BootPt, BootPml4, BootPdpt;
  }

  /** The kernel starts with the first 512 MiB and the fourth GiB mapped to themselves, writable, not for users, and
      nothing else. */
  lemma BootWalks(base: nat, m: Mem, va: nat)
    requires BootRam(base, m) && va < VIRT_LIMIT
    ensures match Translate(m, base, va)
      case None => 0x2000_0000 <= va < 0xC000_0000 || 0x1_0000_0000 <= va
      case Some(l) =>
        && (va < 0x2000_0000 || 0xC000_0000 <= va < 0x1_0000_0000)
        && l.base + l.offset == va && l.writable && !l.user
  {
    assert Get(m, base) == BootPml4(base) && Get(m, base + 0x1000) == BootPdpt(base);
    assert Get(m, base + 0x2000) == BootPd(base) && Get(m, base + 0x3000) == BootPt();
    var i, j, x, y := Index(va, 0), Index(va, 1), Index(va, 2), Index(va, 3);
    BootIndices(va);
    if i == 0 && j == 0 {
      assert BootPd(base)[x] == PdEntry(base, x);
      assert Walk(m, base, 0, va, true, true) == Walk(m, base + 0x2000, 2, va, true, false);
    }
  }

  lemma BootIndices(va: nat)
    requires va < VIRT_LIMIT
    ensures Index(va, 0) == 0 <==> va < 0x80_0000_0000
    ensures Index(va, 0) == 0 ==> (Index(va, 1) == 0 <==> va < 0x4000_0000)
    ensures Index(va, 0) == 0 ==> (Index(va, 1) == 3 <==> 0xC000_0000 <= va < 0x1_0000_0000)
    ensures va < 0x4000_0000 ==> Index(va, 2) == va / 0x20_0000
    ensures va < 0x20_0000 ==> Index(va, 3) == va / 0x1000
  {
  }

  /** The addresses left to user space: from 1 GiB to 3 GiB and from 4 GiB to 512 GiB. */
  lemma BootUser(base: nat, va: nat)
    requires va < VIRT_LIMIT
    ensures UserVa(BootKernel(base), va) <==> 0x4000_0000 <= va < 0xC000_0000 || 0x1_0000_0000 <= va < 0x80_0000_0000
  {
    BootIndices(va);
  }

  // ----- The first system state -----

  /** Frames the physical allocator may hand out. */
  predicate BootPool(base: nat, pool: set<nat>) {
    pool !! BootKernel(base).frames && forall f | f in pool :: IsFrame(f)
  }

  function BootSys(m: Mem, pool: set<nat>): Sys {
    Sys(pool, m, map[])
  }

  lemma BootTree(base: nat, m: Mem)
    requires BootRam(base, m)
    ensures KernelOk(m, BootKernel(base))
  {
    var frames := BootKernel(base).frames;
    assert base in frames && base + 0x1000 in frames && base + 0x2000 in frames && base + 0x3000 in frames;
    assert TreeIn(m, base + 0x3000, 3, frames);
    assert Get(m, base + 0x2000) == BootPd(base) && Get(m, base + 0x1000) == BootPdpt(base);
    assert TreeIn(m, base + 0x2000, 2, frames);
    assert TreeIn(m, base + 0x1000, 1, frames);
  }

  /** The state after boot meets what every run theorem asks for, whatever the pool and the rest of memory. */
  lemma BootOk(base: nat, m: Mem, pool: set<nat>)
    requires BootRam(base, m) && BootPool(base, pool)
    ensures SysInv(BootSys(m, pool), BootKernel(base), map[]) && AllRecords(BootSys(m, pool), BootKernel(base))
  {
    hide KernelOk, BootRam;
    BootTree(base, m);
  }

  /** The kernel's entries are closed to users, so user code may store anywhere. */
  lemma BootStores(base: nat, s: Sys, id: nat, va: nat, data: Table)
    ensures Shut(BootKernel(base))
    ensures EventOk(s, BootKernel(base), Write(id, va, data)) <==> id in s.spaces
  {
  }

  /** Isolation, the ledger and truthful records for every run from boot. */
  lemma BootRuns(base: nat, m: Mem, pool: set<nat>, es: seq<Event>) returns (ats: map<nat, Paths>)
    requires BootRam(base, m) && BootPool(base, pool) && RunOk(BootSys(m, pool), BootKernel(base), es)
    ensures var s, k := BootSys(m, pool), BootKernel(base); var s' := Run(s, k, es);
      && SysInv(s', k, ats) && Conserves(s, s', LostBy(s, k, es)) && SameWalks(s.mem, s'.mem, base)
      && (RunKeepsHeap(s, k, es) ==> AllRecords(s', k))
  {
    hide SysInv, Translate, RunOk, RunKeepsHeap, AllRecords, LostBy, AllFrames, BootRam;
    var s, k := BootSys(m, pool), BootKernel(base);
    BootOk(base, m, pool);
    ats := RunKeeps(s, k, map[], es);
    if RunKeepsHeap(s, k, es) { RunRecords(s, k, map[], es); }
  }

  /** With a single frame, creating a space fails and the frame is gone. */
  lemma FirstLeak(base: nat, m: Mem, f: nat)
    requires BootRam(base, m) && BootPool(base, {f})
    ensures var s, k := BootSys(m, {f}), BootKernel(base); var es := [Create(0)];
      RunOk(s, k, es) && LostBy(s, k, es) == 1 && AllFrames(s) == {f} && AllFrames(Run(s, k, es)) == {}
  {
    hide NewSpace, BootRam, KernelOk;
    var s, k, es := BootSys(m, {f}), BootKernel(base), [Create(0)];
    BootTree(base, m);
    NewSpaceOk({f}, m, k);
    var s1 := Step(s, k, Create(0));
    assert es[1..] == [] && Run(s, k, es) == Run(s1, k, es[1..]) == s1;
    assert Lost(s, k, es[0]) == 1 && LostBy(s1, k, es[1..]) == 0;
    assert s1.spaces == map[] && s1.free == {};
  }

  // ----- The first page -----

  /** Create a space, grow its heap by a page, touch the page. */
  function FirstRun(): seq<Event> {
    [Create(0), Call(0, Brk(0x5000_1000)), Call(0, Fault(0x5000_0000, true))]
  }

  lemma GrowFirst(vm: Vm, k: Kernel, at: Paths)
    requires SpaceSafe(vm, k, at) && vm.sp == FreshSpace(vm.sp.root, vm.sp.frames)
    ensures var vm' := B.Brk(vm, 0x5000_1000).1;
      VmInv(vm', k, at) && PtOf(vm') == PtOf(vm) && Allowed(vm', 0x5000_0000, true) && vm'.sp.root == vm.sp.root
      && vm'.sp.vmas == [B.NewHeap(0x5000_0000, 0x5000_1000)]
  {
    hide Inv, UserVa;
    var vm' := B.Brk(vm, 0x5000_1000).1;
    assert AlignUp(0x5000_1000) == 0x5000_1000;
    assert vm'.sp.vmas == [B.NewHeap(0x5000_0000, 0x5000_1000)];
    assert PtOf(vm') == PtOf(vm);
    var _ := B.BrkSafe(vm, k, at, 0x5000_1000);
  }

  /** A page in a new space needs a frame and two tables. */
  lemma FirstNeeds(vm: Vm, k: Kernel)
    requires |vm.sp.frames| == 2 && VmInv(vm, k, NewPaths(vm.sp)) && UserVa(k, 0x5000_0000)
    ensures Affordable(PtOf(vm), vm.sp.root, 0x5000_0000) <==> vm.free == {} || |vm.free| >= 3
  {
    hide Tree, Missing;
    var at := NewPaths(vm.sp);
    MissingIs(vm.mem, k, at, 0x5000_0000);
    TreeNested(vm.mem, k, at, 0x5000_0000);
    NewForCount(at, 0x5000_0000);
    var p := Path(0x5000_0000);
    assert Index(0x5000_0000, 0) == 0 && |p[..2]| == 2;
    assert p[..1] == [0];
    AffordableIs(PtOf(vm), vm.sp.root, 0x5000_0000);
  }

  /** The first page of a new space: with enough frames it is there, zeroed and writable; with none left the fault is
      refused; but with one or two left, the frame of the refused page is in the pool and in use at once. */
  lemma FirstFault(base: nat, m: Mem, pool: set<nat>)
    requires BootRam(base, m) && BootPool(base, pool) && |pool| >= 2
    ensures var s, k := BootSys(m, pool), BootKernel(base); var s' := Run(s, k, FirstRun());
      && (RunOk(s, k, FirstRun()) <==> |pool| == 2 || |pool| >= 5)
      && 0 in s'.spaces
      && (|pool| == 3 || |pool| == 4 ==> DoubleBooked(PtOf(View(s', 0))))
      && (|pool| >= 5 ==> FirstPage(s', pool))
  {
    hide NewSpace, BootRam, KernelOk, MadeOk, B.Brk, AddressSpaces.Fault, FirstPage, DoubleBooked, Domain;
    var s, k := BootSys(m, pool), BootKernel(base);
    BootTree(base, m);
    NewSpaceOk(pool, m, k);
    var vm := NewSpace(pool, m, k.root).vm;
    FirstStep(base, m, pool, vm);
    ThreeSteps(s, k, vm);
  }

  /** Page 0x5000_0000 is mapped to a cleared frame of the pool, for users and writable. */
  ghost predicate FirstPage(s: Sys, pool: set<nat>)
    requires 0 in s.spaces
  {
    match Translate(s.mem, s.spaces[0].root, 0x5000_0000)
    case None => false
    case Some(l) => l.base in pool && l.offset == 0 && l.writable && l.user && Get(s.mem, l.base) == ZeroTable()
  }

  lemma FirstStep(base: nat, m: Mem, pool: set<nat>, vm: Vm)
    requires MadeOk(pool, m, BootKernel(base), vm)
    ensures var vm1 := B.Brk(vm, 0x5000_1000).1; var (ok, vm2) := AddressSpaces.Fault(vm1, 0x5000_0000, true);
      var s2 := Sys(vm2.free, vm2.mem, map[0 := vm2.sp]);
      && (FaultAffordable(vm1, 0x5000_0000, true) <==> |pool| == 2 || |pool| >= 5)
      && (|pool| == 3 || |pool| == 4 ==> DoubleBooked(PtOf(vm2)))
      && (|pool| >= 5 ==> FirstPage(s2, pool))
  {
    hide Inv, UserVa, RecordsOk, B.Brk, AddressSpaces.Fault, DoubleBooked, Affordable, Local, TookOk, Allowed;
    var k, at := BootKernel(base), NewPaths(vm.sp);
    var vm1 := B.Brk(vm, 0x5000_1000).1;
    GrowFirst(vm, k, at);
    BootUser(base, 0x5000_0000);
    assert NewPaths(vm1.sp) == at;
    FirstNeeds(vm1, k);
    assert AlignDown(0x5000_0000) == 0x5000_0000;
    var at', n := FaultOk(vm1, k, at, 0x5000_0000, true);
    if |pool| >= 5 { FirstTook(vm1, AddressSpaces.Fault(vm1, 0x5000_0000, true).1, k, at, at', n, pool); }
  }

  lemma FirstTook(vm: Vm, vm': Vm, k: Kernel, at: Paths, at': Paths, n: nat, pool: set<nat>)
    requires FaultDone(vm, vm', k, at, at', 0x5000_0000, n) && [] in at && at[[]] == vm.sp.root && vm.free <= pool
    requires vm.sp.vmas == [B.NewHeap(0x5000_0000, 0x5000_1000)]
    ensures FirstPage(Sys(vm'.free, vm'.mem, map[0 := vm'.sp]), pool)
  {
    hide Inv, Local, Translate;
    assert AlignDown(0x5000_0000) == 0x5000_0000;
    assert Translate(vm'.mem, vm.sp.root, 0x5000_0000) == Some(Leaf(n, 0, true, true));
  }

  lemma ThreeSteps(s: Sys, k: Kernel, vm: Vm)
    requires s.spaces == map[] && NewSpace(s.free, s.mem, k.root) == Made(vm)
    ensures var vm1 := B.Brk(vm, 0x5000_1000).1; var (ok, vm2) := AddressSpaces.Fault(vm1, 0x5000_0000, true);
      && Run(s, k, FirstRun()) == Sys(vm2.free, vm2.mem, map[0 := vm2.sp])
      && (RunOk(s, k, FirstRun()) <==> FaultAffordable(vm1, 0x5000_0000, true))
  {
    hide NewSpace, B.Brk, AddressSpaces.Fault, FaultAffordable;
    var es := FirstRun();
    var vm1 := B.Brk(vm, 0x5000_1000).1;
    var vm2 := AddressSpaces.Fault(vm1, 0x5000_0000, true).1;
    var s1, s2 := Step(s, k, es[0]), Sys(vm1.free, vm1.mem, map[0 := vm1.sp]);
    assert es[1..][1..][1..] == [] && es[1..][0] == es[1] && es[1..][1..][0] == es[2];
    assert s1 == Sys(vm.free, vm.mem, map[0 := vm.sp]) && View(s1, 0) == vm;
    assert Step(s1, k, es[1]) == s2 && View(s2, 0) == vm1;
    assert Step(s2, k, es[2]) == Sys(vm2.free, vm2.mem, map[0 := vm2.sp]);
  }
}
