/** All address spaces together: isolation and the frame ledger over whole runs. */
module Spaces {
  import opened Wrappers
  import opened Paging
  import opened PageTables
  import opened UserPages
  import opened Vmas
  import opened AddressSpaces
  import opened VmCalls
  import M = Mmap
  import B = Brk

  datatype Sys = Sys(free: set<nat>, mem: Mem, spaces: map<nat, Space>)

  datatype Op =
    | Mmap(hint: Option<nat>, len: nat, prot: nat, flags: nat)
    | Munmap(addr: nat, len: nat)
    | Brk(brk: nat)
    | Fault(addr: nat, isWrite: bool)

  function View(s: Sys, id: nat): Vm
    requires id in s.spaces
  {
    Vm(s.free, s.mem, s.spaces[id])
  }

  function Update(s: Sys, id: nat, vm: Vm): Sys {
    Sys(vm.free, vm.mem, s.spaces[id := vm.sp])
  }

  ghost function ApplyTo(vm: Vm, op: Op): Vm {
    match op
    case Mmap(hint, len, prot, flags) => M.Mmap(vm, hint, len, prot, flags).1
    case Munmap(addr, len) => VmCalls.Munmap(vm, addr, len).1
    case Brk(brk) => B.Brk(vm, brk).1
    case Fault(addr, isWrite) => AddressSpaces.Fault(vm, addr, isWrite).1
  }

  /** Pages in the kernel's own slots are left alone. */
  ghost predicate UserOnly(vm: Vm, k: Kernel, op: Op) {
    match op
    case Mmap(hint, len, prot, flags) => M.MmapUser(vm, k, hint, len, flags)
    case Munmap(addr, len) => MunmapArgsOk(addr, len) ==> UserRange(k, addr, addr + AlignUp(len))
    case Brk(brk) => true
    case Fault(addr, isWrite) => true
  }

  /** No page is asked for while the pool is neither empty nor sufficient. */
  ghost predicate Paid(vm: Vm, op: Op) {
    match op
    case Mmap(hint, len, prot, flags) => M.MmapPaid(vm, hint, len, prot, flags)
    case Munmap(addr, len) => true
    case Brk(brk) => true
    case Fault(addr, isWrite) => FaultAffordable(vm, addr, isWrite)
  }

  ghost predicate Domain(vm: Vm, k: Kernel, op: Op) {
    UserOnly(vm, k, op) && Paid(vm, op)
  }

  /** What isolation rests on: tables, ledger, areas outside the kernel's slots, heap pieces below the break. */
  ghost predicate SpaceSafe(vm: Vm, k: Kernel, at: Paths) {
    VmInv(vm, k, at) && B.HeapInside(vm.sp) && UserRange(k, vm.sp.heapStart, MMAP_BASE_START)
  }

  /** The records of a space tell the truth: disjoint areas, one heap area, and exactly the mapped pages recorded. */
  ghost predicate RecordsOk(vm: Vm, k: Kernel) {
    AreasOk(vm.sp.vmas) && B.HeapOk(vm.sp) && Matched(k, vm.sp.vmas, vm.mem, vm.sp.root)
  }

  /** There is no heap area, or the range avoids it. */
  predicate AvoidsHeap(sp: Space, lo: nat, hi: nat) {
    sp.heapEnd == sp.heapStart || hi <= sp.heapStart || AlignUp(sp.heapEnd) <= lo
  }

  /** What the records need beyond the domain: no munmap inside the heap. */
  predicate KeepsHeap(sp: Space, op: Op) {
    op.Munmap? && MunmapArgsOk(op.addr, op.len) ==> AvoidsHeap(sp, op.addr, op.addr + AlignUp(op.len))
  }

  ghost predicate PoolOk(free: set<nat>, m: Mem, k: Kernel) {
    KernelOk(m, k) && free !! k.frames && (forall f | f in free :: IsFrame(f)) && !k.pdpt[1].present
  }

  /** Every space is safe, and no frame belongs to two of them. */
  ghost predicate SysInv(s: Sys, k: Kernel, ats: map<nat, Paths>) {
    && ats.Keys == s.spaces.Keys && PoolOk(s.free, s.mem, k)
    && (forall id | id in s.spaces :: SpaceSafe(View(s, id), k, ats[id]))
    && (forall i, j | i in s.spaces && j in s.spaces && i != j ::
          Owned(s.spaces[i].frames) !! Owned(s.spaces[j].frames))
  }

  /** All the frames the pool and the spaces account for. */
  function AllFrames(s: Sys): set<nat> {
    s.free + set id, f | id in s.spaces && f in s.spaces[id].frames :: f
  }

  // ----- One call keeps the heap in order -----

  lemma {:induction false} CutKeepsHeap(vs: seq<VmArea>, start: nat, end: nat, lo: nat, hi: nat)
    requires lo < hi && B.HeapSpans(vs, start, end) && (B.HeapIndex(vs) == None || hi <= start || end <= lo)
    ensures var ws := CutAll(vs, lo, hi);
      B.HeapSpans(ws, start, end) && (B.HeapIndex(ws).Some? <==> B.HeapIndex(vs).Some?)
  {
    hide Cut;
    if vs != [] {
      var c, r := Cut(vs[0], lo, hi), CutAll(vs[1..], lo, hi);
      assert vs == [vs[0]] + vs[1..];
      B.HeapAppend([vs[0]], vs[1..]);
      CutKeepsHeap(vs[1..], start, end, lo, hi);
      CutNames(vs[0], lo, hi);
      B.HeapAppend(c, r);
    }
  }

  lemma CutNames(v: VmArea, lo: nat, hi: nat)
    requires lo < hi
    ensures forall i | 0 <= i < |Cut(v, lo, hi)| :: Cut(v, lo, hi)[i].name == v.name
    ensures hi <= v.start || v.End() <= lo ==> Cut(v, lo, hi) == [v]
  {
  }

  /** A munmap keeps the heap one whole area exactly when there is none or its range avoids it. */
  lemma MunmapKeepsHeapIff(vm: Vm, addr: nat, len: nat)
    requires AreasOk(vm.sp.vmas) && B.HeapOk(vm.sp) && MunmapArgsOk(addr, len)
    ensures B.HeapOk(VmCalls.Munmap(vm, addr, len).1.sp) <==> AvoidsHeap(vm.sp, addr, addr + AlignUp(len))
  {
    hide AlignUp, UnmapRange, CutAll;
    var sp, hi := vm.sp, addr + AlignUp(len);
    var ws := VmCalls.Munmap(vm, addr, len).1.sp.vmas;
    AlignedSum(addr, AlignUp(len));
    CutAllOk(sp.vmas, addr, hi);
    if AvoidsHeap(sp, addr, hi) {
      CutKeepsHeap(sp.vmas, sp.heapStart, AlignUp(sp.heapEnd), addr, hi);
    } else {
      var a := if addr < sp.heapStart then sp.heapStart else addr;
      forall i | 0 <= i < |ws| ensures !ws[i].Contains(a) {
        assert ws[i].Contains(a) ==> Covers(ws, a, AttrsOf(ws[i]));
      }
    }
  }

  /** Why the range must avoid the heap: in a new space that grows its heap to four pages and unmaps the second, a
      shrinking brk makes two areas overlap. */
  lemma SplitHeapOverlaps(vm: Vm)
    requires vm.sp == FreshSpace(vm.sp.root, vm.sp.frames)
    ensures var vm1 := B.Brk(vm, 0x5000_4000).1;
      var vm2 := VmCalls.Munmap(vm1, 0x5000_1000, 0x1000).1;
      AreasOk(vm2.sp.vmas) && !AreasOk(B.Brk(vm2, 0x5000_3000).1.sp.vmas)
  {
    hide UnmapRange, CutAll, AreasOk, B.Shrink;
    var vm1 := B.Brk(vm, 0x5000_4000).1;
    assert AlignUp(0x5000_4000) == 0x5000_4000 && AlignUp(0x1000) == 0x1000;
    assert vm1.sp.vmas == [B.NewHeap(0x5000_0000, 0x5000_4000)];
    SplitHeap(VmCalls.Munmap(vm1, 0x5000_1000, 0x1000).1);
  }

  lemma SplitHeap(vm: Vm)
    requires vm.sp.heapStart == 0x5000_0000 && vm.sp.heapEnd == 0x5000_4000
    requires vm.sp.vmas == CutAll([B.NewHeap(0x5000_0000, 0x5000_4000)], 0x5000_1000, 0x5000_2000)
    ensures AreasOk(vm.sp.vmas) && !AreasOk(B.Brk(vm, 0x5000_3000).1.sp.vmas)
  {
    hide UnmapRange;
    var h := B.NewHeap(0x5000_0000, 0x5000_4000);
    CutAllOk([h], 0x5000_1000, 0x5000_2000);
    var left, right := h.(size := 0x1000), h.(start := 0x5000_2000, size := 0x2000);
    assert vm.sp.vmas == [left, right];
    var rest := h.(start := 0x5000_2000, size := 0x1000);
    assert KeysOutside(map[], 0x5000_3000, 0x5000_4000) == map[];
    assert Cut(left, 0x5000_3000, 0x5000_4000) == [left] && Cut(right, 0x5000_3000, 0x5000_4000) == [rest];
    assert [left, right][1..] == [right] && CutAll([right], 0x5000_3000, 0x5000_4000) == [rest];
    assert CutAll([left, right], 0x5000_3000, 0x5000_4000) == [left, rest];
    assert AlignUp(0x5000_3000) == 0x5000_3000 && AlignUp(0x5000_4000) == 0x5000_4000 && AlignUp(0x1000) == 0x1000;
    var after := B.Brk(vm, 0x5000_3000).1.sp.vmas;
    assert after == [h.(size := 0x3000), rest];
    assert !Apart(after[0], after[1]);
  }

  // ----- One call -----

  /** A call of a space keeps it safe, stays within its own frames and the pool, and keeps its records truthful unless
      it is a munmap inside the heap. */
  ghost predicate Stepped(vm: Vm, vm': Vm, k: Kernel, at': Paths, op: Op) {
    && SpaceSafe(vm', k, at') && Local(PtOf(vm), PtOf(vm'))
    && (RecordsOk(vm, k) && KeepsHeap(vm.sp, op) ==> RecordsOk(vm', k))
  }

  lemma StepOk(vm: Vm, k: Kernel, at: Paths, op: Op) returns (at': Paths)
    requires SpaceSafe(vm, k, at) && Domain(vm, k, op)
    ensures Stepped(vm, ApplyTo(vm, op), k, at', op)
  {
    hide *;
    match op
    case Mmap(_, _, _, _) => at' := MmapStep(vm, k, at, op);
    case Munmap(_, _) => at' := MunmapStep(vm, k, at, op);
    case Brk(_) => at' := BrkStep(vm, k, at, op);
    case Fault(_, _) => at' := FaultStep(vm, k, at, op);
  }

  /** A call that leaves the kernel's slots alone keeps the space safe exactly when every page it asks for finds the
      pool empty or sufficient; otherwise a frame ends up both free and in use. */
  lemma StepIff(vm: Vm, k: Kernel, at: Paths, op: Op)
    requires SpaceSafe(vm, k, at) && UserOnly(vm, k, op)
    ensures (exists at' :: SpaceSafe(ApplyTo(vm, op), k, at')) <==> Paid(vm, op)
    ensures !Paid(vm, op) ==> DoubleBooked(PtOf(ApplyTo(vm, op)))
  {
    hide SpaceSafe, Stepped, ApplyTo, UserOnly, Paid, DoubleBooked;
    if Paid(vm, op) {
      var at' := StepOk(vm, k, at, op);
      SteppedSafe(vm, ApplyTo(vm, op), k, at', op);
    } else {
      Unpaid(vm, k, at, op);
      forall at' ensures !SpaceSafe(ApplyTo(vm, op), k, at') {
        if SpaceSafe(ApplyTo(vm, op), k, at') { SafeOnce(ApplyTo(vm, op), k, at'); }
      }
    }
  }

  lemma Unpaid(vm: Vm, k: Kernel, at: Paths, op: Op)
    requires SpaceSafe(vm, k, at) && UserOnly(vm, k, op) && !Paid(vm, op)
    ensures DoubleBooked(PtOf(ApplyTo(vm, op)))
  {
    hide VmInv, Local, UserVa, B.HeapInside, M.Mmap, M.MmapUser, M.MmapPaid, FaultAffordable, AddressSpaces.Fault,
      DoubleBooked, TookOk;
    if op.Mmap? {
      M.MmapShort(vm, k, at, op.hint, op.len, op.prot, op.flags);
    } else {
      var _, _ := FaultOk(vm, k, at, op.addr, op.isWrite);
    }
  }

  lemma SafeOnce(vm: Vm, k: Kernel, at: Paths)
    requires SpaceSafe(vm, k, at)
    ensures !DoubleBooked(PtOf(vm))
  {
    forall f | f in vm.free ensures f !in vm.sp.frames { assert f !in Owned(vm.sp.frames); }
  }

  lemma SteppedSafe(vm: Vm, vm': Vm, k: Kernel, at': Paths, op: Op)
    requires Stepped(vm, vm', k, at', op)
    ensures SpaceSafe(vm', k, at') && Local(PtOf(vm), PtOf(vm'))
  {
  }

  lemma MmapStep(vm: Vm, k: Kernel, at: Paths, op: Op) returns (at': Paths)
    requires SpaceSafe(vm, k, at) && Domain(vm, k, op) && op.Mmap?
    ensures Stepped(vm, ApplyTo(vm, op), k, at', op)
  {
    hide VmInv, Local, UserVa, AreasOk, Matched, B.HeapOk, B.HeapInside, M.Mmap, M.MmapUser, M.MmapPaid, M.MmapDone,
      SameOutside, M.SameOrNone;
    at' := M.MmapOk(vm, k, at, op.hint, op.len, op.prot, op.flags);
    var (r, vm') := M.Mmap(vm, op.hint, op.len, op.prot, op.flags);
    MmapKeepsHeap(vm, vm', at', r, op.len, op.prot, op.flags);
  }

  lemma MunmapStep(vm: Vm, k: Kernel, at: Paths, op: Op) returns (at': Paths)
    requires SpaceSafe(vm, k, at) && Domain(vm, k, op) && op.Munmap?
    ensures Stepped(vm, ApplyTo(vm, op), k, at', op)
  {
    hide Inv, Local, UserVa, AreasOk, AreasUser, Matched, AlignUp, CutAll, UnmapsTo, Subtracts, UnmapRange,
      B.HeapWithin;
    at' := MunmapOk(vm, k, at, op.addr, op.len);
    var sp, vm' := vm.sp, ApplyTo(vm, op);
    if MunmapArgsOk(op.addr, op.len) {
      var hi := op.addr + AlignUp(op.len);
      MunmapWithin(vm, vm', op.addr, hi);
      if RecordsOk(vm, k) && KeepsHeap(sp, op) {
        CutKeepsHeap(sp.vmas, sp.heapStart, AlignUp(sp.heapEnd), op.addr, hi);
        UnmapsWalks(PtOf(vm), PtOf(vm'), k, at, at', op.addr, hi);
        UnmapMatched(k, sp.vmas, vm'.sp.vmas, vm.mem, vm'.mem, sp.root, op.addr, hi);
      }
    }
  }

  lemma MunmapWithin(vm: Vm, vm': Vm, lo: nat, hi: nat)
    requires B.HeapInside(vm.sp) && Subtracts(vm.sp.vmas, vm'.sp.vmas, lo, hi) && AllWell(vm'.sp.vmas)
    requires vm'.sp == vm.sp.(frames := vm'.sp.frames, vmas := vm'.sp.vmas)
    ensures B.HeapInside(vm'.sp)
  {
    hide AlignUp, Subtracts, AllWell;
    B.CutWithin(vm.sp.vmas, vm'.sp.vmas, vm.sp.heapStart, AlignUp(vm.sp.heapEnd), lo, hi);
  }

  lemma BrkStep(vm: Vm, k: Kernel, at: Paths, op: Op) returns (at': Paths)
    requires SpaceSafe(vm, k, at) && op.Brk?
    ensures Stepped(vm, ApplyTo(vm, op), k, at', op)
  {
    hide VmInv, Local, UserVa, AreasOk, Matched, B.Brk, B.HeapOk, B.HeapInside, UnmapsTo;
    at' := B.BrkSafe(vm, k, at, op.brk);
    if RecordsOk(vm, k) {
      var _ := B.BrkOk(vm, k, at, op.brk);
    }
  }

  lemma FaultStep(vm: Vm, k: Kernel, at: Paths, op: Op) returns (at': Paths)
    requires SpaceSafe(vm, k, at) && Domain(vm, k, op) && op.Fault?
    ensures Stepped(vm, ApplyTo(vm, op), k, at', op)
  {
    hide VmInv, Local, UserVa, AreasOk, Matched, FaultAffordable, Allowed, AddressSpaces.Fault, TookOk, SetPopulated,
      AlignUp, AlignDown;
    var n;
    at', n := FaultOk(vm, k, at, op.addr, op.isWrite);
    var vm' := ApplyTo(vm, op);
    if vm' != vm {
      var i, page := FindArea(vm.sp.vmas, op.addr).value, AlignDown(op.addr);
      FaultKeepsHeap(vm, vm', i, page, n);
      if RecordsOk(vm, k) { FaultMatched(vm, vm', k, at, at', op.addr, n); }
    }
  }

  lemma FaultKeepsHeap(vm: Vm, vm': Vm, i: nat, page: nat, n: nat)
    requires i < |vm.sp.vmas| && vm'.sp == vm.sp.(frames := vm'.sp.frames, vmas := SetPopulated(vm.sp.vmas, i, page, n))
    ensures B.HeapInside(vm.sp) ==> B.HeapInside(vm'.sp)
    ensures B.HeapOk(vm.sp) ==> B.HeapOk(vm'.sp)
  {
    hide AlignUp;
    SetPopulatedKeepsHeap(vm.sp.vmas, i, page, n);
  }

  lemma FaultMatched(vm: Vm, vm': Vm, k: Kernel, at: Paths, at': Paths, a: nat, n: nat)
    requires VmInv(vm, k, at) && RecordsOk(vm, k) && FaultDone(vm, vm', k, at, at', a, n)
    ensures Matched(k, vm'.sp.vmas, vm'.mem, vm'.sp.root)
  {
    hide Inv, Local, UserVa, Matched, Translate, B.HeapOk, MapsOne, AlignDown;
    var i, page := FindArea(vm.sp.vmas, a).value, AlignDown(a);
    var v := vm.sp.vmas[i];
    PageInArea(v, a);
    assert UserRange(k, v.start, v.End());
    WriteBit(v);
    SetPopulatedMatched(k, vm.sp.vmas, vm.mem, vm'.mem, vm.sp.root, i, page, n, v.IsWritable());
  }

  lemma MmapKeepsHeap(vm: Vm, vm': Vm, at': Paths, r: Result<nat>, len: nat, prot: nat, flags: nat)
    requires r.Ok? ==> M.MmapDone(vm, vm', at', r.value, AlignUp(len), prot, flags)
    requires r.Err? ==> vm'.sp.vmas == vm.sp.vmas
    requires vm'.sp.heapStart == vm.sp.heapStart && vm'.sp.heapEnd == vm.sp.heapEnd
    ensures B.HeapInside(vm.sp) ==> B.HeapInside(vm'.sp)
    ensures B.HeapOk(vm.sp) ==> B.HeapOk(vm'.sp)
  {
    if r.Ok? {
      var vs, ws := vm.sp.vmas, vm'.sp.vmas;
      assert ws[|vs|].name != HEAP by { assert ws[|vs|].name[1] == 'm' && HEAP[1] == 'h'; }
      assert B.HeapIndex(ws).Some? ==> B.HeapIndex(ws).value < |vs|;
      assert B.HeapIndex(vs).Some? ==> ws[B.HeapIndex(vs).value] == vs[B.HeapIndex(vs).value];
    }
  }

  lemma SetPopulatedKeepsHeap(vs: seq<VmArea>, i: nat, page: nat, f: nat)
    requires i < |vs|
    ensures var ws := SetPopulated(vs, i, page, f);
      && (B.HeapIndex(ws).Some? <==> B.HeapIndex(vs).Some?)
      && forall j | 0 <= j < |vs| :: ws[j].name == vs[j].name && ws[j].start == vs[j].start && ws[j].size == vs[j].size
  {
    var ws := SetPopulated(vs, i, page, f);
    assert B.HeapIndex(vs).Some? ==> ws[B.HeapIndex(vs).value].name == HEAP;
    assert B.HeapIndex(ws).Some? ==> vs[B.HeapIndex(ws).value].name == HEAP;
  }

  // ----- The other spaces and the kernel -----

  /** The parts of a space that a step of somebody else must not touch. */
  ghost predicate Untouched(m: Mem, m': Mem, k: Kernel, frames: seq<nat>) {
    forall f | f in frames || f in k.frames :: Get(m', f) == Get(m, f)
  }

  lemma BystanderOk(vm: Vm, k: Kernel, at: Paths, free': set<nat>, m': Mem)
    requires SpaceSafe(vm, k, at) && Untouched(vm.mem, m', k, vm.sp.frames)
    requires free' !! Owned(vm.sp.frames) && free' !! k.frames && forall f | f in free' :: IsFrame(f)
    ensures SpaceSafe(Vm(free', m', vm.sp), k, at)
    ensures SameWalks(vm.mem, m', vm.sp.root) && SameWalks(vm.mem, m', k.root)
  {
    hide Index, Tree, Translate, B.HeapInside, AllWell, AreasUser, UserVa;
    forall p | p in at && |p| < 4 ensures Get(m', at[p]) == Get(vm.mem, at[p]) {
      assert at[p] in at.Values;
    }
    TreeReads(vm.mem, m', k, at);
    KernelWalks(vm.mem, m', k);
  }

  lemma KernelWalks(m: Mem, m': Mem, k: Kernel)
    requires KernelOk(m, k) && Agree(m, m', k.frames)
    ensures SameWalks(m, m', k.root)
  {
    forall va ensures Translate(m', k.root, va) == Translate(m, k.root, va) {
      WalkReadsTree(m, m', k.root, 0, k.frames, va, true, true);
    }
  }

  /** Nothing a bystander can observe has changed: its record, its walks, the contents of its frames, the kernel's
      walks. */
  ghost predicate Bystanders(s: Sys, s': Sys, k: Kernel, id: nat) {
    && (forall j | j in s.spaces && j != id ::
          && j in s'.spaces && s'.spaces[j] == s.spaces[j]
          && SameWalks(s.mem, s'.mem, s.spaces[j].root) && Untouched(s.mem, s'.mem, k, s.spaces[j].frames))
    && SameWalks(s.mem, s'.mem, k.root)
  }

  /** A step of space `id` that is local to it is invisible to all others, and loses no frame. */
  lemma LocalStep(s: Sys, k: Kernel, ats: map<nat, Paths>, id: nat, vm': Vm, at': Paths)
    requires SysInv(s, k, ats) && id in s.spaces
    requires SpaceSafe(vm', k, at') && Local(PtOf(View(s, id)), PtOf(vm'))
    ensures SysInv(Update(s, id, vm'), k, ats[id := at']) && Bystanders(s, Update(s, id, vm'), k, id)
    ensures AllFrames(Update(s, id, vm')) == AllFrames(s)
  {
    hide SpaceSafe, Local, SameWalks, Untouched, AllFrames, PoolOk, Owned;
    var vm := View(s, id);
    assert SpaceSafe(vm, k, ats[id]);
    SelfWalks(vm, k, ats[id], vm');
    forall j | j in s.spaces && j != id ensures Bystander(s, k, ats, j, vm') {
      assert SpaceSafe(View(s, j), k, ats[j]);
      OneBystander(vm, ats[id], vm', at', View(s, j), ats[j], k);
    }
    BystandersInv(s, k, ats, id, vm', at');
    SameTotal(s, id, vm');
  }

  /** Space `j` does not notice that the pool and the memory are now those of `vm'`. */
  ghost predicate Bystander(s: Sys, k: Kernel, ats: map<nat, Paths>, j: nat, vm': Vm)
    requires j in s.spaces && j in ats
  {
    && SpaceSafe(Vm(vm'.free, vm'.mem, s.spaces[j]), k, ats[j]) && SameWalks(s.mem, vm'.mem, s.spaces[j].root)
    && Untouched(s.mem, vm'.mem, k, s.spaces[j].frames) && Owned(s.spaces[j].frames) !! Owned(vm'.sp.frames)
  }

  lemma BystandersInv(s: Sys, k: Kernel, ats: map<nat, Paths>, id: nat, vm': Vm, at': Paths)
    requires SysInv(s, k, ats) && SpaceSafe(vm', k, at') && PoolOk(vm'.free, vm'.mem, k)
    requires SameWalks(s.mem, vm'.mem, k.root)
    requires forall j | j in s.spaces && j != id :: Bystander(s, k, ats, j, vm')
    ensures SysInv(Update(s, id, vm'), k, ats[id := at']) && Bystanders(s, Update(s, id, vm'), k, id)
  {
    hide SpaceSafe, SameWalks, Untouched, PoolOk, Owned;
    var s' := Update(s, id, vm');
    forall j | j in s'.spaces ensures SpaceSafe(View(s', j), k, ats[id := at'][j]) {
      if j == id {
        assert View(s', id) == vm';
      } else {
        assert Bystander(s, k, ats, j, vm');
      }
    }
    forall i, j | i in s'.spaces && j in s'.spaces && i != j
      ensures Owned(s'.spaces[i].frames) !! Owned(s'.spaces[j].frames)
    {
      if i == id {
        assert Bystander(s, k, ats, j, vm');
      } else if j == id {
        assert Bystander(s, k, ats, i, vm');
      }
    }
    BystandersSee(s, k, ats, id, vm');
  }

  lemma BystandersSee(s: Sys, k: Kernel, ats: map<nat, Paths>, id: nat, vm': Vm)
    requires ats.Keys == s.spaces.Keys && SameWalks(s.mem, vm'.mem, k.root)
    requires forall j | j in s.spaces && j != id :: Bystander(s, k, ats, j, vm')
    ensures Bystanders(s, Update(s, id, vm'), k, id)
  {
    hide SpaceSafe, SameWalks, Untouched, Owned;
  }

  lemma OneBystander(vm: Vm, at: Paths, vm': Vm, at': Paths, other: Vm, atOther: Paths, k: Kernel)
    requires SpaceSafe(vm, k, at) && SpaceSafe(vm', k, at') && Local(PtOf(vm), PtOf(vm'))
    requires SpaceSafe(other, k, atOther) && other.free == vm.free && other.mem == vm.mem
    requires Owned(other.sp.frames) !! Owned(vm.sp.frames)
    ensures SpaceSafe(Vm(vm'.free, vm'.mem, other.sp), k, atOther) && SameWalks(vm.mem, vm'.mem, other.sp.root)
    ensures Untouched(vm.mem, vm'.mem, k, other.sp.frames) && Owned(other.sp.frames) !! Owned(vm'.sp.frames)
  {
    hide Index, Tree, KernelOk, Translate, B.HeapInside, AllWell, AreasUser, UserVa;
    var mine := vm.free + Owned(vm.sp.frames);
    assert vm'.free + Owned(vm'.sp.frames) == mine;
    assert Owned(other.sp.frames) !! mine;
    OutsideMine(vm.mem, vm'.mem, k, other.sp.frames, mine);
    BystanderOk(other, k, atOther, vm'.free, vm'.mem);
  }

  lemma OutsideMine(m: Mem, m': Mem, k: Kernel, frames: seq<nat>, mine: set<nat>)
    requires forall f | f !in mine :: Get(m, f) == Get(m', f)
    requires Owned(frames) !! mine && k.frames !! mine
    ensures Untouched(m, m', k, frames)
  {
  }

  lemma SelfWalks(vm: Vm, k: Kernel, at: Paths, vm': Vm)
    requires SpaceSafe(vm, k, at) && Local(PtOf(vm), PtOf(vm'))
    ensures SameWalks(vm.mem, vm'.mem, k.root) && (PoolOk(vm.free, vm.mem, k) ==> PoolOk(vm'.free, vm'.mem, k))
  {
    hide Index, Tree, Translate, B.HeapInside, AllWell, AreasUser, UserVa;
    KernelWalks(vm.mem, vm'.mem, k);
  }

  lemma SameTotal(s: Sys, id: nat, vm': Vm)
    requires id in s.spaces && Local(PtOf(View(s, id)), PtOf(vm'))
    ensures AllFrames(Update(s, id, vm')) == AllFrames(s)
  {
    var s' := Update(s, id, vm');
    forall f ensures f in AllFrames(s') <==> f in AllFrames(s) {
      TotalMember(s, id, f);
      TotalMember(s', id, f);
      assert forall j | j in s.spaces && j != id :: s'.spaces[j] == s.spaces[j];
      assert f in vm'.free + Owned(vm'.sp.frames) <==> f in s.free + Owned(s.spaces[id].frames);
    }
  }

  lemma TotalMember(s: Sys, id: nat, f: nat)
    requires id in s.spaces
    ensures f in AllFrames(s) <==>
      f in s.free + Owned(s.spaces[id].frames) || exists j :: j in s.spaces && j != id && f in s.spaces[j].frames
  {
  }

  // ----- Stores by user code -----

  /** A store through the space's own page tables replaces the contents of one page. */
  function Store(vm: Vm, va: nat, data: Table): Vm {
    match Translate(vm.mem, vm.sp.root, va)
    case Some(leaf) => if leaf.user && leaf.writable then vm.(mem := vm.mem[leaf.base := data]) else vm
    case None => vm
  }

  lemma LeafIsOwnPage(m: Mem, k: Kernel, at: Paths, va: nat)
    requires Tree(m, k, at) && UserVa(k, va) && Translate(m, at[[]], va).Some?
    ensures Path(va) in at && Translate(m, at[[]], va).value.base == at[Path(va)] && !IsTable(at, at[Path(va)])
  {
    hide Index;
    var p := Path(va)[..3];
    assert Path(va)[..0] == [];
    if Path(va) !in at { WalkToNothing(m, k, at, va, 0); }
    assert PathOk(k, at, Path(va)) && p == Path(va)[..|Path(va)| - 1];
    WalkOnPath(m, k, at, p, va);
    assert SlotOk(m, k, at, p, Index(va, 3)) && p + [Index(va, 3)] == Path(va);
  }

  /** No entry the kernel shares with its spaces carries the user right. */
  ghost predicate Shut(k: Kernel) {
    && (forall i | 1 <= i < 512 && k.pml4[i].present :: !k.pml4[i].user)
    && (forall i | 0 <= i < 512 && k.pdpt[i].present :: !k.pdpt[i].user)
  }

  /** A right that one level withholds is not granted below. */
  lemma {:induction false} NoUserBelow(m: Mem, f: nat, d: nat, va: nat, w: bool)
    requires d < 4
    ensures Walk(m, f, d, va, w, false).Some? ==> !Walk(m, f, d, va, w, false).value.user
    decreases 4 - d
  {
    var e := Get(m, f)[Index(va, d)];
    if Descends(e, d) { NoUserBelow(m, e.addr, d + 1, va, w && e.writable); }
  }

  /** Then user code reaches nothing outside the user range, in any space. */
  lemma KernelShut(m: Mem, k: Kernel, at: Paths, va: nat)
    requires Tree(m, k, at) && Shut(k) && !UserVa(k, va)
    ensures Translate(m, at[[]], va).Some? ==> !Translate(m, at[[]], va).value.user
  {
    hide Index;
    var i, j := Index(va, 0), Index(va, 1);
    var e := Get(m, at[[]])[i];
    assert SlotOk(m, k, at, [], i) && [] + [i] == [i];
    if e.present {
      if i != 0 {
        NoUserBelow(m, e.addr, 1, va, e.writable);
      } else {
        var x := Get(m, e.addr)[j];
        assert SlotOk(m, k, at, [0], j) && [0] + [j] == [0, j];
        if Descends(x, 1) { NoUserBelow(m, x.addr, 2, va, e.writable && x.writable); }
      }
    }
  }

  /** User code can change only its own pages: no table, no kernel frame, no translation; and nothing at all through an
      address outside the user range, if the kernel withholds the user right there. */
  lemma StoreOk(vm: Vm, k: Kernel, at: Paths, va: nat, data: Table)
    requires SpaceSafe(vm, k, at) && (UserVa(k, va) || Shut(k))
    ensures SpaceSafe(Store(vm, va, data), k, at) && Local(PtOf(vm), PtOf(Store(vm, va, data)))
    ensures SameWalks(vm.mem, Store(vm, va, data).mem, vm.sp.root)
    ensures !UserVa(k, va) ==> Store(vm, va, data) == vm
  {
    hide Index, Tree, Translate, B.HeapInside, AllWell, AreasUser, UserVa, Shut;
    var vm' := Store(vm, va, data);
    if !UserVa(k, va) {
      KernelShut(vm.mem, k, at, va);
    } else if vm' != vm {
      LeafIsOwnPage(vm.mem, k, at, va);
      var f := at[Path(va)];
      assert f in at.Values && f in Owned(vm.sp.frames);
      TreeReads(vm.mem, vm'.mem, k, at);
    }
  }

  // ----- Creating and dropping spaces -----

  datatype Created = Failed(free: set<nat>, mem: Mem) | Made(vm: Vm)

  function FreshSpace(root: nat, frames: seq<nat>): Space {
    Space(root, frames, [], MMAP_BASE_START, DEFAULT_USER_HEAP_START, DEFAULT_USER_HEAP_START)
  }

  /** `AddressSpace::new`: copy the kernel's PML4, and the PDPT below PML4[0] if there is one. */
  ghost function NewSpace(free: set<nat>, m: Mem, kroot: nat): Created {
    if free == {} then Failed(free, m)
    else
      var root, pml4 := Lowest(free), Get(m, kroot);
      var free1, m1 := free - {root}, m[root := pml4];
      if !pml4[0].present then Made(Vm(free1, m1, FreshSpace(root, [root])))
      else if free1 == {} then Failed(free1, m1)
      else
        var q := Lowest(free1);
        Made(Vm(free1 - {q}, SetEntry(m1[q := Get(m1, pml4[0].addr)], root, 0, TableEntry(MaskAddr(q))),
          FreshSpace(root, [root, q])))
  }

  /** `Drop`: every recorded frame goes back to the pool. */
  function FreeAll(free: set<nat>, frames: seq<nat>): set<nat>
    decreases frames
  {
    if frames == [] then free else FreeAll(FreeFrame(free, frames[0]), frames[1..])
  }

  lemma {:induction false} FreeAllOk(free: set<nat>, frames: seq<nat>)
    requires forall f | f in frames :: IsFrame(f)
    ensures FreeAll(free, frames) == free + Owned(frames)
    decreases frames
  {
    if frames != [] {
      FreeAllOk(FreeFrame(free, frames[0]), frames[1..]);
      assert IsFrame(frames[0]) && Owned(frames) == {frames[0]} + Owned(frames[1..]);
    }
  }

  function Target(r: Option<Leaf>): Option<(nat, nat)> {
    match r case None => None case Some(l) => Some((l.base, l.offset))
  }

  lemma {:induction false} TargetIgnoresRights(m: Mem, f: nat, d: nat, va: nat, w: bool, u: bool, w': bool, u': bool)
    requires d < 4
    ensures Target(Walk(m, f, d, va, w, u)) == Target(Walk(m, f, d, va, w', u'))
    decreases 4 - d
  {
    var e := Get(m, f)[Index(va, d)];
    if Descends(e, d) {
      TargetIgnoresRights(m, e.addr, d + 1, va, w && e.writable, u && e.user, w' && e.writable, u' && e.user);
    }
  }

  function NewPaths(sp: Space): Paths
    requires |sp.frames| > 0
  {
    if |sp.frames| == 1 then map[[] := sp.frames[0]] else map[[] := sp.frames[0], [0] := sp.frames[1]]
  }

  /** The tables of a new space: a copy of the kernel's PML4, with its own copy of the PDPT at entry 0. */
  ghost predicate Cloned(m: Mem, k: Kernel, vm: Vm) {
    var frames := vm.sp.frames;
    && |frames| == (if k.pml4[0].present then 2 else 1) && vm.sp.root == frames[0]
    && (forall f | f in frames :: f !in k.frames) && (|frames| == 2 ==> frames[0] != frames[1])
    && (forall f | f !in frames :: Get(vm.mem, f) == Get(m, f))
    && Get(vm.mem, vm.sp.root) == (if |frames| == 2 then k.pml4[0 := TableEntry(frames[1])] else k.pml4)
    && (|frames| == 2 ==> Get(vm.mem, frames[1]) == k.pdpt)
  }

  lemma NewTree(m: Mem, k: Kernel, vm: Vm)
    requires KernelOk(m, k) && Cloned(m, k, vm)
    ensures Tree(vm.mem, k, NewPaths(vm.sp)) && KernelOk(vm.mem, k)
  {
    KernelReads(m, vm.mem, k);
    var at := NewPaths(vm.sp);
    forall p, i | p in at && |p| < 4 && 0 <= i < 512 ensures SlotOk(vm.mem, k, at, p, i) {
      assert p == [] || p == [0];
      assert |p + [i]| == |p| + 1 && (p == [] ==> p + [i] == [i]);
    }
    forall p | p in at ensures PathOk(k, at, p) && at[p] in vm.sp.frames {
      assert p == [] || p == [0];
    }
  }

  lemma NewWalks(m: Mem, k: Kernel, vm: Vm, va: nat)
    requires KernelOk(m, k) && Cloned(m, k, vm)
    ensures Target(Translate(vm.mem, vm.sp.root, va)) == Target(Translate(m, k.root, va))
  {
    hide Index;
    var i, j := Index(va, 0), Index(va, 1);
    var e := k.pml4[i];
    if e.present {
      assert Descends(Get(m, k.root)[i], 0) && TreeIn(m, e.addr, 1, k.frames);
      if i != 0 {
        WalkReadsTree(m, vm.mem, e.addr, 1, k.frames, va, e.writable, e.user);
      } else {
        var x := k.pdpt[j];
        if Descends(x, 1) {
          assert Get(m, e.addr)[j] == x && TreeIn(m, x.addr, 2, k.frames);
          WalkReadsTree(m, vm.mem, x.addr, 2, k.frames, va, x.writable, x.user);
          TargetIgnoresRights(m, x.addr, 2, va, x.writable, x.user, e.writable && x.writable, e.user && x.user);
        }
      }
    }
  }

  /** How many frames `AddressSpace::new` needs. */
  function NewNeeds(k: Kernel): nat {
    if k.pml4[0].present then 2 else 1
  }

  ghost predicate MadeOk(free: set<nat>, m: Mem, k: Kernel, vm: Vm) {
    && vm.sp.frames != [] && SpaceSafe(vm, k, NewPaths(vm.sp)) && RecordsOk(vm, k)
    && vm.sp == FreshSpace(vm.sp.root, vm.sp.frames)
    && |vm.sp.frames| == NewNeeds(k) && |vm.free| == |free| - NewNeeds(k)
    && Owned(vm.sp.frames) <= free && vm.free == free - Owned(vm.sp.frames)
    && (forall f | f !in Owned(vm.sp.frames) :: Get(vm.mem, f) == Get(m, f))
    && (forall va :: Target(Translate(vm.mem, vm.sp.root, va)) == Target(Translate(m, k.root, va)))
  }

  /** One frame has left the pool, and only its contents have changed. */
  ghost predicate LostOne(free: set<nat>, m: Mem, free': set<nat>, m': Mem) {
    exists lost :: lost in free && free' == free - {lost} && forall f | f != lost :: Get(m', f) == Get(m, f)
  }

  /** A new space starts with no area and no page of its own and reaches exactly what the kernel's tables reach; it is
      made exactly when the pool has enough frames, and a failure loses one frame exactly when the pool had some but not
      enough. */
  lemma NewSpaceOk(free: set<nat>, m: Mem, k: Kernel)
    requires PoolOk(free, m, k)
    ensures match NewSpace(free, m, k.root)
      case Made(vm) => |free| >= NewNeeds(k) && MadeOk(free, m, k, vm)
      case Failed(free', m') =>
        && |free| < NewNeeds(k)
        && (free == {} ==> free' == free && m' == m)
        && (free != {} ==> LostOne(free, m, free', m'))
  {
    if free != {} {
      var root := Lowest(free);
      assert |free - {root}| == |free| - 1;
      if |free| >= NewNeeds(k) {
        NewSpaceMade(free, m, k);
      } else {
        assert free - {root} == {};
        assert LostOne(free, m, free - {root}, m[root := Get(m, k.root)]);
      }
    }
  }

  lemma NewSpaceMade(free: set<nat>, m: Mem, k: Kernel)
    requires PoolOk(free, m, k) && free != {} && (k.pml4[0].present ==> free - {Lowest(free)} != {})
    ensures var r := NewSpace(free, m, k.root); r.Made? && MadeOk(free, m, k, r.vm)
  {
    hide Tree, KernelOk, Ledger, Translate, NewSpace, NewPaths, SpaceSafe, RecordsOk;
    NewClones(free, m, k);
    var vm := NewSpace(free, m, k.root).vm;
    NewTree(m, k, vm);
    NewLedger(free, m, k, vm);
    FreshOk(vm, k);
    forall va ensures Target(Translate(vm.mem, vm.sp.root, va)) == Target(Translate(m, k.root, va)) {
      NewWalks(m, k, vm, va);
    }
  }

  lemma FreshOk(vm: Vm, k: Kernel)
    requires vm.sp.frames != [] && vm.sp == FreshSpace(vm.sp.frames[0], vm.sp.frames) && !k.pdpt[1].present
    requires Tree(vm.mem, k, NewPaths(vm.sp)) && KernelOk(vm.mem, k) && Ledger(PtOf(vm), k)
    requires NewPaths(vm.sp).Values <= Owned(vm.sp.frames)
    ensures SpaceSafe(vm, k, NewPaths(vm.sp)) && RecordsOk(vm, k)
  {
    hide Tree, KernelOk, Ledger, Matched, UserVa;
    NewMatched(vm.mem, k, vm.sp);
    M.WindowIsUser(k, DEFAULT_USER_HEAP_START, MMAP_BASE_START);
  }

  lemma NewMatched(m: Mem, k: Kernel, sp: Space)
    requires sp.frames != [] && Tree(m, k, NewPaths(sp)) && sp.root == sp.frames[0] && sp.vmas == []
    ensures Matched(k, sp.vmas, m, sp.root)
  {
    hide Tree, Translate;
    forall p: nat | UserPage(k, p) ensures Translate(m, sp.root, p) == None {
      if Translate(m, sp.root, p).Some? {
        LeafIsOwnPage(m, k, NewPaths(sp), p);
        assert false;
      }
    }
  }

  lemma NewClones(free: set<nat>, m: Mem, k: Kernel)
    requires PoolOk(free, m, k) && free != {} && (k.pml4[0].present ==> free - {Lowest(free)} != {})
    ensures var r := NewSpace(free, m, k.root);
      && r.Made? && Cloned(m, k, r.vm) && r.vm.free == free - Owned(r.vm.sp.frames) && Owned(r.vm.sp.frames) <= free
      && r.vm.sp == FreshSpace(r.vm.sp.root, r.vm.sp.frames) && |r.vm.free| == |free| - NewNeeds(k)
  {
    hide NewSpace, Cloned, PoolOk;
    NewTakes(free, m, k);
    NewCopies(free, m, k);
  }

  /** The two tables a space copies are the kernel's. */
  lemma KernelTables(m: Mem, k: Kernel)
    requires KernelOk(m, k)
    ensures k.root in k.frames && Get(m, k.root) == k.pml4
    ensures k.pml4[0].present ==> k.pml4[0].addr in k.frames && Get(m, k.pml4[0].addr) == k.pdpt
  {
    if k.pml4[0].present {
      assert Descends(Get(m, k.root)[0], 0);
      assert TreeIn(m, k.pml4[0].addr, 1, k.frames);
    }
  }

  lemma NewTakes(free: set<nat>, m: Mem, k: Kernel)
    requires PoolOk(free, m, k) && free != {} && (k.pml4[0].present ==> free - {Lowest(free)} != {})
    ensures var r := NewSpace(free, m, k.root);
      && r.Made? && r.vm.free == free - Owned(r.vm.sp.frames) && Owned(r.vm.sp.frames) <= free
      && r.vm.sp == FreshSpace(r.vm.sp.root, r.vm.sp.frames) && |r.vm.free| == |free| - NewNeeds(k)
  {
    hide KernelOk, SetEntry, Get;
    KernelTables(m, k);
  }

  lemma NewCopies(free: set<nat>, m: Mem, k: Kernel)
    requires PoolOk(free, m, k) && free != {} && (k.pml4[0].present ==> free - {Lowest(free)} != {})
    ensures var r := NewSpace(free, m, k.root); r.Made? && Cloned(m, k, r.vm)
  {
    hide KernelOk;
    KernelTables(m, k);
  }

  lemma NewLedger(free: set<nat>, m: Mem, k: Kernel, vm: Vm)
    requires PoolOk(free, m, k) && Cloned(m, k, vm) && vm.free == free - Owned(vm.sp.frames)
    requires Owned(vm.sp.frames) <= free
    ensures Ledger(PtOf(vm), k) && vm.sp.frames != [] && NewPaths(vm.sp).Values <= Owned(vm.sp.frames)
  {
  }
}
