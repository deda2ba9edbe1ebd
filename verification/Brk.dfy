/** brk: one heap area that grows and shrinks in whole pages. */
module Brk {
  import opened Wrappers
  import opened Paging
  import opened PageTables
  import opened UserPages
  import opened Vmas
  import opened AddressSpaces
  import opened VmCalls

  function HeapIndex(vs: seq<VmArea>): (r: Option<nat>)
    ensures r.Some? ==> r.value < |vs| && vs[r.value].name == HEAP
    ensures r == None ==> forall i | 0 <= i < |vs| :: vs[i].name != HEAP
  {
    if vs == [] then None
    else if vs[0].name == HEAP then Some(0)
    else match HeapIndex(vs[1..]) case None => None case Some(i) => Some(i + 1)
  }

  function Minus(a: nat, b: nat): nat {
    if a < b then 0 else a - b
  }

  function Resize(vs: seq<VmArea>, pos: nat, end: nat): seq<VmArea>
    requires pos < |vs|
  {
    vs[pos := vs[pos].(size := Minus(end, vs[pos].start))]
  }

  function WithHeap(vm: Vm, vs: seq<VmArea>, brk: nat): Vm {
    vm.(sp := vm.sp.(vmas := vs, heapEnd := brk))
  }

  /** PROT_READ | PROT_WRITE, MAP_PRIVATE | MAP_ANONYMOUS. */
  function NewHeap(start: nat, end: nat): VmArea {
    VmArea(start, Minus(end, start), 3, 0x22, false, HEAP, map[])
  }

  /** The areas after growing the heap to `end`, unless another area is in the way. */
  function GrowAreas(vs: seq<VmArea>, heapStart: nat, end: nat): Option<seq<VmArea>> {
    match HeapIndex(vs)
    case Some(pos) =>
      if Conflict(vs[..pos] + vs[pos + 1..], vs[pos].start, Minus(end, vs[pos].start)).Some? then None
      else Some(Resize(vs, pos, end))
    case None =>
      if Conflict(vs, heapStart, Minus(end, heapStart)).Some? then None
      else Some(vs + [NewHeap(heapStart, end)])
  }

  function Shrink(vm: Vm, brk: nat): Vm {
    var end, oldEnd := AlignUp(brk), AlignUp(vm.sp.heapEnd);
    var vm1 := if end < oldEnd then Munmap(vm, end, oldEnd - end).1 else vm;
    match HeapIndex(vm1.sp.vmas)
    case Some(pos) => WithHeap(vm1, Resize(vm1.sp.vmas, pos, end), brk)
    case None => WithHeap(vm1, vm1.sp.vmas, brk)
  }

  function Brk(vm: Vm, brk: nat): (nat, Vm) {
    var sp := vm.sp;
    if brk == 0 || brk < sp.heapStart || brk == sp.heapEnd || brk > MMAP_BASE_START then (sp.heapEnd, vm)
    else if brk > sp.heapEnd then
      match GrowAreas(sp.vmas, sp.heapStart, AlignUp(brk))
      case None => (sp.heapEnd, vm)
      case Some(vs) => (brk, WithHeap(vm, vs, brk))
    else (brk, Shrink(vm, brk))
  }

  /** The heap is at most one area, from `heap_start` to the page-rounded break, and none when it is empty. */
  ghost predicate HeapOk(sp: Space) {
    && sp.heapStart % PAGE_SIZE == 0 && sp.heapStart <= sp.heapEnd <= MMAP_BASE_START
    && (forall i | 0 <= i < |sp.vmas| && sp.vmas[i].name == HEAP ::
          sp.vmas[i].start == sp.heapStart && sp.vmas[i].End() == AlignUp(sp.heapEnd))
    && (HeapIndex(sp.vmas).Some? <==> sp.heapEnd > sp.heapStart)
  }

  /** Every heap area lies in the range. */
  ghost predicate HeapWithin(vs: seq<VmArea>, lo: nat, hi: nat) {
    forall i | 0 <= i < |vs| && vs[i].name == HEAP :: lo <= vs[i].start && vs[i].End() <= hi
  }

  /** The heap may be in pieces, but every piece lies below the page-rounded break. */
  ghost predicate HeapInside(sp: Space) {
    && sp.heapStart % PAGE_SIZE == 0 && sp.heapStart <= sp.heapEnd <= MMAP_BASE_START
    && HeapWithin(sp.vmas, sp.heapStart, AlignUp(sp.heapEnd))
  }

  /** The two lists record the same pages. */
  ghost predicate SamePages(vs: seq<VmArea>, ws: seq<VmArea>) {
    forall p: nat, f: Backing :: Populates(ws, p, f) <==> Populates(vs, p, f)
  }

  lemma SamePagesMatched(k: Kernel, vs: seq<VmArea>, ws: seq<VmArea>, m: Mem, root: nat)
    requires SamePages(vs, ws) && Matched(k, vs, m, root)
    ensures Matched(k, ws, m, root)
  {
    hide PageAt, UserPage, Populates;
  }

  /** The other areas are untouched. */
  ghost predicate OthersKept(vs: seq<VmArea>, ws: seq<VmArea>) {
    forall v: VmArea | v.name != HEAP :: v in ws <==> v in vs
  }

  lemma AlignUpMono(a: nat, b: nat)
    requires a <= b
    ensures AlignUp(a) <= AlignUp(b)
  {
  }

  lemma AlignUpAligned(a: nat, b: nat)
    requires b % PAGE_SIZE == 0
    ensures AlignUp(a) <= b <==> a <= b
  {
  }

  // ----- Growing -----

  /** The heap area alone may cover what growing needs. */
  ghost predicate RoomToGrow(vs: seq<VmArea>, start: nat, end: nat)
    requires start <= end
  {
    forall i | 0 <= i < |vs| && vs[i].name != HEAP :: !vs[i].Overlaps(start, end - start)
  }

  lemma OnlyHeap(vs: seq<VmArea>, pos: nat, start: nat)
    requires AreasOk(vs) && pos < |vs| && vs[pos].name == HEAP
    requires forall i | 0 <= i < |vs| && vs[i].name == HEAP :: vs[i].start == start
    ensures forall i | 0 <= i < |vs| && i != pos :: vs[i].name != HEAP
  {
  }

  ghost predicate HeapSpans(vs: seq<VmArea>, start: nat, end: nat) {
    forall i | 0 <= i < |vs| && vs[i].name == HEAP :: vs[i].start == start && vs[i].End() == end
  }

  ghost predicate GrownAreas(k: Kernel, vs: seq<VmArea>, ws: seq<VmArea>, start: nat, end: nat) {
    && AreasOk(ws) && AreasUser(k, ws) && OthersKept(vs, ws)
    && HeapSpans(ws, start, end) && HeapIndex(ws).Some?
  }

  lemma GrowOk(k: Kernel, vs: seq<VmArea>, start: nat, oldEnd: nat, end: nat)
    requires AreasOk(vs) && AreasUser(k, vs) && HeapSpans(vs, start, oldEnd)
    requires start % PAGE_SIZE == 0 && end % PAGE_SIZE == 0 && start < end && oldEnd <= end && UserRange(k, start, end)
    ensures GrowAreas(vs, start, end).Some? <==> RoomToGrow(vs, start, end)
    ensures GrowAreas(vs, start, end).Some? ==> GrownAreas(k, vs, GrowAreas(vs, start, end).value, start, end)
  {
    hide UserVa, GrownAreas, AreasUser;
    AlignedGap(start, end);
    if HeapIndex(vs).Some? {
      var pos := HeapIndex(vs).value;
      OnlyHeap(vs, pos, start);
      WithoutPos(vs, pos, start, end - start);
      if RoomToGrow(vs, start, end) { ResizeOk(k, vs, pos, start, end); }
    } else if RoomToGrow(vs, start, end) {
      NewHeapOk(k, vs, start, end);
    }
  }

  lemma NewHeapOk(k: Kernel, vs: seq<VmArea>, start: nat, end: nat)
    requires start % PAGE_SIZE == 0 && end % PAGE_SIZE == 0 && start < end && UserRange(k, start, end)
    requires AreasOk(vs) && AreasUser(k, vs) && HeapIndex(vs) == None && RoomToGrow(vs, start, end)
    ensures GrownAreas(k, vs, vs + [NewHeap(start, end)], start, end)
  {
    hide UserVa;
    AlignedGap(start, end);
    var v := NewHeap(start, end);
    var ws := vs + [v];
    assert v.WellFormed() && ws[|vs|] == v;
    forall i | 0 <= i < |ws| ensures ws[i].WellFormed() && UserRange(k, ws[i].start, ws[i].End()) {
      assert i < |vs| ==> vs[i].WellFormed() && UserRange(k, vs[i].start, vs[i].End());
    }
    forall i, j | 0 <= i < j < |ws| ensures Apart(ws[i], ws[j]) {
      if j < |vs| { assert Apart(vs[i], vs[j]); } else { assert !vs[i].Overlaps(start, end - start); }
    }
  }

  lemma WithoutPos(vs: seq<VmArea>, pos: nat, start: nat, len: nat)
    requires pos < |vs| && vs[pos].name == HEAP && forall i | 0 <= i < |vs| && i != pos :: vs[i].name != HEAP
    ensures RangeFree(vs[..pos] + vs[pos + 1..], start, len)
        <==> forall i | 0 <= i < |vs| && vs[i].name != HEAP :: !vs[i].Overlaps(start, len)
  {
    var rest := vs[..pos] + vs[pos + 1..];
    assert forall i | 0 <= i < pos :: rest[i] == vs[i];
    assert forall i | pos < i < |vs| :: rest[i - 1] == vs[i];
  }

  lemma ResizeOk(k: Kernel, vs: seq<VmArea>, pos: nat, start: nat, end: nat)
    requires AreasOk(vs) && AreasUser(k, vs) && pos < |vs| && vs[pos].name == HEAP && vs[pos].start == start
    requires forall i | 0 <= i < |vs| && i != pos :: vs[i].name != HEAP
    requires end % PAGE_SIZE == 0 && start < end && vs[pos].End() <= end && UserRange(k, start, end)
    requires RoomToGrow(vs, start, end)
    ensures GrownAreas(k, vs, Resize(vs, pos, end), start, end)
  {
    hide UserVa;
    assert vs[pos].WellFormed();
    AlignedGap(start, end);
    var ws := Resize(vs, pos, end);
    forall i | 0 <= i < |ws| ensures ws[i].WellFormed() && UserRange(k, ws[i].start, ws[i].End()) {
      assert vs[i].WellFormed() && UserRange(k, vs[i].start, vs[i].End());
    }
    forall i, j | 0 <= i < j < |ws| ensures Apart(ws[i], ws[j]) {
      assert Apart(vs[i], vs[j]);
      assert i != pos ==> !vs[i].Overlaps(start, end - start);
      assert j != pos ==> !vs[j].Overlaps(start, end - start);
    }
    SameExceptHeap(vs, ws, pos);
    assert ws[pos].name == HEAP;
  }

  lemma SameExceptHeap(vs: seq<VmArea>, ws: seq<VmArea>, pos: nat)
    requires |vs| == |ws| && pos < |vs| && vs[pos].name == HEAP && ws[pos].name == HEAP
    requires forall i | 0 <= i < |vs| && i != pos :: ws[i] == vs[i]
    ensures OthersKept(vs, ws)
  {
  }

  // ----- A heap in pieces -----

  lemma ResizeSafe(k: Kernel, vs: seq<VmArea>, pos: nat, start: nat, end: nat)
    requires AllWell(vs) && AreasUser(k, vs) && pos < |vs| && vs[pos].name == HEAP && HeapWithin(vs, start, end)
    requires end % PAGE_SIZE == 0 && UserRange(k, start, end)
    ensures var ws := Resize(vs, pos, end);
      AllWell(ws) && AreasUser(k, ws) && HeapWithin(ws, start, end) && SamePages(vs, ws)
  {
    hide UserVa;
    assert vs[pos].WellFormed();
    AlignedGap(vs[pos].start, end);
    var ws := Resize(vs, pos, end);
    forall i | 0 <= i < |ws| ensures ws[i].WellFormed() && UserRange(k, ws[i].start, ws[i].End()) {
      assert vs[i].WellFormed() && UserRange(k, vs[i].start, vs[i].End());
    }
    forall p: nat, f: Backing ensures Populates(ws, p, f) <==> Populates(vs, p, f) {
      assert forall i | 0 <= i < |vs| :: Records(ws[i], p, f) <==> Records(vs[i], p, f);
    }
  }

  lemma GrowSafe(k: Kernel, vs: seq<VmArea>, start: nat, end: nat)
    requires AllWell(vs) && AreasUser(k, vs) && HeapWithin(vs, start, end)
    requires start % PAGE_SIZE == 0 && end % PAGE_SIZE == 0 && start < end && UserRange(k, start, end)
    ensures match GrowAreas(vs, start, end)
      case None => true
      case Some(ws) => AllWell(ws) && AreasUser(k, ws) && HeapWithin(ws, start, end) && SamePages(vs, ws)
  {
    hide UserVa;
    if HeapIndex(vs).Some? {
      ResizeSafe(k, vs, HeapIndex(vs).value, start, end);
    } else {
      AlignedGap(start, end);
      var v := NewHeap(start, end);
      forall p: nat, f: Backing ensures Populates(vs + [v], p, f) <==> Populates(vs, p, f) {
        PopulatesAppend(vs, [v], p, f);
      }
    }
  }

  /** Cutting keeps heap areas in their range, and below the cut if the cut reaches the end of it. */
  lemma CutWithin(vs: seq<VmArea>, ws: seq<VmArea>, start: nat, end: nat, lo: nat, hi: nat)
    requires Subtracts(vs, ws, lo, hi) && AllWell(ws) && HeapWithin(vs, start, end)
    ensures HeapWithin(ws, start, if hi >= end && lo < end then lo else end)
  {
    forall i | 0 <= i < |ws| && ws[i].name == HEAP
      ensures start <= ws[i].start && ws[i].End() <= if hi >= end && lo < end then lo else end
    {
      assert ws[i].WellFormed();
      var first, last := ws[i].start, ws[i].End() - 1;
      assert Covers(ws, first, AttrsOf(ws[i])) && Covers(ws, last, AttrsOf(ws[i]));
      assert Covers(vs, first, AttrsOf(ws[i])) && Covers(vs, last, AttrsOf(ws[i]));
    }
  }

  ghost predicate BrkKeeps(vm: Vm, vm': Vm, k: Kernel, at': Paths, brk: nat) {
    && VmInv(vm', k, at') && HeapInside(vm'.sp) && Local(PtOf(vm), PtOf(vm'))
    && vm'.sp == vm.sp.(frames := vm'.sp.frames, vmas := vm'.sp.vmas, heapEnd := brk)
  }

  lemma ShrinkSafe(vm: Vm, k: Kernel, at: Paths, brk: nat) returns (at': Paths)
    requires VmInv(vm, k, at) && HeapInside(vm.sp) && vm.sp.heapStart <= brk < vm.sp.heapEnd
    requires UserRange(k, vm.sp.heapStart, MMAP_BASE_START)
    ensures BrkKeeps(vm, Shrink(vm, brk), k, at', brk)
  {
    hide Inv, Local, UserVa, UnmapsTo, Munmap, AlignUp, Subtracts, HeapWithin, Resize;
    var start, end, oldEnd := vm.sp.heapStart, AlignUp(brk), AlignUp(vm.sp.heapEnd);
    AlignUpMono(brk, vm.sp.heapEnd);
    AlignUpAligned(vm.sp.heapEnd, MMAP_BASE_START);
    AlignUpAligned(brk, start);
    LocalRefl(PtOf(vm));
    at' := at;
    var vm1 := vm;
    if end < oldEnd {
      AlignedGap(end, oldEnd);
      AlignUpAligned(oldEnd - end, oldEnd - end);
      at' := MunmapOk(vm, k, at, end, oldEnd - end);
      vm1 := Munmap(vm, end, oldEnd - end).1;
      CutWithin(vm.sp.vmas, vm1.sp.vmas, start, oldEnd, end, oldEnd);
    }
    if HeapIndex(vm1.sp.vmas).Some? { ResizeSafe(k, vm1.sp.vmas, HeapIndex(vm1.sp.vmas).value, start, end); }
    assert PtOf(Shrink(vm, brk)) == PtOf(vm1);
  }

  /** Whatever munmap has made of the heap, `brk` keeps tables, ledger and areas in order. */
  lemma BrkSafe(vm: Vm, k: Kernel, at: Paths, brk: nat) returns (at': Paths)
    requires VmInv(vm, k, at) && HeapInside(vm.sp) && UserRange(k, vm.sp.heapStart, MMAP_BASE_START)
    ensures var (r, vm') := Brk(vm, brk); BrkKeeps(vm, vm', k, at', r)
  {
    hide Inv, Local, UserVa, Shrink, AlignUp, GrowAreas, HeapWithin;
    var sp := vm.sp;
    at' := at;
    LocalRefl(PtOf(vm));
    if BrkInBounds(sp, brk) && brk != sp.heapEnd {
      if brk > sp.heapEnd {
        AlignUpMono(sp.heapEnd, brk);
        AlignUpAligned(brk, MMAP_BASE_START);
        WithinMore(sp.vmas, sp.heapStart, AlignUp(sp.heapEnd), AlignUp(brk));
        GrowSafe(k, sp.vmas, sp.heapStart, AlignUp(brk));
        assert PtOf(Brk(vm, brk).1) == PtOf(vm);
      } else {
        at' := ShrinkSafe(vm, k, at, brk);
      }
    }
  }

  lemma WithinMore(vs: seq<VmArea>, lo: nat, hi: nat, hi': nat)
    requires HeapWithin(vs, lo, hi) && hi <= hi'
    ensures HeapWithin(vs, lo, hi')
  {
  }

  // ----- Shrinking -----

  /** Cutting the end of the heap leaves the shorter heap, or nothing, and every other area. */
  lemma {:induction false} CutHeapEnd(vs: seq<VmArea>, start: nat, mid: nat, end: nat)
    requires start <= mid < end && HeapSpans(vs, start, end)
    requires forall i | 0 <= i < |vs| && vs[i].name != HEAP :: vs[i].End() <= start || end <= vs[i].start
    ensures var ws := CutAll(vs, mid, end);
      && HeapSpans(ws, start, mid) && OthersKept(vs, ws)
      && (HeapIndex(ws).Some? <==> HeapIndex(vs).Some? && start < mid)
  {
    hide Cut, HeapIndex, OthersKept;
    if vs == [] {
      AllKept(vs);
    } else {
      assert forall i | 0 <= i < |vs[1..]| :: vs[1..][i] == vs[i + 1];
      CutHeapEnd(vs[1..], start, mid, end);
      var v, c := vs[0], Cut(vs[0], mid, end);
      CutOne(v, start, mid, end);
      assert CutAll(vs, mid, end) == c + CutAll(vs[1..], mid, end);
      assert vs == [v] + vs[1..];
      JoinHeap([v], c, vs[1..], CutAll(vs[1..], mid, end), start, mid);
      HeapAppend([v], vs[1..]);
      HeapAppend(c, CutAll(vs[1..], mid, end));
    }
  }

  lemma HeapAppend(vs: seq<VmArea>, ws: seq<VmArea>)
    ensures HeapIndex(vs + ws).Some? <==> HeapIndex(vs).Some? || HeapIndex(ws).Some?
  {
    var u := vs + ws;
    assert HeapIndex(vs).Some? ==> u[HeapIndex(vs).value].name == HEAP;
    assert HeapIndex(ws).Some? ==> u[|vs| + HeapIndex(ws).value].name == HEAP;
  }

  lemma JoinHeap(v: seq<VmArea>, c: seq<VmArea>, vs: seq<VmArea>, ws: seq<VmArea>, start: nat, end: nat)
    requires HeapSpans(c, start, end) && HeapSpans(ws, start, end) && OthersKept(v, c) && OthersKept(vs, ws)
    ensures HeapSpans(c + ws, start, end) && OthersKept(v + vs, c + ws)
  {
  }

  lemma CutOne(v: VmArea, start: nat, mid: nat, end: nat)
    requires start <= mid < end && (v.name == HEAP ==> v.start == start && v.End() == end)
    requires v.name != HEAP ==> v.End() <= start || end <= v.start
    ensures var c := Cut(v, mid, end);
      && HeapSpans(c, start, mid) && OthersKept([v], c)
      && (HeapIndex(c).Some? <==> HeapIndex([v]).Some? && start < mid)
  {
    assert Cut(v, mid, end) ==
      if v.name != HEAP then [v]
      else if start < mid then [v.(size := mid - v.start, populated := KeysOutside(v.populated, mid, end))] else [];
  }

  lemma OthersAway(vs: seq<VmArea>, start: nat, end: nat)
    requires AreasOk(vs) && HeapSpans(vs, start, end) && HeapIndex(vs).Some?
    ensures forall i | 0 <= i < |vs| && vs[i].name != HEAP :: vs[i].End() <= start || end <= vs[i].start
  {
  }

  lemma ResizeSame(vs: seq<VmArea>, start: nat, end: nat)
    requires HeapSpans(vs, start, end)
    ensures match HeapIndex(vs) case None => true case Some(pos) => Resize(vs, pos, end) == vs
  {
  }

  lemma ShrinkOk(vm: Vm, k: Kernel, at: Paths, brk: nat) returns (at': Paths)
    requires VmInv(vm, k, at) && AreasOk(vm.sp.vmas) && HeapOk(vm.sp) && vm.sp.heapStart <= brk < vm.sp.heapEnd
    requires UserRange(k, vm.sp.heapStart, MMAP_BASE_START)
    ensures var vm' := Shrink(vm, brk);
      && VmInv(vm', k, at') && AreasOk(vm'.sp.vmas) && HeapOk(vm'.sp) && OthersKept(vm.sp.vmas, vm'.sp.vmas)
      && (Matched(k, vm.sp.vmas, vm.mem, vm.sp.root) ==> Matched(k, vm'.sp.vmas, vm'.mem, vm.sp.root))
      && UnmapsTo(PtOf(vm), PtOf(vm'), k, at, at', AlignUp(brk), AlignUp(vm.sp.heapEnd))
      && vm'.sp.heapEnd == brk && vm'.sp.heapStart == vm.sp.heapStart && vm'.sp.root == vm.sp.root
  {
    hide Inv, UserVa, AllWell, AreasOk, UnmapsTo, Munmap, AlignUp, OthersKept, Matched;
    var start, end, oldEnd := vm.sp.heapStart, AlignUp(brk), AlignUp(vm.sp.heapEnd);
    AlignUpMono(brk, vm.sp.heapEnd);
    AlignUpAligned(vm.sp.heapEnd, MMAP_BASE_START);
    AlignUpAligned(brk, start);
    at' := at;
    var vm1 := vm;
    if end < oldEnd {
      at' := CutTail(vm, k, at, end, oldEnd);
      vm1 := Munmap(vm, end, oldEnd - end).1;
    } else {
      UnmapsNone(PtOf(vm), k, at, end, oldEnd);
      AllKept(vm.sp.vmas);
    }
    ResizeSame(vm1.sp.vmas, start, end);
    assert Shrink(vm, brk) == WithHeap(vm1, vm1.sp.vmas, brk);
    assert PtOf(Shrink(vm, brk)) == PtOf(vm1);
  }

  /** The munmap inside a shrinking brk. */
  lemma CutTail(vm: Vm, k: Kernel, at: Paths, end: nat, oldEnd: nat) returns (at': Paths)
    requires VmInv(vm, k, at) && AreasOk(vm.sp.vmas)
    requires HeapSpans(vm.sp.vmas, vm.sp.heapStart, oldEnd) && HeapIndex(vm.sp.vmas).Some?
    requires end % PAGE_SIZE == 0 && oldEnd % PAGE_SIZE == 0 && vm.sp.heapStart <= end < oldEnd
    requires UserRange(k, end, oldEnd)
    ensures var vm1 := Munmap(vm, end, oldEnd - end).1;
      && VmInv(vm1, k, at') && AreasOk(vm1.sp.vmas) && OthersKept(vm.sp.vmas, vm1.sp.vmas)
      && (Matched(k, vm.sp.vmas, vm.mem, vm.sp.root) ==> Matched(k, vm1.sp.vmas, vm1.mem, vm.sp.root))
      && UnmapsTo(PtOf(vm), PtOf(vm1), k, at, at', end, oldEnd)
      && HeapSpans(vm1.sp.vmas, vm.sp.heapStart, end)
      && (HeapIndex(vm1.sp.vmas).Some? <==> vm.sp.heapStart < end)
      && vm1.sp.heapStart == vm.sp.heapStart && vm1.sp.root == vm.sp.root
  {
    hide Inv, UserVa, UnmapsTo, UnmapRange, CutAll, Subtracts, AlignUp, OthersKept, Matched, HeapSpans, AreasOk,
      AllWell, AreasUser;
    AlignedGap(end, oldEnd);
    AlignUpAligned(oldEnd - end, oldEnd - end);
    at' := MunmapOk(vm, k, at, end, oldEnd - end);
    OthersAway(vm.sp.vmas, vm.sp.heapStart, oldEnd);
    CutHeapEnd(vm.sp.vmas, vm.sp.heapStart, end, oldEnd);
    var vm1 := Munmap(vm, end, oldEnd - end).1;
    if Matched(k, vm.sp.vmas, vm.mem, vm.sp.root) {
      UnmapsWalks(PtOf(vm), PtOf(vm1), k, at, at', end, oldEnd);
      UnmapMatched(k, vm.sp.vmas, vm1.sp.vmas, vm.mem, vm1.mem, vm.sp.root, end, oldEnd);
    }
  }

  lemma GrownWell(k: Kernel, vs: seq<VmArea>, ws: seq<VmArea>, start: nat, end: nat)
    requires GrownAreas(k, vs, ws, start, end)
    ensures AreasOk(ws) && AllWell(ws)
  {
  }

  lemma AllKept(vs: seq<VmArea>)
    ensures OthersKept(vs, vs)
  {
  }

  predicate BrkInBounds(sp: Space, brk: nat) {
    brk != 0 && sp.heapStart <= brk <= MMAP_BASE_START
  }

  ghost predicate BrkGranted(sp: Space, brk: nat) {
    BrkInBounds(sp, brk) && (brk > sp.heapEnd ==> RoomToGrow(sp.vmas, sp.heapStart, AlignUp(brk)))
  }

  /** `brk` keeps the heap one area up to the page-rounded break and leaves the other areas alone; a refused call
      changes nothing; shrinking unmaps the tail and returns its frames; growing allocates nothing. */
  lemma BrkOk(vm: Vm, k: Kernel, at: Paths, brk: nat) returns (at': Paths)
    requires VmInv(vm, k, at) && AreasOk(vm.sp.vmas) && HeapOk(vm.sp) && UserRange(k, vm.sp.heapStart, MMAP_BASE_START)
    ensures var (r, vm') := Brk(vm, brk);
      && VmInv(vm', k, at') && AreasOk(vm'.sp.vmas) && HeapOk(vm'.sp) && Local(PtOf(vm), PtOf(vm'))
      && OthersKept(vm.sp.vmas, vm'.sp.vmas)
      && (Matched(k, vm.sp.vmas, vm.mem, vm.sp.root) ==> Matched(k, vm'.sp.vmas, vm'.mem, vm.sp.root))
      && r == vm'.sp.heapEnd && vm'.sp.heapStart == vm.sp.heapStart
      && (BrkGranted(vm.sp, brk) ==> r == brk)
      && (!BrkGranted(vm.sp, brk) ==> vm' == vm)
      && (r >= vm.sp.heapEnd ==> PtOf(vm') == PtOf(vm))
      && (r < vm.sp.heapEnd ==> UnmapsTo(PtOf(vm), PtOf(vm'), k, at, at', AlignUp(r), AlignUp(vm.sp.heapEnd)))
  {
    hide Index, Inv, Local, UserVa, UnmapsTo, Shrink, AlignUp, OthersKept, GrowAreas, AreasOk, AllWell, Matched,
      SamePages;
    var sp := vm.sp;
    at' := at;
    LocalRefl(PtOf(vm));
    AllKept(sp.vmas);
    if BrkInBounds(sp, brk) && brk != sp.heapEnd {
      if brk > sp.heapEnd {
        AlignUpMono(sp.heapEnd, brk);
        AlignUpAligned(brk, MMAP_BASE_START);
        GrowOk(k, sp.vmas, sp.heapStart, AlignUp(sp.heapEnd), AlignUp(brk));
        if BrkGranted(sp, brk) {
          GrownWell(k, sp.vmas, GrowAreas(sp.vmas, sp.heapStart, AlignUp(brk)).value, sp.heapStart, AlignUp(brk));
          assert PtOf(Brk(vm, brk).1) == PtOf(vm);
          GrowSafe(k, sp.vmas, sp.heapStart, AlignUp(brk));
          if Matched(k, sp.vmas, vm.mem, sp.root) {
            SamePagesMatched(k, sp.vmas, Brk(vm, brk).1.sp.vmas, vm.mem, sp.root);
          }
        }
      } else {
        at' := ShrinkOk(vm, k, at, brk);
        UnmapsInv(PtOf(vm), PtOf(Shrink(vm, brk)), k, at, at', AlignUp(brk), AlignUp(sp.heapEnd));
      }
    }
  }
}
