/** Whole runs of many address spaces: calls, user stores, creation and teardown in any order. */
module SpaceRuns {
  import opened Wrappers
  import opened Paging
  import opened PageTables
  import opened UserPages
  import opened Vmas
  import opened AddressSpaces
  import opened Spaces

  datatype Event =
    | Call(id: nat, op: Op)
    | Write(id: nat, va: nat, data: Table)
    | Create(id: nat)
    | Drop(id: nat)

  ghost function Step(s: Sys, k: Kernel, e: Event): Sys {
    match e
    case Create(id) =>
      (match NewSpace(s.free, s.mem, k.root)
       case Made(vm) => Update(s, id, vm)
       case Failed(free, mem) => Sys(free, mem, s.spaces))
    case Call(id, op) => if id !in s.spaces then s else Update(s, id, ApplyTo(View(s, id), op))
    case Write(id, va, data) => if id !in s.spaces then s else Update(s, id, Store(View(s, id), va, data))
    case Drop(id) => if id !in s.spaces then s else Sys(FreeAll(s.free, s.spaces[id].frames), s.mem, s.spaces - {id})
  }

  /** Spaces are created under new names and used while they exist; user stores go anywhere, if the kernel withholds the
      user right on its own entries. */
  ghost predicate EventOk(s: Sys, k: Kernel, e: Event) {
    match e
    case Create(id) => id !in s.spaces
    case Call(id, op) => id in s.spaces && Domain(View(s, id), k, op)
    case Write(id, va, data) => id in s.spaces && (UserVa(k, va) || Shut(k))
    case Drop(id) => id in s.spaces
  }

  /** The frames a step loses: one when a creation finds some frames but not enough. */
  function Lost(s: Sys, k: Kernel, e: Event): nat {
    if e.Create? && s.free != {} && |s.free| < NewNeeds(k) then 1 else 0
  }

  /** Frames are never invented, and exactly `lost` of them disappear. */
  ghost predicate Conserves(s: Sys, s': Sys, lost: nat) {
    AllFrames(s') <= AllFrames(s) && |AllFrames(s)| == |AllFrames(s')| + lost
  }

  ghost predicate Kept(s: Sys, s': Sys, k: Kernel, ats': map<nat, Paths>, id: nat, lost: nat) {
    SysInv(s', k, ats') && Bystanders(s, s', k, id) && Conserves(s, s', lost)
  }

  lemma StepKeeps(s: Sys, k: Kernel, ats: map<nat, Paths>, e: Event) returns (ats': map<nat, Paths>)
    requires SysInv(s, k, ats) && EventOk(s, k, e)
    ensures Kept(s, Step(s, k, e), k, ats', e.id, Lost(s, k, e))
  {
    hide SpaceSafe, PoolOk, Local, Bystanders, AllFrames, Domain, ApplyTo, Store, UserVa, NewSpace, FreeAll, Stepped;
    match e
    case Call(id, op) =>
      var vm := View(s, id);
      assert SpaceSafe(vm, k, ats[id]);
      var at' := StepOk(vm, k, ats[id], op);
      SteppedSafe(vm, ApplyTo(vm, op), k, at', op);
      LocalStep(s, k, ats, id, ApplyTo(vm, op), at');
      ats' := ats[id := at'];
    case Write(id, va, data) =>
      assert SpaceSafe(View(s, id), k, ats[id]);
      StoreOk(View(s, id), k, ats[id], va, data);
      LocalStep(s, k, ats, id, Store(View(s, id), va, data), ats[id]);
      ats' := ats[id := ats[id]];
    case Create(id) =>
      ats' := CreateKeeps(s, k, ats, id);
    case Drop(id) =>
      ats' := DropKeeps(s, k, ats, id);
  }

  /** The events, whether or not the pool can pay for them. */
  ghost predicate EventUser(s: Sys, k: Kernel, e: Event) {
    match e
    case Call(id, op) => id in s.spaces && UserOnly(View(s, id), k, op)
    case _ => EventOk(s, k, e)
  }

  /** The side condition on the pool is exact: a call in a sound system leaves it sound if and only if it is met. */
  lemma StepKeepsIff(s: Sys, k: Kernel, ats: map<nat, Paths>, e: Event)
    requires SysInv(s, k, ats) && EventUser(s, k, e)
    ensures (exists ats' :: SysInv(Step(s, k, e), k, ats')) <==> EventOk(s, k, e)
  {
    hide SpaceSafe, PoolOk, UserOnly, Paid, ApplyTo, DoubleBooked, Store, NewSpace, FreeAll, UserVa, AllFrames,
      Bystanders;
    if EventOk(s, k, e) {
      var ats' := StepKeeps(s, k, ats, e);
    } else {
      var vm := View(s, e.id);
      assert SpaceSafe(vm, k, ats[e.id]);
      StepIff(vm, k, ats[e.id], e.op);
      assert View(Step(s, k, e), e.id) == ApplyTo(vm, e.op);
    }
  }

  // ----- Creating a space -----

  lemma CreateKeeps(s: Sys, k: Kernel, ats: map<nat, Paths>, id: nat) returns (ats': map<nat, Paths>)
    requires SysInv(s, k, ats) && id !in s.spaces
    ensures Kept(s, Step(s, k, Create(id)), k, ats', id, Lost(s, k, Create(id)))
  {
    hide SpaceSafe, PoolOk, NewSpace, MadeOk, Untouched, SameWalks, LostOne, AllFrames;
    NewSpaceOk(s.free, s.mem, k);
    match NewSpace(s.free, s.mem, k.root)
    case Failed(free, mem) =>
      ats' := ats;
      if s.free == {} {
        assert Step(s, k, Create(id)) == s;
        NothingMoved(s, k, id);
      } else {
        FailKeeps(s, k, ats, id, free, mem);
      }
    case Made(vm) =>
      ats' := ats[id := NewPaths(vm.sp)];
      MadeKeeps(s, k, ats, id, vm);
  }

  lemma NothingMoved(s: Sys, k: Kernel, id: nat)
    ensures Bystanders(s, s, k, id)
  {
  }

  /** A failed creation may lose a frame, but disturbs nobody. */
  lemma FailKeeps(s: Sys, k: Kernel, ats: map<nat, Paths>, id: nat, free: set<nat>, mem: Mem)
    requires SysInv(s, k, ats) && LostOne(s.free, s.mem, free, mem)
    ensures Kept(s, Sys(free, mem, s.spaces), k, ats, id, 1)
  {
    hide SpaceSafe, PoolOk, SameWalks, Untouched, AllFrames;
    var s' := Sys(free, mem, s.spaces);
    var lost :| lost in s.free && free == s.free - {lost} && forall f | f != lost :: Get(mem, f) == Get(s.mem, f);
    LostPool(s.free, s.mem, k, free, mem, lost);
    forall j | j in s.spaces
      ensures SpaceSafe(View(s', j), k, ats[j]) && SameWalks(s.mem, mem, s.spaces[j].root)
      ensures Untouched(s.mem, mem, k, s.spaces[j].frames) && lost !in s.spaces[j].frames
    {
      assert SpaceSafe(View(s, j), k, ats[j]);
      LostSpace(View(s, j), k, ats[j], free, mem, lost);
    }
    LostTotal(s, s', lost);
  }

  lemma LostPool(free: set<nat>, m: Mem, k: Kernel, free': set<nat>, m': Mem, lost: nat)
    requires PoolOk(free, m, k) && lost in free && free' == free - {lost}
    requires forall f | f != lost :: Get(m', f) == Get(m, f)
    ensures PoolOk(free', m', k) && SameWalks(m, m', k.root)
  {
    hide Translate, TreeIn;
    KernelReads(m, m', k);
    KernelWalks(m, m', k);
  }

  lemma LostSpace(vm: Vm, k: Kernel, at: Paths, free': set<nat>, m': Mem, lost: nat)
    requires SpaceSafe(vm, k, at) && lost in vm.free && free' == vm.free - {lost}
    requires forall f | f != lost :: Get(m', f) == Get(vm.mem, f)
    ensures SpaceSafe(Vm(free', m', vm.sp), k, at) && SameWalks(vm.mem, m', vm.sp.root)
    ensures Untouched(vm.mem, m', k, vm.sp.frames) && lost !in vm.sp.frames
  {
    hide Tree, Translate, KernelOk;
    assert Ledger(PtOf(vm), k);
    OutsideMine(vm.mem, m', k, vm.sp.frames, {lost});
    BystanderOk(vm, k, at, free', m');
  }

  lemma LostTotal(s: Sys, s': Sys, lost: nat)
    requires s'.spaces == s.spaces && lost in s.free && s'.free == s.free - {lost}
    requires forall j | j in s.spaces :: lost !in s.spaces[j].frames
    ensures Conserves(s, s', 1)
  {
    assert AllFrames(s') == AllFrames(s) - {lost};
  }

  lemma MadeKeeps(s: Sys, k: Kernel, ats: map<nat, Paths>, id: nat, vm: Vm)
    requires SysInv(s, k, ats) && id !in s.spaces && MadeOk(s.free, s.mem, k, vm)
    ensures Kept(s, Update(s, id, vm), k, ats[id := NewPaths(vm.sp)], id, 0)
  {
    hide SpaceSafe, RecordsOk, SameWalks, Untouched, AllFrames, PoolOk, Owned, Bystanders, MadeOk;
    NewPool(s.free, s.mem, k, vm);
    MadeParts(s.free, s.mem, k, vm);
    forall j | j in s.spaces ensures Bystander(s, k, ats, j, vm) {
      assert SpaceSafe(View(s, j), k, ats[j]);
      OldSpace(s.free, vm, k, View(s, j), ats[j]);
    }
    BystandersInv(s, k, ats, id, vm, NewPaths(vm.sp));
    CreateTotal(s, id, vm);
  }

  lemma MadeParts(free: set<nat>, m: Mem, k: Kernel, vm: Vm)
    requires MadeOk(free, m, k, vm)
    ensures vm.sp.frames != [] && SpaceSafe(vm, k, NewPaths(vm.sp))
    ensures Owned(vm.sp.frames) <= free && vm.free == free - Owned(vm.sp.frames)
  {
  }

  lemma CreateTotal(s: Sys, id: nat, vm: Vm)
    requires id !in s.spaces && Owned(vm.sp.frames) <= s.free && vm.free == s.free - Owned(vm.sp.frames)
    ensures AllFrames(Update(s, id, vm)) == AllFrames(s)
  {
    var s' := Update(s, id, vm);
    forall f ensures f in AllFrames(s') <==> f in AllFrames(s) {
      TotalMember(s', id, f);
      assert forall j | j in s.spaces :: s'.spaces[j] == s.spaces[j];
    }
  }

  lemma NewPool(free: set<nat>, m: Mem, k: Kernel, vm: Vm)
    requires PoolOk(free, m, k) && MadeOk(free, m, k, vm)
    ensures PoolOk(vm.free, vm.mem, k) && SameWalks(m, vm.mem, k.root)
  {
    hide SpaceSafe, RecordsOk, Translate, TreeIn;
    KernelReads(m, vm.mem, k);
    KernelWalks(m, vm.mem, k);
  }

  lemma OldSpace(free: set<nat>, vm: Vm, k: Kernel, other: Vm, at: Paths)
    requires SpaceSafe(other, k, at) && other.free == free && MadeOk(free, other.mem, k, vm)
    requires PoolOk(free, other.mem, k)
    ensures SpaceSafe(Vm(vm.free, vm.mem, other.sp), k, at) && SameWalks(other.mem, vm.mem, other.sp.root)
    ensures Untouched(other.mem, vm.mem, k, other.sp.frames) && Owned(other.sp.frames) !! Owned(vm.sp.frames)
  {
    hide Tree, Translate, KernelOk, NewPaths, RecordsOk;
    assert Owned(other.sp.frames) !! free by { assert Ledger(PtOf(other), k); }
    OutsideMine(other.mem, vm.mem, k, other.sp.frames, Owned(vm.sp.frames));
    BystanderOk(other, k, at, vm.free, vm.mem);
  }

  // ----- Dropping a space -----

  /** Teardown returns every page-table frame and every page of the space. */
  lemma DropKeeps(s: Sys, k: Kernel, ats: map<nat, Paths>, id: nat) returns (ats': map<nat, Paths>)
    requires SysInv(s, k, ats) && id in s.spaces
    ensures Kept(s, Step(s, k, Drop(id)), k, ats', id, 0)
    ensures Step(s, k, Drop(id)).free == s.free + Owned(s.spaces[id].frames)
    ensures ats[id].Values <= Owned(s.spaces[id].frames)
    ensures ats' == ats - {id}
  {
    hide SpaceSafe, Bystanders, AllFrames, PoolOk, IsFrame;
    var s', vm := Step(s, k, Drop(id)), View(s, id);
    ats' := ats - {id};
    assert SpaceSafe(vm, k, ats[id]);
    OwnFrames(vm, k, ats[id]);
    FreeAllOk(s.free, vm.sp.frames);
    DropInv(s, k, ats, id, s'.free);
    DropTotal(s, id, s'.free);
  }

  lemma DropInv(s: Sys, k: Kernel, ats: map<nat, Paths>, id: nat, free: set<nat>)
    requires SysInv(s, k, ats) && id in s.spaces && free == s.free + Owned(s.spaces[id].frames)
    ensures var s' := Sys(free, s.mem, s.spaces - {id}); SysInv(s', k, ats - {id}) && Bystanders(s, s', k, id)
  {
    hide SpaceSafe, Translate, KernelOk, IsFrame;
    var s' := Sys(free, s.mem, s.spaces - {id});
    assert SpaceSafe(View(s, id), k, ats[id]);
    OwnFrames(View(s, id), k, ats[id]);
    forall j | j in s.spaces && j != id ensures SpaceSafe(View(s', j), k, ats[j]) {
      assert SpaceSafe(View(s, j), k, ats[j]);
      DropBystander(View(s, id), ats[id], View(s, j), ats[j], k, free);
    }
  }

  lemma DropBystander(vm: Vm, at: Paths, other: Vm, atOther: Paths, k: Kernel, free: set<nat>)
    requires SpaceSafe(vm, k, at) && SpaceSafe(other, k, atOther) && other.free == vm.free && other.mem == vm.mem
    requires Owned(other.sp.frames) !! Owned(vm.sp.frames) && free == vm.free + Owned(vm.sp.frames)
    ensures SpaceSafe(Vm(free, other.mem, other.sp), k, atOther)
  {
    hide SpaceSafe;
    OwnFrames(vm, k, at);
    OwnFrames(other, k, atOther);
    BystanderOk(other, k, atOther, free, other.mem);
  }

  lemma OwnFrames(vm: Vm, k: Kernel, at: Paths)
    requires SpaceSafe(vm, k, at)
    ensures (forall f | f in vm.sp.frames :: IsFrame(f)) && Owned(vm.sp.frames) !! k.frames
    ensures at.Values <= Owned(vm.sp.frames)
    ensures vm.free !! Owned(vm.sp.frames) && vm.free !! k.frames && forall f | f in vm.free :: IsFrame(f)
  {
  }

  lemma DropTotal(s: Sys, id: nat, free: set<nat>)
    requires id in s.spaces && free == s.free + Owned(s.spaces[id].frames)
    ensures AllFrames(Sys(free, s.mem, s.spaces - {id})) == AllFrames(s)
  {
    var s' := Sys(free, s.mem, s.spaces - {id});
    forall f ensures f in AllFrames(s') <==> f in AllFrames(s) {
      TotalMember(s, id, f);
      assert forall j | j in s.spaces && j != id :: j in s'.spaces && s'.spaces[j] == s.spaces[j];
      assert f in AllFrames(s') <==> f in free || exists j :: j in s'.spaces && f in s'.spaces[j].frames;
    }
  }

  // ----- Runs -----

  ghost function Run(s: Sys, k: Kernel, es: seq<Event>): Sys
    decreases es
  {
    if es == [] then s else Run(Step(s, k, es[0]), k, es[1..])
  }

  ghost predicate RunOk(s: Sys, k: Kernel, es: seq<Event>)
    decreases es
  {
    es == [] || (EventOk(s, k, es[0]) && RunOk(Step(s, k, es[0]), k, es[1..]))
  }

  ghost function LostBy(s: Sys, k: Kernel, es: seq<Event>): nat
    decreases es
  {
    if es == [] then 0 else Lost(s, k, es[0]) + LostBy(Step(s, k, es[0]), k, es[1..])
  }

  ghost predicate NotActing(b: nat, es: seq<Event>) {
    forall i | 0 <= i < |es| :: es[i].id != b
  }

  /** What space `b` can observe is the same before and after. */
  ghost predicate SameFor(s: Sys, s': Sys, k: Kernel, b: nat)
    requires b in s.spaces
  {
    && b in s'.spaces && s'.spaces[b] == s.spaces[b]
    && SameWalks(s.mem, s'.mem, s.spaces[b].root) && Untouched(s.mem, s'.mem, k, s.spaces[b].frames)
  }

  /** Over every run: each frame stays either free or owned by exactly one space, and one is lost exactly by each
      creation that found some frames but not enough; a space that does not act observes nothing, and the kernel's
      translations never change. */
  lemma {:induction false} RunKeeps(s: Sys, k: Kernel, ats: map<nat, Paths>, es: seq<Event>)
      returns (ats': map<nat, Paths>)
    requires SysInv(s, k, ats) && RunOk(s, k, es)
    ensures var s' := Run(s, k, es);
      && SysInv(s', k, ats') && Conserves(s, s', LostBy(s, k, es))
      && SameWalks(s.mem, s'.mem, k.root)
      && forall b | b in s.spaces && NotActing(b, es) :: SameFor(s, s', k, b)
    decreases es
  {
    hide SysInv, Step, EventOk, AllFrames, Translate, Lost;
    ats' := ats;
    if es != [] {
      var s1 := Step(s, k, es[0]);
      var ats1 := StepKeeps(s, k, ats, es[0]);
      ats' := RunKeeps(s1, k, ats1, es[1..]);
      var s' := Run(s, k, es);
      forall b | b in s.spaces && NotActing(b, es) ensures SameFor(s, s', k, b) {
        assert NotActing(b, es[1..]);
        assert SameFor(s, s1, k, b);
      }
    }
  }

  // ----- The records over runs -----

  ghost predicate AllRecords(s: Sys, k: Kernel) {
    forall id | id in s.spaces :: RecordsOk(View(s, id), k)
  }

  predicate EventKeepsHeap(s: Sys, e: Event) {
    e.Call? && e.id in s.spaces ==> KeepsHeap(s.spaces[e.id], e.op)
  }

  ghost predicate RunKeepsHeap(s: Sys, k: Kernel, es: seq<Event>)
    decreases es
  {
    es == [] || (EventKeepsHeap(s, es[0]) && RunKeepsHeap(Step(s, k, es[0]), k, es[1..]))
  }

  lemma SameWalksRecords(sp: Space, free: set<nat>, m: Mem, free': set<nat>, m': Mem, k: Kernel)
    requires RecordsOk(Vm(free, m, sp), k) && SameWalks(m, m', sp.root)
    ensures RecordsOk(Vm(free', m', sp), k)
  {
    hide Translate, Populates, UserPage, AreasOk;
    forall p: nat, f: Backing | UserPage(k, p) ensures Populates(sp.vmas, p, f) <==> PageAt(m', sp.root, p) == Some(f) {
      assert Translate(m', sp.root, p) == Translate(m, sp.root, p);
    }
  }

  lemma StepRecords(s: Sys, k: Kernel, ats: map<nat, Paths>, e: Event)
    requires SysInv(s, k, ats) && EventOk(s, k, e) && AllRecords(s, k) && EventKeepsHeap(s, e)
    ensures AllRecords(Step(s, k, e), k)
  {
    hide SpaceSafe, RecordsOk, PoolOk, AllFrames, Domain, ApplyTo, Store, UserVa, NewSpace, FreeAll, KeepsHeap,
      Translate, Untouched;
    var _ := StepKeeps(s, k, ats, e);
    var s' := Step(s, k, e);
    forall j | j in s'.spaces ensures RecordsOk(View(s', j), k) {
      if j != e.id {
        SameWalksRecords(s.spaces[j], s.free, s.mem, s'.free, s'.mem, k);
      } else {
        ActorRecords(s, k, ats, e);
      }
    }
  }

  lemma ActorRecords(s: Sys, k: Kernel, ats: map<nat, Paths>, e: Event)
    requires SysInv(s, k, ats) && EventOk(s, k, e) && AllRecords(s, k) && EventKeepsHeap(s, e)
    requires e.id in Step(s, k, e).spaces
    ensures RecordsOk(View(Step(s, k, e), e.id), k)
  {
    hide SpaceSafe, RecordsOk, PoolOk, Domain, ApplyTo, UserVa, NewSpace, FreeAll, KeepsHeap, Local, Translate;
    match e
    case Call(id, op) =>
      assert SpaceSafe(View(s, id), k, ats[id]);
      var at' := StepOk(View(s, id), k, ats[id], op);
    case Write(id, va, data) =>
      assert SpaceSafe(View(s, id), k, ats[id]);
      StoreOk(View(s, id), k, ats[id], va, data);
      var vm' := Store(View(s, id), va, data);
      SameWalksRecords(s.spaces[id], s.free, s.mem, vm'.free, vm'.mem, k);
    case Create(id) =>
      NewSpaceOk(s.free, s.mem, k);
      assert MadeOk(s.free, s.mem, k, NewSpace(s.free, s.mem, k.root).vm);
    case Drop(id) =>
  }

  /** Over every run without a munmap inside a heap, the records of every space stay truthful: its areas are disjoint,
      its heap is one area up to the break, and a user page is mapped exactly when an area records it. */
  lemma {:induction false} RunRecords(s: Sys, k: Kernel, ats: map<nat, Paths>, es: seq<Event>)
    requires SysInv(s, k, ats) && RunOk(s, k, es) && AllRecords(s, k) && RunKeepsHeap(s, k, es)
    ensures AllRecords(Run(s, k, es), k)
    decreases es
  {
    hide SysInv, Step, EventOk, AllRecords, EventKeepsHeap, Kept;
    if es != [] {
      var ats1 := StepKeeps(s, k, ats, es[0]);
      StepRecords(s, k, ats, es[0]);
      KeptInv(s, Step(s, k, es[0]), k, ats1, es[0].id, Lost(s, k, es[0]));
      RunRecords(Step(s, k, es[0]), k, ats1, es[1..]);
    }
  }

  lemma KeptInv(s: Sys, s': Sys, k: Kernel, ats': map<nat, Paths>, id: nat, lost: nat)
    requires Kept(s, s', k, ats', id, lost)
    ensures SysInv(s', k, ats')
  {
  }
}
