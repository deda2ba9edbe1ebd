/** What the protection bits of an area mean for its pages, however they are filled. */
module Protection {
  import opened Wrappers
  import opened Paging
  import opened PageTables
  import opened UserPages
  import opened Vmas
  import opened AddressSpaces
  import opened VmCalls
  import opened PoolNeeds
  import M = Mmap
  import S = Spaces

  /** Area `i` is the first one around the address. */
  ghost predicate FirstAround(vs: seq<VmArea>, a: nat, i: nat) {
    && i < |vs| && vs[i].start <= a < vs[i].start + vs[i].size
    && forall j | 0 <= j < i :: !(vs[j].start <= a < vs[j].start + vs[j].size)
  }

  lemma {:induction false} FirstFound(vs: seq<VmArea>, a: nat)
    ensures match FindArea(vs, a)
      case None => forall i: nat :: !FirstAround(vs, a, i)
      case Some(i) => FirstAround(vs, a, i)
  {
    if vs != [] && !vs[0].Contains(a) { FirstFound(vs[1..], a); }
  }

  lemma FirstUnique(vs: seq<VmArea>, a: nat, i: nat, j: nat)
    requires FirstAround(vs, a, i) && FirstAround(vs, a, j)
    ensures i == j
  {
  }

  /** An area that lets the access through: no guard, some protection bit, and PROT_WRITE for a write. */
  ghost predicate Permits(v: VmArea, isWrite: bool) {
    !v.guard && v.prot != PROT_NONE && (isWrite ==> Writes(v.prot))
  }

  /** The frames a fault needs: the page and each absent table on the way to it. */
  ghost predicate PoolPays(vm: Vm, at: Paths, page: nat) {
    |vm.free| >= 1 + |NewFor(at, page)|
  }

  /** What an access to a page of an area finds: user rights, and write rights exactly if the area has PROT_WRITE. */
  ghost predicate Grants(m: Mem, root: nat, page: nat, v: VmArea) {
    var t := Translate(m, root, page);
    t.Some? && t.value.user && (t.value.writable <==> Writes(v.prot)) && Get(m, t.value.base) == ZeroTable()
  }

  /** The page at `page` holds the address. */
  predicate PageOf(a: nat, page: nat) {
    page % PAGE_SIZE == 0 && page <= a < page + PAGE_SIZE
  }

  /** A demand fault is decided by the bits of the first area around the address: outside every area, in a guard area,
      without any protection bit, or on a write without PROT_WRITE, it changes nothing; otherwise it is resolved exactly
      when the pool pays, and the page then grants exactly what the bits say. */
  lemma FaultRights(vm: Vm, k: Kernel, at: Paths, a: nat, isWrite: bool)
    requires VmInv(vm, k, at)
    ensures (forall i: nat :: !FirstAround(vm.sp.vmas, a, i)) ==> Fault(vm, a, isWrite) == (false, vm)
    ensures forall i: nat | FirstAround(vm.sp.vmas, a, i) && !Permits(vm.sp.vmas[i], isWrite) ::
      Fault(vm, a, isWrite) == (false, vm)
    ensures forall i: nat, page: nat
      | FirstAround(vm.sp.vmas, a, i) && Permits(vm.sp.vmas[i], isWrite) && PageOf(a, page) ::
        && (Fault(vm, a, isWrite).0 <==> PoolPays(vm, at, page))
        && (Fault(vm, a, isWrite).0 ==> Grants(Fault(vm, a, isWrite).1.mem, vm.sp.root, page, vm.sp.vmas[i]))
  {
    FirstFound(vm.sp.vmas, a);
    var f := FindArea(vm.sp.vmas, a);
    if f.Some? {
      var i, page := f.value, AlignDown(a);
      forall j: nat | FirstAround(vm.sp.vmas, a, j) ensures j == i { FirstUnique(vm.sp.vmas, a, i, j); }
      WriteBit(vm.sp.vmas[i]);
      if Permits(vm.sp.vmas[i], isWrite) { FaultGrants(vm, k, at, a, isWrite, i); }
      forall p: nat | PageOf(a, p) ensures p == page { OnePage(a, p, page); }
    }
  }

  lemma OnePage(a: nat, p: nat, q: nat)
    requires PageOf(a, p) && PageOf(a, q)
    ensures p == q
  {
  }

  lemma FaultGrants(vm: Vm, k: Kernel, at: Paths, a: nat, isWrite: bool, i: nat)
    requires VmInv(vm, k, at) && FindArea(vm.sp.vmas, a) == Some(i) && Permits(vm.sp.vmas[i], isWrite)
    ensures var r, page := Fault(vm, a, isWrite), AlignDown(a);
      && (r.0 <==> PoolPays(vm, at, page))
      && (r.0 ==> Grants(r.1.mem, vm.sp.root, page, vm.sp.vmas[i]))
  {
    hide Inv, Local, UserVa, Translate, Fault, FindArea, NewFor, Missing, KeepsPages, PagesStay, Opens;
    var v, page := vm.sp.vmas[i], AlignDown(a);
    WriteBit(v);
    PageInArea(v, a);
    assert UserRange(k, v.start, v.End());
    var at', n := FaultOk(vm, k, at, a, isWrite);
    InvTree(vm, k, at);
    MissingIs(vm.mem, k, at, page);
    AffordableIs(PtOf(vm), vm.sp.root, page);
    if Fault(vm, a, isWrite).0 {
      var m' := Fault(vm, a, isWrite).1.mem;
      assert MapsOne(vm.mem, m', vm.sp.root, page, n, v.IsWritable());
      assert Translate(m', vm.sp.root, page) == Some(Leaf(n, page % PAGE_SIZE, v.IsWritable(), true));
    }
  }

  lemma InvTree(vm: Vm, k: Kernel, at: Paths)
    requires VmInv(vm, k, at)
    ensures Tree(vm.mem, k, at) && [] in at && at[[]] == vm.sp.root
  {
  }

  /** MAP_POPULATE grants what a fault would: the bits of the request decide the rights of every page of the range. */
  lemma PopulateRights(vm: Vm, k: Kernel, at: Paths, hint: Option<nat>, len: nat, prot: nat, flags: nat, p: nat)
    requires VmInv(vm, k, at) && M.MmapUser(vm, k, hint, len, flags) && M.MmapPaid(vm, hint, len, prot, flags)
    requires M.AsksPopulate(flags) && p % PAGE_SIZE == 0
    ensures var (r, vm') := M.Mmap(vm, hint, len, prot, flags);
      r.Ok? && r.value <= p < r.value + len ==>
        && vm'.sp.vmas != []
        && var v := vm'.sp.vmas[|vm'.sp.vmas| - 1];
           v.prot == prot && v.start == r.value && Grants(vm'.mem, vm.sp.root, p, v)
  {
    hide Inv, Local, UserVa, Translate, M.Mmap, M.Place, M.MmapUser, M.MmapPaid, M.MmapKeeps, M.MmapUndone, Needs,
      AlignUp;
    var at' := M.MmapOk(vm, k, at, hint, len, prot, flags);
    var (r, vm') := M.Mmap(vm, hint, len, prot, flags);
    if r.Ok? && r.value <= p < r.value + len {
      var v := vm'.sp.vmas[|vm.sp.vmas|];
      M.WriteBitOf(prot);
      M.AlignsUp(len);
      assert PageReady(PtOf(vm'), at', vm.sp.root, p, v.populated[p], M.AllowsWrite(prot));
    }
  }

  // ----- Stores by user code -----

  /** The walk of a page is the walk of each of its addresses, but for the offset. */
  lemma {:induction false} SameLeaf(m: Mem, f: nat, d: nat, a: nat, b: nat, w: bool, u: bool)
    requires d < 4 && Path(a) == Path(b)
    ensures var r, t := Walk(m, f, d, a, w, u), Walk(m, f, d, b, w, u);
      && r.Some? == t.Some?
      && (r.Some? ==>
            r.value.base == t.value.base && r.value.writable == t.value.writable && r.value.user == t.value.user)
    decreases 4 - d
  {
    hide Index;
    assert Path(a)[d] == Index(a, d) && Path(b)[d] == Index(b, d);
    var e := Get(m, f)[Index(a, d)];
    if e.present && d < 3 { SameLeaf(m, e.addr, d + 1, a, b, w && e.writable, u && e.user); }
  }

  /** User code can store into a page exactly if an area with PROT_WRITE records it: then the recorded frame takes the
      data; into a page recorded by areas without PROT_WRITE, or by none, it cannot. */
  lemma StoreRights(vm: Vm, k: Kernel, va: nat, page: nat, data: Table)
    requires Matched(k, vm.sp.vmas, vm.mem, vm.sp.root) && va < VIRT_LIMIT && UserVa(k, va) && PageOf(va, page)
    ensures forall i, f | 0 <= i < |vm.sp.vmas| && RecordsAt(vm.sp.vmas[i], page, f) && Writes(vm.sp.vmas[i].prot) ::
      S.Store(vm, va, data) == vm.(mem := vm.mem[f := data])
    ensures (forall i, f | 0 <= i < |vm.sp.vmas| && RecordsAt(vm.sp.vmas[i], page, f) ::
               !Writes(vm.sp.vmas[i].prot)) ==> S.Store(vm, va, data) == vm
  {
    hide Translate, Matched, UserVa, Writes;
    SamePage(k, va, page);
    SameLeaf(vm.mem, vm.sp.root, 0, va, page, true, true);
    TranslateIs(vm.mem, vm.sp.root, va);
    TranslateIs(vm.mem, vm.sp.root, page);
    var t := PageAt(vm.mem, vm.sp.root, page);
    forall i, f | 0 <= i < |vm.sp.vmas| && RecordsAt(vm.sp.vmas[i], page, f) && Writes(vm.sp.vmas[i].prot)
      ensures S.Store(vm, va, data) == vm.(mem := vm.mem[f := data])
    {
      var b := Backing(f, true, true);
      assert Records(vm.sp.vmas[i], page, b);
      assert Populates(vm.sp.vmas, page, b);
      MatchedAt(k, vm, page, b);
    }
    if t.Some? && t.value.writable && t.value.user {
      MatchedAt(k, vm, page, t.value);
      var i :| 0 <= i < |vm.sp.vmas| && Records(vm.sp.vmas[i], page, t.value);
      assert RecordsAt(vm.sp.vmas[i], page, t.value.frame) && Writes(vm.sp.vmas[i].prot);
    }
  }

  ghost predicate RecordsAt(v: VmArea, page: nat, f: nat) {
    page in v.populated && v.populated[page] == f
  }

  lemma TranslateIs(m: Mem, root: nat, va: nat)
    ensures Translate(m, root, va) == Walk(m, root, 0, va, true, true)
  {
  }

  lemma MatchedAt(k: Kernel, vm: Vm, p: nat, f: Backing)
    requires Matched(k, vm.sp.vmas, vm.mem, vm.sp.root) && UserPage(k, p)
    ensures Populates(vm.sp.vmas, p, f) <==> PageAt(vm.mem, vm.sp.root, p) == Some(f)
  {
  }

  lemma SamePage(k: Kernel, va: nat, page: nat)
    requires va < VIRT_LIMIT && UserVa(k, va) && PageOf(va, page)
    ensures Path(va) == Path(page) && UserPage(k, page)
  {
    hide Index;
    assert va / PAGE_SIZE == page / PAGE_SIZE;
    PathIsPage(va, page);
    assert Path(va)[0] == Path(page)[0] && Path(va)[1] == Path(page)[1];
  }
}
