/** The `AddressSpace` object: page tables edited in place, its frame list, its areas and its heap. Every method is
    proved to compute the function that specifies it. */
module AddressSpaceObject {
  import opened Wrappers
  import opened Paging
  import opened PageTables
  import opened UserPages
  import opened Vmas
  import opened AddressSpaces
  import opened VmCalls
  import opened PhysicalMemory
  import M = Mmap
  import B = Brk
  import S = Spaces

  /** Physical memory, shared by all spaces. */
  class Ram {
    var mem: Mem

    constructor ()
      ensures mem == map[]
    {
      mem := map[];
    }
  }

  class AddressSpace {
    const pmm: Pmm
    const ram: Ram
    const root: nat
    var frames: seq<nat>
    var vmas: seq<VmArea>
    var bump: nat
    const heapStart: nat
    var heapEnd: nat

    ghost predicate Valid()
      reads this, pmm
    {
      pmm.Valid()
    }

    ghost function PtView(): Pt
      requires Valid()
      reads this, pmm, pmm.bitmap, ram
    {
      Pt(pmm.Free(), ram.mem, frames)
    }

    ghost function View(): Vm
      requires Valid()
      reads this, pmm, pmm.bitmap, ram
    {
      Vm(pmm.Free(), ram.mem, Space(root, frames, vmas, bump, heapStart, heapEnd))
    }

    constructor (pmm: Pmm, ram: Ram, root: nat, frames: seq<nat>)
      requires pmm.Valid()
      ensures this.pmm == pmm && this.ram == ram && Valid()
      ensures View() == Vm(pmm.Free(), ram.mem, S.FreshSpace(root, frames))
    {
      this.pmm, this.ram, this.root, this.frames := pmm, ram, root, frames;
      vmas, bump, heapStart, heapEnd := [], MMAP_BASE_START, DEFAULT_USER_HEAP_START, DEFAULT_USER_HEAP_START;
    }

    /** One level of the walk in `map_user_page`. */
    method EnsureTable(t: nat, i: nat) returns (ok: bool, child: nat)
      requires Valid() && i < 512
      modifies this`frames, ram, pmm.bitmap
      ensures Ensured(ok, PtView(), child) == UserPages.EnsureTable(old(PtView()), t, i)
    {
      var e := Get(ram.mem, t)[i];
      if e.present {
        ram.mem := SetEntry(ram.mem, t, i, e.(addr := MaskAddr(e.addr), writable := true, user := true));
        return true, e.addr;
      }
      var r := pmm.AllocFrame();
      if r == None {
        return false, t;
      }
      ram.mem := ram.mem[r.value := ZeroTable()];
      frames := frames + [r.value];
      ram.mem := SetEntry(ram.mem, t, i, TableEntry(MaskAddr(r.value)));
      return true, r.value;
    }

    method MapUserPage(va: nat, phys: nat, writable: bool) returns (ok: bool)
      requires Valid()
      modifies this`frames, ram, pmm.bitmap
      ensures Mapped(ok, PtView()) == MapPage(old(PtView()), root, va, phys, writable)
    {
      hide Index, UserPages.EnsureTable;
      ghost var st := PtView();
      var p3, p2, p1;
      ok, p3 := EnsureTable(root, Index(va, 0));
      LevelDone(st, root, 0, va);
      if !ok { return; }
      ghost var st1 := PtView();
      ok, p2 := EnsureTable(p3, Index(va, 1));
      LevelDone(st1, p3, 1, va);
      if !ok { return; }
      ghost var st2 := PtView();
      ok, p1 := EnsureTable(p2, Index(va, 2));
      LevelDone(st2, p2, 2, va);
      if !ok { return; }
      ram.mem := SetEntry(ram.mem, p1, Index(va, 3), LeafEntry(MaskAddr(phys), writable));
    }

    static lemma LevelDone(st: Pt, t: nat, d: nat, va: nat)
      requires d < 3
      ensures EnsureTables(st, t, d, va) ==
        var r := UserPages.EnsureTable(st, t, Index(va, d));
        if !r.ok then r else if d == 2 then r else EnsureTables(r.st, r.table, d + 1, va)
    {
    }

    /** Drops the first occurrence of a frame from the list. */
    method Forget(f: nat)
      modifies this`frames
      ensures frames == RemoveFirst(old(frames), f)
    {
      var pos := 0;
      while pos < |frames| && frames[pos] != f
        invariant 0 <= pos <= |frames| && f !in frames[..pos]
        invariant frames == old(frames)
      {
        pos := pos + 1;
      }
      SkipOthers(frames, pos, f);
      if pos < |frames| {
        frames := frames[..pos] + frames[pos + 1..];
      }
    }

    static lemma {:induction false} SkipOthers(s: seq<nat>, pos: nat, f: nat)
      requires pos <= |s| && f !in s[..pos] && (pos < |s| ==> s[pos] == f)
      ensures RemoveFirst(s, f) == if pos < |s| then s[..pos] + s[pos + 1..] else s
    {
      if pos > 0 {
        assert s[0] == s[..pos][0] != f;
        assert s[1..][..pos - 1] == s[..pos][1..];
        SkipOthers(s[1..], pos - 1, f);
      }
    }

    method UnmapUserPage(va: nat) returns (r: Option<nat>)
      requires Valid()
      modifies this`frames, ram
      ensures Unmapped(r, PtView()) == UnmapPage(old(PtView()), root, va)
    {
      hide Index, RemoveFirst;
      var e4 := Get(ram.mem, root)[Index(va, 0)];
      if !e4.present { return None; }
      var e3 := Get(ram.mem, e4.addr)[Index(va, 1)];
      if !e3.present { return None; }
      var e2 := Get(ram.mem, e3.addr)[Index(va, 2)];
      if !e2.present { return None; }
      var e1 := Get(ram.mem, e2.addr)[Index(va, 3)];
      assert LastTable(ram.mem, e3.addr, 2, va) == Some(e2.addr);
      if !e1.present { return None; }
      ram.mem := SetEntry(ram.mem, e2.addr, Index(va, 3), UNUSED);
      Forget(e1.addr);
      r := Some(e1.addr);
    }

    /** The first loop of `munmap`. */
    method UnmapPages(lo: nat, hi: nat)
      requires Valid()
      modifies this`frames, ram, pmm.bitmap
      ensures PtView() == UnmapRange(old(PtView()), root, lo, hi)
    {
      hide UnmapPage;
      var curr := lo;
      while curr < hi
        invariant UnmapRange(PtView(), root, curr, hi) == UnmapRange(old(PtView()), root, lo, hi)
      {
        ghost var st := PtView();
        var phys := UnmapUserPage(curr);
        if phys.Some? {
          var _ := pmm.Release(phys.value);
        }
        assert PtView() == UnmapAndFree(st, root, curr);
        curr := curr + PAGE_SIZE;
      }
    }

    /** One turn of the second loop of `munmap`: the area is kept, removed, trimmed or split where it stands. */
    method CutAt(i: nat, lo: nat, hi: nat) returns (next: nat)
      requires i < |vmas| && lo < hi
      modifies this`vmas
      ensures vmas == old(vmas)[..i] + Cut(old(vmas)[i], lo, hi) + old(vmas)[i + 1..]
      ensures next == i + |Cut(old(vmas)[i], lo, hi)|
    {
      var v := vmas[i];
      if !v.Overlaps(lo, hi - lo) {
        return i + 1;
      }
      var kept := KeysOutside(v.populated, lo, hi);
      if lo <= v.start && hi >= v.End() {
        vmas := vmas[..i] + vmas[i + 1..];
        next := i;
      } else if lo <= v.start {
        vmas := vmas[i := v.(start := hi, size := v.End() - hi, populated := kept)];
        next := i + 1;
      } else if hi >= v.End() {
        vmas := vmas[i := v.(size := lo - v.start, populated := kept)];
        next := i + 1;
      } else {
        var right := v.(start := hi, size := v.End() - hi, populated := KeysInside(kept, hi, v.End()));
        vmas := vmas[i := v.(size := lo - v.start, populated := KeysOutside(kept, hi, v.End()))];
        vmas := vmas[..i + 1] + [right] + vmas[i + 1..];
        next := i + 2;
      }
    }

    method CutAreas(lo: nat, hi: nat)
      requires lo < hi
      modifies this`vmas
      ensures vmas == CutAll(old(vmas), lo, hi)
    {
      hide Cut;
      var i := 0;
      ghost var n, was := 0, vmas;
      while i < |vmas|
        invariant 0 <= n <= |was| && 0 <= i <= |vmas|
        invariant i == |CutAll(was[..n], lo, hi)| && vmas == CutAll(was[..n], lo, hi) + was[n..]
        decreases |was| - n
      {
        CutAllAppend(was[..n], was[n], lo, hi);
        assert was[..n] + [was[n]] == was[..n + 1] && vmas[i + 1..] == was[n + 1..];
        i := CutAt(i, lo, hi);
        n := n + 1;
      }
      assert was[..n] == was;
    }

    method Munmap(addr: nat, len: nat) returns (r: Result<()>)
      requires Valid()
      modifies this`frames, this`vmas, ram, pmm.bitmap
      ensures (r, View()) == VmCalls.Munmap(old(View()), addr, len)
    {
      hide UnmapRange, CutAll;
      if len == 0 || addr % PAGE_SIZE != 0 {
        return Err(InvalidArguments);
      }
      var hi := addr + AlignUp(len);
      UnmapPages(addr, hi);
      CutAreas(addr, hi);
      r := Ok(());
    }

    /** Finds the area of a fault. */
    method AreaOf(a: nat) returns (r: Option<nat>)
      ensures r == FindArea(vmas, a)
    {
      var i := 0;
      while i < |vmas| && !vmas[i].Contains(a)
        invariant 0 <= i <= |vmas|
        invariant FindArea(vmas, a) == match FindArea(vmas[i..], a) case None => None case Some(j) => Some(i + j)
      {
        assert vmas[i..][1..] == vmas[i + 1..];
        i := i + 1;
      }
      r := if i < |vmas| then Some(i) else None;
    }

    method HandleDemandFault(a: nat, isWrite: bool) returns (ok: bool)
      requires Valid()
      modifies this`frames, this`vmas, ram, pmm.bitmap
      ensures (ok, View()) == Fault(old(View()), a, isWrite)
    {
      hide TakePage, FindArea, SetPopulated, AlignDown;
      var idx := AreaOf(a);
      if idx == None { return false; }
      var v := vmas[idx.value];
      if v.guard || v.prot == 0 { return false; }
      if isWrite && !v.IsWritable() { return false; }
      var page := AlignDown(a);
      var phys;
      phys, ok := BackPage(page, v.IsWritable());
      if !ok { return; }
      vmas := SetPopulated(vmas, idx.value, page, phys.value);
    }

    /** The steps that demand faults and MAP_POPULATE share: a cleared frame, recorded and mapped, or given back. */
    method BackPage(va: nat, writable: bool) returns (phys: Option<nat>, ok: bool)
      requires Valid()
      modifies this`frames, ram, pmm.bitmap
      ensures TakePage(old(PtView()), root, va, writable) ==
        if phys == None then NoFrame else if ok then Took(PtView(), phys.value) else MapFailed(PtView())
      ensures phys == None ==> !ok && PtView() == old(PtView())
    {
      hide MapPage, Lowest, ZeroTable;
      phys := pmm.AllocFrame();
      if phys == None { return None, false; }
      ram.mem := ram.mem[phys.value := ZeroTable()];
      frames := frames + [phys.value];
      ok := MapUserPage(va, phys.value, writable);
      if !ok {
        var _ := pmm.Release(phys.value);
      }
    }

    /** The inner loop of the search of `mmap`: step past the first area in the way. */
    method NextCandidate(c: nat, len: nat) returns (r: Option<nat>)
      ensures r == Conflict(vmas, c, len)
    {
      var i := 0;
      while i < |vmas|
        invariant 0 <= i <= |vmas| && Conflict(vmas[i..], c, len) == Conflict(vmas, c, len)
      {
        if vmas[i].Overlaps(c, len) {
          return Some(AlignUp(vmas[i].End()));
        }
        assert vmas[i..][1..] == vmas[i + 1..];
        i := i + 1;
      }
      r := None;
    }

    /** The search loop of `mmap`: the lowest free place at or above the start, or none. */
    method FindFree(start: nat, len: nat) returns (r: Option<nat>)
      requires start % PAGE_SIZE == 0
      ensures r == FirstFit(vmas, start, len)
      ensures r.Some? ==>
        && RangeFree(vmas, r.value, len)
        && forall x | start <= x < r.value && x % PAGE_SIZE == 0 :: !RangeFree(vmas, x, len)
      ensures r == None ==>
        forall x | start <= x && x + len <= MMAP_BASE_END && x % PAGE_SIZE == 0 :: !RangeFree(vmas, x, len)
    {
      FirstFitOk(vmas, start, len);
      hide Conflict, RangeFree;
      var candidate := start;
      while candidate + len <= MMAP_BASE_END
        invariant FirstFit(vmas, candidate, len) == FirstFit(vmas, start, len)
        decreases MMAP_BASE_END - candidate
      {
        var next := NextCandidate(candidate, len);
        if next == None {
          return Some(candidate);
        }
        candidate := next.value;
      }
      r := None;
    }

    /** The MAP_POPULATE loop: stops at the first page that cannot be had. */
    method PopulatePages(start: nat, end: nat, writable: bool) returns (stop: Option<nat>, pages: map<nat, nat>)
      requires Valid()
      modifies this`frames, ram, pmm.bitmap
      ensures Populate(old(PtView()), root, start, end, writable, map[]) ==
        match stop case None => Filled(PtView(), pages) case Some(x) => Stopped(PtView(), x)
      ensures stop.Some? ==> stop.value >= start
    {
      hide TakePage;
      var va := start;
      pages := map[];
      while va < end
        invariant start <= va
        invariant Populate(PtView(), root, va, end, writable, pages) ==
          Populate(old(PtView()), root, start, end, writable, map[])
      {
        var phys, ok := BackPage(va, writable);
        if !ok {
          return Some(va), pages;
        }
        pages := pages[va := phys.value];
        va := va + PAGE_SIZE;
      }
      stop := None;
    }

    /** The place of the new area; the bump pointer moves when the search chose it. */
    method ChoosePlace(hint: Option<nat>, len: nat, flags: nat) returns (r: Result<nat>)
      requires Valid()
      modifies this`bump
      ensures r == M.Place(old(View()).sp, hint, len, flags)
      ensures View() == if r.Ok? then M.SetBump(old(View()), flags, r.value, len) else old(View())
    {
      hide FirstFit, Conflict;
      if M.IsFixed(flags) {
        if hint == None || hint.value % PAGE_SIZE != 0 {
          return Err(InvalidAddress);
        }
        var c := NextCandidate(hint.value, len);
        return if c.Some? then Err(Overlap) else Ok(hint.value);
      }
      var candidate :=
        if hint.Some? && MMAP_BASE_START <= AlignUp(hint.value) < MMAP_BASE_END then AlignUp(hint.value)
          else AlignUp(bump);
      if candidate < MMAP_BASE_START {
        candidate := MMAP_BASE_START;
      }
      var found := FindFree(candidate, len);
      if found == None {
        return Err(OutOfMemory);
      }
      bump := AlignUp(found.value + len);
      r := Ok(found.value);
    }

    method Mmap(hint: Option<nat>, len: nat, prot: nat, flags: nat) returns (r: Result<nat>)
      requires Valid()
      modifies this, ram, pmm.bitmap
      ensures (r, View()) == M.Mmap(old(View()), hint, len, prot, flags)
    {
      hide M.Place, Populate, VmCalls.Munmap, AlignUp;
      if len == 0 {
        return Err(InvalidArguments);
      }
      var n := AlignUp(len);
      r := ChoosePlace(hint, n, flags);
      if r.Err? { return; }
      var v := VmArea(r.value, n, prot, flags, false, "[mmap]", map[]);
      if M.WantsPopulate(flags) {
        var stop, pages := PopulatePages(r.value, r.value + n, M.AllowsWrite(prot));
        if stop.Some? {
          var _ := Munmap(r.value, stop.value - r.value);
          return Err(OutOfMemory);
        }
        v := v.(populated := pages);
      }
      vmas := vmas + [v];
    }

    method HeapArea() returns (r: Option<nat>)
      ensures r == B.HeapIndex(vmas)
    {
      var i := 0;
      while i < |vmas| && vmas[i].name != HEAP
        invariant 0 <= i <= |vmas|
        invariant B.HeapIndex(vmas) == match B.HeapIndex(vmas[i..]) case None => None case Some(j) => Some(i + j)
      {
        assert vmas[i..][1..] == vmas[i + 1..];
        i := i + 1;
      }
      r := if i < |vmas| then Some(i) else None;
    }

    /** `brk` upwards: the heap area is extended or created, unless another area is in the way. */
    method GrowHeap(end: nat) returns (ok: bool)
      modifies this`vmas
      ensures B.GrowAreas(old(vmas), heapStart, end) == if ok then Some(vmas) else None
      ensures !ok ==> vmas == old(vmas)
    {
      hide Conflict, B.HeapIndex;
      var pos := HeapArea();
      if pos.Some? {
        var i := 0;
        var start := vmas[pos.value].start;
        ghost var others := vmas[..pos.value] + vmas[pos.value + 1..];
        while i < |vmas|
          invariant 0 <= i <= |vmas|
          invariant forall j | 0 <= j < i && j != pos.value :: !vmas[j].Overlaps(start, B.Minus(end, start))
          invariant vmas == old(vmas)
        {
          if i != pos.value && vmas[i].Overlaps(start, B.Minus(end, start)) {
            assert others[if i < pos.value then i else i - 1] == vmas[i];
            return false;
          }
          i := i + 1;
        }
        assert RangeFree(others, start, B.Minus(end, start));
        vmas := B.Resize(vmas, pos.value, end);
        return true;
      }
      var c := NextCandidate(heapStart, B.Minus(end, heapStart));
      if c.Some? {
        return false;
      }
      vmas := vmas + [B.NewHeap(heapStart, end)];
      ok := true;
    }

    method Brk(brk: nat) returns (r: nat)
      requires Valid()
      modifies this, ram, pmm.bitmap
      ensures (r, View()) == B.Brk(old(View()), brk)
    {
      hide AlignUp, VmCalls.Munmap, B.HeapIndex, B.GrowAreas;
      if brk == 0 || brk < heapStart || brk == heapEnd || brk > MMAP_BASE_START {
        return heapEnd;
      }
      if brk > heapEnd {
        var ok := GrowHeap(AlignUp(brk));
        if !ok {
          return heapEnd;
        }
      } else {
        var end, oldEnd := AlignUp(brk), AlignUp(heapEnd);
        if end < oldEnd {
          var _ := Munmap(end, oldEnd - end);
        }
        var pos := HeapArea();
        if pos.Some? {
          vmas := B.Resize(vmas, pos.value, end);
        }
      }
      heapEnd := brk;
      r := heapEnd;
    }

    /** Clearing a frame before copying into it changes nothing. */
    static lemma CopyOver(m: Mem, f: nat, from: nat)
      requires from != f
      ensures var z := m[f := ZeroTable()]; Get(z, from) == Get(m, from) && z[f := Get(z, from)] == m[f := Get(m, from)]
    {
      var z := m[f := ZeroTable()];
      assert z[f := Get(z, from)] == m[f := Get(m, from)];
    }

    /** `AddressSpace::new`: fails without frames for the PML4 and, where the kernel has one, the PDPT. */
    static method Create(pmm: Pmm, ram: Ram, kroot: nat) returns (space: AddressSpace?)
      requires pmm.Valid() && kroot !in pmm.Free() && Get(ram.mem, kroot)[0].addr !in pmm.Free()
      modifies ram, pmm.bitmap
      ensures space != null ==> fresh(space) && space.pmm == pmm && space.ram == ram && space.Valid()
      ensures S.NewSpace(old(pmm.Free()), old(ram.mem), kroot) ==
        if space == null then S.Failed(pmm.Free(), ram.mem) else S.Made(space.View())
    {
      hide Lowest, SetEntry, TableEntry, MaskAddr, Get;
      var pml4 := pmm.AllocFrame();
      if pml4 == None {
        return null;
      }
      var root := pml4.value;
      CopyOver(ram.mem, root, kroot);
      ram.mem := ram.mem[root := ZeroTable()];
      var entry := Get(ram.mem, kroot)[0];
      ram.mem := ram.mem[root := Get(ram.mem, kroot)];
      if !entry.present {
        space := new AddressSpace(pmm, ram, root, [root]);
        return;
      }
      var pdpt := pmm.AllocFrame();
      if pdpt == None {
        return null;
      }
      CopyOver(ram.mem, pdpt.value, entry.addr);
      ram.mem := ram.mem[pdpt.value := ZeroTable()];
      ram.mem := ram.mem[pdpt.value := Get(ram.mem, entry.addr)];
      ram.mem := SetEntry(ram.mem, root, 0, TableEntry(MaskAddr(pdpt.value)));
      space := new AddressSpace(pmm, ram, root, [root, pdpt.value]);
    }

    /** `Drop`: gives every recorded frame back. */
    method Teardown()
      requires Valid()
      modifies pmm.bitmap
      ensures pmm.Free() == S.FreeAll(old(pmm.Free()), frames)
    {
      var i := 0;
      while i < |frames|
        invariant 0 <= i <= |frames|
        invariant S.FreeAll(pmm.Free(), frames[i..]) == S.FreeAll(old(pmm.Free()), frames)
      {
        assert frames[i..][1..] == frames[i + 1..];
        var _ := pmm.Release(frames[i]);
        i := i + 1;
      }
    }
  }
}
