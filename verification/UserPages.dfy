/** Mapping and unmapping user pages, with the frames taken from and returned to the pool. */
module UserPages {
  import opened Wrappers
  import opened Paging
  import opened PageTables

  /** The free frames, physical memory, and `allocated_frames` of one space. */
  datatype Pt = Pt(free: set<nat>, mem: Mem, frames: seq<nat>)

  function Owned(frames: seq<nat>): set<nat> {
    set f | f in frames
  }

  predicate NoDup(s: seq<nat>) {
    forall i, j | 0 <= i < j < |s| :: s[i] != s[j]
  }

  const PMM_BASE: nat := 0x20_0000
  const PMM_END: nat := 0x2000_0000

  /** The frames the physical memory manager hands out: its identity-mapped window. */
  predicate IsFrame(f: nat) {
    f % PAGE_SIZE == 0 && PMM_BASE <= f < PMM_END
  }

  /** No frame is both free and owned, none is listed twice, none is the kernel's. */
  ghost predicate Ledger(st: Pt, k: Kernel) {
    && NoDup(st.frames)
    && st.free !! Owned(st.frames)
    && st.free !! k.frames && Owned(st.frames) !! k.frames
    && (forall f | f in st.free || f in st.frames :: IsFrame(f))
  }

  ghost predicate Inv(st: Pt, k: Kernel, at: Paths) {
    && [] in at
    && KernelOk(st.mem, k)
    && Tree(st.mem, k, at)
    && Ledger(st, k)
    && at.Values <= Owned(st.frames)
  }

  /** The step moves frames between the pool and this space only, and writes no other frame. */
  ghost predicate Local(st: Pt, st': Pt) {
    && st'.free + Owned(st'.frames) == st.free + Owned(st.frames)
    && forall f | f !in st.free + Owned(st.frames) :: Get(st.mem, f) == Get(st'.mem, f)
  }

  ghost predicate SameWalks(m: Mem, m': Mem, root: nat) {
    forall va :: Translate(m', root, va) == Translate(m, root, va)
  }

  /** Frame `f` holds a table of the space (and not a page). */
  ghost predicate IsTable(at: Paths, f: nat) {
    exists p :: p in at && |p| < 4 && at[p] == f
  }

  /** The contents of all the pages of the space are untouched. */
  ghost predicate KeepsPages(m: Mem, m': Mem, frames: seq<nat>, at: Paths) {
    forall f | f in frames && !IsTable(at, f) :: Get(m', f) == Get(m, f)
  }

  ghost predicate PagesStay(frames: seq<nat>, at: Paths, at': Paths) {
    forall f | f in frames && !IsTable(at, f) :: !IsTable(at', f)
  }

  /** `alloc_frame` takes the lowest free frame. */
  ghost function Lowest(s: set<nat>): (r: nat)
    requires s != {}
    ensures r in s && forall x | x in s :: r <= x
  {
    LowestExists(s);
    var r :| r in s && forall x | x in s :: r <= x;
    r
  }

  lemma {:induction false} LowestExists(s: set<nat>)
    requires s != {}
    ensures exists r :: r in s && forall x | x in s :: r <= x
  {
    var y :| y in s;
    if z :| z in s && z < y {
      assert z in s - {y};
      LowestExists(s - {y});
      var r :| r in s - {y} && forall x | x in s - {y} :: r <= x;
      forall x | x in s ensures r <= x {
        if x == y { assert r <= z; } else { assert x in s - {y}; }
      }
    }
  }

  datatype Ensured = Ensured(ok: bool, st: Pt, table: nat)

  /** One level of `map_user_page`: follow the entry, or hang a new zeroed table there. */
  ghost function EnsureTable(st: Pt, t: nat, i: nat): Ensured
    requires i < 512
  {
    var e := Get(st.mem, t)[i];
    if e.present then
      Ensured(true, st.(mem := SetEntry(st.mem, t, i, e.(addr := MaskAddr(e.addr), writable := true, user := true))),
        e.addr)
    else if st.free == {} then
      Ensured(false, st, t)
    else
      var n := Lowest(st.free);
      Ensured(true,
              Pt(st.free - {n}, SetEntry(st.mem[n := ZeroTable()], t, i, TableEntry(MaskAddr(n))), st.frames + [n]),
              n)
  }

  /** The levels from depth `d` down to the last table. */
  ghost function EnsureTables(st: Pt, t: nat, d: nat, va: nat): Ensured
    requires d < 4
    decreases 4 - d
  {
    if d == 3 then Ensured(true, st, t)
    else
      var r := EnsureTable(st, t, Index(va, d));
      if r.ok then EnsureTables(r.st, r.table, d + 1, va) else r
  }

  datatype Mapped = Mapped(ok: bool, st: Pt)

  ghost function MapPage(st: Pt, root: nat, va: nat, phys: nat, writable: bool): Mapped {
    var r := EnsureTables(st, root, 0, va);
    if r.ok then
      Mapped(true, r.st.(mem := SetEntry(r.st.mem, r.table, Index(va, 3), LeafEntry(MaskAddr(phys), writable))))
    else
      Mapped(false, r.st)
  }

  /** How many tables are absent on the way to the page of `va`. */
  function Missing(m: Mem, t: nat, d: nat, va: nat): (n: nat)
    requires d < 4
    ensures n <= 3 - d
    decreases 4 - d
  {
    if d == 3 then 0
    else if !Get(m, t)[Index(va, d)].present then 3 - d
    else Missing(m, Get(m, t)[Index(va, d)].addr, d + 1, va)
  }

  /** `at'` is `at` with the tables of the way added, and only frames from the pool were added. */
  ghost predicate Extends(at: Paths, at': Paths, free: set<nat>) {
    && (forall p | p in at :: p in at' && at'[p] == at[p])
    && (forall p | p in at' && p !in at :: |p| < 4 && at'[p] in free)
  }

  /** Only the way to the page of `va`, and that page, may be new in `at'`. */
  ghost predicate Opens(at: Paths, at': Paths, va: nat) {
    && (forall p | p in at && p != Path(va) :: p in at' && at'[p] == at[p])
    && (forall p | p in at' && p !in at :: p <= Path(va))
  }

  /** Tables may have been added; no walk has changed. */
  ghost predicate Grown(st: Pt, st': Pt, k: Kernel, at: Paths, at': Paths) {
    && [] in at && Inv(st', k, at') && Local(st, st') && st.frames <= st'.frames && st'.free <= st.free
    && Extends(at, at', st.free) && SameWalks(st.mem, st'.mem, at[[]]) && KeepsPages(st.mem, st'.mem, st.frames, at)
  }

  lemma GrownTwice(st: Pt, st1: Pt, st2: Pt, k: Kernel, at: Paths, at1: Paths, at2: Paths)
    requires Inv(st, k, at) && Grown(st, st1, k, at, at1) && Grown(st1, st2, k, at1, at2)
    ensures Grown(st, st2, k, at, at2)
  {
    hide Tree, KernelOk, Translate;
    PagesStayPages(st, k, at, at1);
  }

  lemma PagesStayPages(st: Pt, k: Kernel, at: Paths, at': Paths)
    requires Inv(st, k, at) && Extends(at, at', st.free)
    ensures PagesStay(st.frames, at, at')
  {
  }

  lemma GrownNot(st: Pt, k: Kernel, at: Paths)
    requires Inv(st, k, at)
    ensures Grown(st, st, k, at, at)
  {
  }

  lemma EnsureTableOk(st: Pt, k: Kernel, at: Paths, p: seq<nat>, i: nat) returns (at': Paths)
    requires Inv(st, k, at)
    requires p in at && |p| < 3 && i < 512 && Private(k, p + [i])
    ensures var r := EnsureTable(st, at[p], i);
      && Grown(st, r.st, k, at, at') && (forall q | q in at' && q !in at :: q == p + [i])
      && (r.ok ==> p + [i] in at' && at'[p + [i]] == r.table)
      && (r.ok <==> Get(st.mem, at[p])[i].present || st.free != {})
      && (Get(st.mem, at[p])[i].present ==>
            && r.table == Get(st.mem, at[p])[i].addr && r.st.free == st.free
            && forall f :: Get(r.st.mem, f) == Get(st.mem, f))
      && (!Get(st.mem, at[p])[i].present && r.ok ==>
            |r.st.free| == |st.free| - 1 && Get(r.st.mem, r.table) == ZeroTable())
      && (!r.ok ==> r.st == st && st.free == {})
  {
    var e := Get(st.mem, at[p])[i];
    var r := EnsureTable(st, at[p], i);
    at' := at;
    assert SlotOk(st.mem, k, at, p, i);
    if e.present {
      assert at[p + [i]] in at.Values && IsFrame(at[p + [i]]);
      assert Get(st.mem, at[p])[i := e] == Get(st.mem, at[p]);
      SameTables(st, r.st.mem, k, at);
    } else if st.free != {} {
      at' := NewTableOk(st, k, at, p, i);
    }
  }

  lemma SameTables(st: Pt, m: Mem, k: Kernel, at: Paths)
    requires Inv(st, k, at) && forall f :: Get(m, f) == Get(st.mem, f)
    ensures Grown(st, st.(mem := m), k, at, at)
  {
    TreeReads(st.mem, m, k, at);
  }

  lemma NewTableOk(st: Pt, k: Kernel, at: Paths, p: seq<nat>, i: nat) returns (at': Paths)
    requires Inv(st, k, at)
    requires p in at && |p| < 3 && i < 512 && Private(k, p + [i])
    requires !Get(st.mem, at[p])[i].present && p + [i] !in at && st.free != {}
    ensures var r := EnsureTable(st, at[p], i);
      && Grown(st, r.st, k, at, at') && (forall q | q in at' && q !in at :: q == p + [i])
      && p + [i] in at' && at'[p + [i]] == r.table
      && |r.st.free| == |st.free| - 1 && Get(r.st.mem, r.table) == ZeroTable()
  {
    hide Tree, KernelOk, Translate, SameWalks, Ledger;
    var n := Lowest(st.free);
    var r := EnsureTable(st, at[p], i);
    at' := at[p + [i] := n];
    NotOwned(st, k, at, n);
    NewTableTree(st.mem, k, at, p, i, n);
    TakeFrame(st, k, n, r.st.mem);
    forall v | v in at'.Values ensures v in Owned(r.st.frames) { assert v == n || v in at.Values; }
  }

  lemma NotOwned(st: Pt, k: Kernel, at: Paths, n: nat)
    requires Inv(st, k, at) && n in st.free
    ensures [] in at && n !in at.Values && n !in k.frames && n !in st.frames && MaskAddr(n) == n
  {
  }

  lemma FreshAgrees(m: Mem, k: Kernel, at: Paths, n: nat)
    requires n !in at.Values && n !in k.frames
    ensures AgreeTables(m, m[n := ZeroTable()], k, at) && Agree(m, m[n := ZeroTable()], at.Values)
  {
  }

  /** A zeroed frame, and then a new empty table, are seen by no walk. */
  lemma NewTableTree(m: Mem, k: Kernel, at: Paths, p: seq<nat>, i: nat, n: nat)
    requires KernelOk(m, k) && Tree(m, k, at)
    requires p in at && |p| < 3 && i < 512 && Private(k, p + [i]) && p + [i] !in at
    requires n !in at.Values && n !in k.frames
    ensures var m' := SetEntry(m[n := ZeroTable()], at[p], i, TableEntry(n));
      KernelOk(m', k) && Tree(m', k, at[p + [i] := n]) && SameWalks(m, m', at[[]])
  {
    var m1 := m[n := ZeroTable()];
    FreshAgrees(m, k, at, n);
    TreeReads(m, m1, k, at);
    Hang(m1, k, at, p, i, n, TableEntry(n));
    forall va ensures Translate(SetEntry(m1, at[p], i, TableEntry(n)), at[[]], va) == Translate(m, at[[]], va) {
      HangWalks(m1, k, at, p, i, n, TableEntry(n), va);
    }
  }

  /** A frame moves from the pool to the space. */
  lemma TakeFrame(st: Pt, k: Kernel, n: nat, m: Mem)
    requires Ledger(st, k) && n in st.free
    requires forall f | f !in st.free + Owned(st.frames) :: Get(st.mem, f) == Get(m, f)
    ensures var st' := Pt(st.free - {n}, m, st.frames + [n]);
      Ledger(st', k) && Local(st, st') && Owned(st'.frames) == Owned(st.frames) + {n}
  {
  }

  lemma {:induction false} MissingSame(m: Mem, m': Mem, t: nat, d: nat, va: nat)
    requires d < 4 && forall f :: Get(m', f) == Get(m, f)
    ensures Missing(m, t, d, va) == Missing(m', t, d, va)
    decreases 4 - d
  {
  }

  lemma {:induction false} EnsureTablesOk(st: Pt, k: Kernel, at: Paths, va: nat, d: nat) returns (at': Paths)
    requires Inv(st, k, at) && UserVa(k, va)
    requires d < 4 && Path(va)[..d] in at
    ensures var r := EnsureTables(st, at[Path(va)[..d]], d, va);
      && Grown(st, r.st, k, at, at')
      && Opens(at, at', va)
      && (r.ok ==> Path(va)[..3] in at' && at'[Path(va)[..3]] == r.table)
      && (r.ok <==> |st.free| >= Missing(st.mem, at[Path(va)[..d]], d, va))
      && (r.ok ==> |r.st.free| == |st.free| - Missing(st.mem, at[Path(va)[..d]], d, va))
    decreases 4 - d
  {
    hide Index, Tree, KernelOk, Translate, Ledger, Local, Extends, SameWalks, EnsureTable, Opens;
    at' := at;
    AlwaysOpens(at, va);
    GrownNot(st, k, at);
    if d < 3 {
      var p, i := Path(va)[..d], Index(va, d);
      assert p + [i] == Path(va)[..d + 1];
      var at1 := EnsureTableOk(st, k, at, p, i);
      var r1 := EnsureTable(st, at[p], i);
      OneTableOpens(st, r1.st, k, at, at1, va, d);
      if r1.ok {
        at' := EnsureTablesOk(r1.st, k, at1, va, d + 1);
        GrownTwice(st, r1.st, EnsureTables(r1.st, r1.table, d + 1, va).st, k, at, at1, at');
        if Get(st.mem, at[p])[i].present {
          MissingSame(st.mem, r1.st.mem, r1.table, d + 1, va);
        }
      } else {
        at' := at1;
      }
    }
  }

  lemma AlwaysOpens(at: Paths, va: nat)
    ensures Opens(at, at, va)
  {
  }

  lemma OneTableOpens(st: Pt, st1: Pt, k: Kernel, at: Paths, at1: Paths, va: nat, d: nat)
    requires Grown(st, st1, k, at, at1) && d < 3 && forall q | q in at1 && q !in at :: q == Path(va)[..d + 1]
    ensures Opens(at, at1, va)
    ensures forall at2: Paths | Opens(at1, at2, va) :: Opens(at, at2, va)
  {
    hide Tree, KernelOk, Translate, Index;
  }

  /** The walk sees `phys` at the page of `va` and is otherwise unchanged. */
  ghost predicate MapsOne(m: Mem, m': Mem, root: nat, va: nat, phys: nat, writable: bool) {
    forall v: nat :: Translate(m', root, v)
             == if Path(v) == Path(va) then Some(Leaf(phys, v % PAGE_SIZE, writable, true)) else Translate(m, root, v)
  }

  lemma LeafMapsOne(m: Mem, k: Kernel, at: Paths, va: nat, phys: nat, writable: bool)
    requires Path(va)[..3] in at && [] in at
    requires CanHang(m, k, at, Path(va)[..3], Index(va, 3), phys, LeafEntry(phys, writable))
    ensures MapsOne(m, SetEntry(m, at[Path(va)[..3]], Index(va, 3), LeafEntry(phys, writable)),
      at[[]], va, phys, writable)
  {
    hide CanHang, Translate, Index;
    var p, i, e := Path(va)[..3], Index(va, 3), LeafEntry(phys, writable);
    assert p + [i] == Path(va);
    forall v: nat ensures Translate(SetEntry(m, at[p], i, e), at[[]], v) ==
      if Path(v) == Path(va) then Some(Leaf(phys, v % PAGE_SIZE, writable, true)) else Translate(m, at[[]], v)
    {
      HangWalks(m, k, at, p, i, phys, e, v);
    }
  }

  lemma SetLeafOk(st: Pt, k: Kernel, at: Paths, va: nat, phys: nat, writable: bool)
    requires Inv(st, k, at) && UserVa(k, va) && Path(va)[..3] in at
    requires phys in st.frames && phys !in at.Values
    ensures var st' := st.(mem := SetEntry(st.mem, at[Path(va)[..3]], Index(va, 3),
      LeafEntry(MaskAddr(phys), writable)));
      && Inv(st', k, at[Path(va) := phys]) && Local(st, st')
      && MapsOne(st.mem, st'.mem, at[[]], va, phys, writable)
      && KeepsPages(st.mem, st'.mem, st.frames, at)
  {
    var p, i, e := Path(va)[..3], Index(va, 3), LeafEntry(phys, writable);
    var m' := SetEntry(st.mem, at[p], i, e);
    assert p + [i] == Path(va);
    assert at[p] in at.Values;
    assert CanHang(st.mem, k, at, p, i, phys, e);
    assert KernelOk(m', k) && Tree(m', k, at[Path(va) := phys]) by { Hang(st.mem, k, at, p, i, phys, e); }
    LeafMapsOne(st.mem, k, at, va, phys, writable);
    forall v | v in at[Path(va) := phys].Values ensures v in Owned(st.frames) { assert v == phys || v in at.Values; }
  }

  /** `map_user_page`: success changes the walk at exactly one page, failure changes none, and it succeeds exactly when
      the pool can supply the missing tables. */
  lemma MapPageOk(st: Pt, k: Kernel, at: Paths, va: nat, phys: nat, writable: bool) returns (at': Paths)
    requires Inv(st, k, at) && UserVa(k, va)
    requires phys in st.frames && phys !in at.Values
    ensures var r := MapPage(st, at[[]], va, phys, writable);
      && Inv(r.st, k, at') && Local(st, r.st) && [] in at' && at'[[]] == at[[]]
      && (r.ok <==> |st.free| >= Missing(st.mem, at[[]], 0, va))
      && (!r.ok ==> SameWalks(st.mem, r.st.mem, at[[]]) && phys in r.st.frames && phys !in at'.Values)
      && (r.ok ==> MapsOne(st.mem, r.st.mem, at[[]], va, phys, writable))
      && (r.ok ==> Path(va) in at' && at'[Path(va)] == phys && Path(va)[..3] in at')
      && (r.ok ==> |r.st.free| == |st.free| - Missing(st.mem, at[[]], 0, va))
      && Opens(at, at', va)
      && KeepsPages(st.mem, r.st.mem, st.frames, at) && PagesStay(st.frames, at, at')
      && Owned(st.frames) <= Owned(r.st.frames) && r.st.free <= st.free
  {
    hide Index, Tree, KernelOk, Translate, Ledger, EnsureTables, Missing, MapsOne, SameWalks, Local, Extends, Opens;
    assert Path(va)[..0] == [];
    at' := EnsureTablesOk(st, k, at, va, 0);
    var e := EnsureTables(st, at[[]], 0, va);
    LooseStays(st, e.st, k, at, at', phys);
    if e.ok {
      var st' := MapPage(st, at[[]], va, phys, writable).st;
      SetLeafOk(e.st, k, at', va, phys, writable);
      ThenLeaf(st, e.st, st', k, at, at', va, phys, writable);
      LeafIsNoTable(st.frames, at, at', Path(va), phys);
      LeafOpens(at, at', va, phys);
      at' := at'[Path(va) := phys];
    }
  }

  /** A frame the space owns but has not mapped is not taken for a table. */
  lemma LooseStays(st: Pt, st': Pt, k: Kernel, at: Paths, at': Paths, phys: nat)
    requires Inv(st, k, at) && Grown(st, st', k, at, at') && phys in st.frames && phys !in at.Values
    ensures phys !in at'.Values && phys in st'.frames && [] in at' && at'[[]] == at[[]]
    ensures Local(st, st') && SameWalks(st.mem, st'.mem, at[[]]) && PagesStay(st.frames, at, at')
    ensures Owned(st.frames) <= Owned(st'.frames)
  {
    hide Tree, KernelOk, Translate;
    PagesStayPages(st, k, at, at');
    assert phys in Owned(st.frames);
    forall p | p in at' ensures at'[p] != phys {
      if p in at { assert at[p] in at.Values; }
    }
  }

  lemma LeafOpens(at: Paths, at': Paths, va: nat, phys: nat)
    requires Opens(at, at', va)
    ensures Opens(at, at'[Path(va) := phys], va)
  {
  }

  lemma LeafIsNoTable(frames: seq<nat>, at: Paths, at': Paths, q: seq<nat>, phys: nat)
    requires PagesStay(frames, at, at') && |q| == 4
    ensures PagesStay(frames, at, at'[q := phys])
  {
  }

  lemma ThenLeaf(st: Pt, st1: Pt, st2: Pt, k: Kernel, at: Paths, at1: Paths, va: nat, phys: nat, writable: bool)
    requires Inv(st, k, at) && Grown(st, st1, k, at, at1) && Local(st1, st2) && [] in at1
    requires MapsOne(st1.mem, st2.mem, at1[[]], va, phys, writable) && KeepsPages(st1.mem, st2.mem, st1.frames, at1)
    ensures Local(st, st2) && MapsOne(st.mem, st2.mem, at[[]], va, phys, writable)
    ensures KeepsPages(st.mem, st2.mem, st.frames, at)
  {
    hide Tree, KernelOk, Translate;
    PagesStayPages(st, k, at, at1);
  }

  datatype Unmapped = Unmapped(phys: Option<nat>, st: Pt)

  /** The last table on the way to the page of `va`, if the way is complete. */
  function LastTable(m: Mem, t: nat, d: nat, va: nat): Option<nat>
    requires d < 4
    decreases 4 - d
  {
    if d == 3 then Some(t)
    else if !Get(m, t)[Index(va, d)].present then None
    else LastTable(m, Get(m, t)[Index(va, d)].addr, d + 1, va)
  }

  /** `allocated_frames` without the first occurrence of `f`. */
  function RemoveFirst(s: seq<nat>, f: nat): seq<nat> {
    if s == [] then [] else if s[0] == f then s[1..] else [s[0]] + RemoveFirst(s[1..], f)
  }

  function UnmapPage(st: Pt, root: nat, va: nat): Unmapped {
    match LastTable(st.mem, root, 0, va)
    case None => Unmapped(None, st)
    case Some(t) =>
      var e := Get(st.mem, t)[Index(va, 3)];
      if !e.present then Unmapped(None, st)
      else Unmapped(Some(e.addr),
                    Pt(st.free, SetEntry(st.mem, t, Index(va, 3), UNUSED), RemoveFirst(st.frames, e.addr)))
  }

  lemma {:induction false} RemoveFirstOk(s: seq<nat>, f: nat)
    requires NoDup(s)
    ensures NoDup(RemoveFirst(s, f)) && Owned(RemoveFirst(s, f)) == Owned(s) - {f}
  {
    if s != [] && s[0] != f {
      RemoveFirstOk(s[1..], f);
      assert Owned(s) == {s[0]} + Owned(s[1..]);
      assert s[0] !in Owned(RemoveFirst(s[1..], f));
      assert s[0] !in RemoveFirst(s[1..], f);
      assert Owned(RemoveFirst(s, f)) == {s[0]} + Owned(RemoveFirst(s[1..], f));
    } else if s != [] {
      assert Owned(s) == {s[0]} + Owned(s[1..]);
    }
  }

  lemma {:induction false} LastTableOk(m: Mem, k: Kernel, at: Paths, va: nat, d: nat)
    requires Tree(m, k, at) && UserVa(k, va) && d < 4 && Path(va)[..d] in at
    ensures LastTable(m, at[Path(va)[..d]], d, va)
         == if Path(va)[..3] in at then Some(at[Path(va)[..3]]) else None
    decreases 4 - d
  {
    if d < 3 {
      var p, i := Path(va)[..d], Index(va, d);
      assert p + [i] == Path(va)[..d + 1];
      assert SlotOk(m, k, at, p, i);
      if p + [i] in at {
        LastTableOk(m, k, at, va, d + 1);
      } else {
        NoGrandchild(k, at, Path(va), d + 1);
      }
    }
  }

  lemma {:induction false} NoGrandchild(k: Kernel, at: Paths, q: seq<nat>, d: nat)
    requires (forall x | x in at :: PathOk(k, at, x)) && d <= 3 <= |q| && q[..d] !in at
    ensures q[..3] !in at
    decreases 3 - d
  {
    if d < 3 {
      ChildHasParent(k, at, q[..d], q[d]);
      assert q[..d] + [q[d]] == q[..d + 1];
      NoGrandchild(k, at, q, d + 1);
    }
  }

  /** No walk reaches the page of `va` any more, and no other walk has changed. */
  ghost predicate UnmapsOne(m: Mem, m': Mem, root: nat, va: nat) {
    forall v: nat :: Translate(m', root, v) == if Path(v) == Path(va) then None else Translate(m, root, v)
  }

  /** `free_frame` for a frame in use. */
  function FreeFrame(free: set<nat>, f: nat): set<nat> {
    if IsFrame(f) then free + {f} else free
  }

  /** One turn of the first loop of `munmap`: unmap a page and return its frame. */
  function UnmapAndFree(st: Pt, root: nat, va: nat): Pt {
    var u := UnmapPage(st, root, va);
    match u.phys
    case None => u.st
    case Some(f) => u.st.(free := FreeFrame(u.st.free, f))
  }

  lemma UnmapAndFreeOk(st: Pt, k: Kernel, at: Paths, va: nat)
    requires Inv(st, k, at) && UserVa(k, va)
    ensures var st' := UnmapAndFree(st, at[[]], va);
      && Inv(st', k, at - {Path(va)}) && Local(st, st') && UnmapsOne(st.mem, st'.mem, at[[]], va)
      && KeepsPages(st.mem, st'.mem, st.frames, at)
      && st'.free == st.free + (if Path(va) in at then {at[Path(va)]} else {})
  {
    assert Path(va)[..0] == [];
    LastTableOk(st.mem, k, at, va, 0);
    var p, i := Path(va)[..3], Index(va, 3);
    assert p + [i] == Path(va);
    ChildHasParent(k, at, p, i);
    if p in at {
      assert SlotOk(st.mem, k, at, p, i);
    }
    if Path(va) in at {
      UnmapPresent(st, k, at, va);
    } else {
      assert at - {Path(va)} == at;
      forall v: nat | Path(v) == Path(va) ensures Translate(st.mem, at[[]], v) == None {
        WalkToNothing(st.mem, k, at, v, 0);
      }
    }
  }

  lemma UnmapPresent(st: Pt, k: Kernel, at: Paths, va: nat)
    requires Inv(st, k, at) && UserVa(k, va) && Path(va) in at && Path(va)[..3] in at && [] in at
    requires UnmapPage(st, at[[]], va) == Unmapped(Some(at[Path(va)]),
               Pt(st.free, SetEntry(st.mem, at[Path(va)[..3]], Index(va, 3), UNUSED),
                 RemoveFirst(st.frames, at[Path(va)])))
    ensures var st' := UnmapAndFree(st, at[[]], va);
      && Inv(st', k, at - {Path(va)}) && Local(st, st') && UnmapsOne(st.mem, st'.mem, at[[]], va)
      && KeepsPages(st.mem, st'.mem, st.frames, at)
      && st'.free == st.free + {at[Path(va)]}
  {
    hide Tree, KernelOk, Translate, UnmapPage, Index, UnmapsOne, RemoveFirst;
    var p, i, q := Path(va)[..3], Index(va, 3), Path(va);
    var st' := UnmapAndFree(st, at[[]], va);
    assert p + [i] == q;
    assert at[q] in at.Values && at[p] in at.Values && IsFrame(at[q]);
    UnmapTree(st.mem, k, at, p, i, va);
    RemoveFirstOk(st.frames, at[q]);
    assert Owned(st'.frames) == Owned(st.frames) - {at[q]};
    forall f | f in st'.free || f in st'.frames ensures IsFrame(f) {
      assert f in st'.frames ==> f in Owned(st'.frames);
    }
    forall v | v in (at - {q}).Values ensures v in Owned(st'.frames) { assert v in at.Values; }
  }

  lemma UnmapTree(m: Mem, k: Kernel, at: Paths, p: seq<nat>, i: nat, va: nat)
    requires KernelOk(m, k) && Tree(m, k, at)
    requires p in at && |p| == 3 && i < 512 && p + [i] in at && p + [i] == Path(va)
    ensures var m' := SetEntry(m, at[p], i, UNUSED);
      KernelOk(m', k) && Tree(m', k, at - {p + [i]}) && UnmapsOne(m, m', at[[]], va)
    ensures at[p + [i]] !in (at - {p + [i]}).Values
  {
    Unhang(m, k, at, p, i);
    forall v: nat ensures Translate(SetEntry(m, at[p], i, UNUSED), at[[]], v) ==
      if Path(v) == Path(va) then None else Translate(m, at[[]], v)
    {
      UnhangWalks(m, k, at, p, i, v);
    }
  }

  /** A page without a frame in the tree is not mapped. */
  lemma {:induction false} WalkToNothing(m: Mem, k: Kernel, at: Paths, va: nat, d: nat)
    requires Tree(m, k, at) && UserVa(k, va) && d < 4 && Path(va)[..d] in at && Path(va) !in at
    ensures Walk(m, at[Path(va)[..d]], d, va, true, true) == None
    decreases 4 - d
  {
    var p, i := Path(va)[..d], Index(va, d);
    assert p + [i] == Path(va)[..d + 1];
    assert SlotOk(m, k, at, p, i);
    if d < 3 && p + [i] in at {
      WalkToNothing(m, k, at, va, d + 1);
    } else if d == 3 {
      assert Path(va)[..4] == Path(va);
    }
  }
}
