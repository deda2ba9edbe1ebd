/** How many frames a range of pages takes, counted before the call. */
module PoolNeeds {
  import opened Paging
  import opened PageTables
  import opened UserPages
  import opened Vmas
  import opened AddressSpaces
  import opened VmCalls

  /** The tables absent on the way to one page. */
  function NewFor(at: Paths, va: nat): set<seq<nat>> {
    set d | 1 <= d <= 3 && Path(va)[..d] !in at :: Path(va)[..d]
  }

  /** The tables absent on the way to the pages of a range, each counted once. */
  function NewTables(at: Paths, lo: nat, hi: nat): set<seq<nat>> {
    set v: nat, d | lo <= v < hi && v % PAGE_SIZE == 0 && 1 <= d <= 3 && Path(v)[..d] !in at :: Path(v)[..d]
  }

  function Pages(lo: nat, hi: nat): nat {
    if hi <= lo then 0 else (hi - lo) / PAGE_SIZE
  }

  function Needs(at: Paths, lo: nat, hi: nat): nat {
    Pages(lo, hi) + |NewTables(at, lo, hi)|
  }

  /** Tables are absent from some depth on. */
  ghost predicate Nested(at: Paths, va: nat) {
    && (Path(va)[..3] in at ==> Path(va)[..2] in at)
    && (Path(va)[..2] in at ==> Path(va)[..1] in at)
  }

  lemma TreeNested(m: Mem, k: Kernel, at: Paths, va: nat)
    requires Tree(m, k, at)
    ensures Nested(at, va)
  {
    hide Index;
    var p := Path(va);
    if p[..3] in at { assert PathOk(k, at, p[..3]) && p[..3][..2] == p[..2]; }
    if p[..2] in at { assert PathOk(k, at, p[..2]) && p[..2][..1] == p[..1]; }
  }

  lemma NewForCount(at: Paths, va: nat)
    requires Nested(at, va)
    ensures var p := Path(va);
      |NewFor(at, va)| == if p[..1] !in at then 3 else if p[..2] !in at then 2 else if p[..3] !in at then 1 else 0
  {
    hide Index;
    var p := Path(va);
    assert |p[..1]| == 1 && |p[..2]| == 2 && |p[..3]| == 3;
    var s := NewFor(at, va);
    if p[..1] !in at {
      assert s == {p[..1], p[..2], p[..3]};
    } else if p[..2] !in at {
      assert s == {p[..2], p[..3]};
    } else if p[..3] !in at {
      assert s == {p[..3]};
    } else {
      assert s == {};
    }
  }

  /** The walk counts exactly the absent tables. */
  lemma {:induction false} MissingFrom(m: Mem, k: Kernel, at: Paths, va: nat, d: nat)
    requires Tree(m, k, at) && UserVa(k, va) && Nested(at, va) && d < 4 && Path(va)[..d] in at
    ensures var p := Path(va);
      Missing(m, at[p[..d]], d, va) ==
        if d < 1 && p[..1] !in at then 3 else if d < 2 && p[..2] !in at then 2
          else if d < 3 && p[..3] !in at then 1 else 0
    decreases 4 - d
  {
    hide Index;
    var p := Path(va);
    if d < 3 {
      assert p[..d] + [Index(va, d)] == p[..d + 1];
      assert SlotOk(m, k, at, p[..d], Index(va, d));
      if p[..d + 1] in at { MissingFrom(m, k, at, va, d + 1); }
    }
  }

  lemma MissingIs(m: Mem, k: Kernel, at: Paths, va: nat)
    requires Tree(m, k, at) && UserVa(k, va)
    ensures Missing(m, at[[]], 0, va) == |NewFor(at, va)|
  {
    hide Index, Missing, NewFor;
    TreeNested(m, k, at, va);
    assert Path(va)[..0] == [];
    MissingFrom(m, k, at, va, 0);
    NewForCount(at, va);
  }

  /** Mapping the first page pays for its own tables and no others. */
  lemma NewTablesStep(at: Paths, at': Paths, va: nat, hi: nat)
    requires va % PAGE_SIZE == 0 && va + PAGE_SIZE <= hi && Opens(at, at', va) && Path(va)[..3] in at'
    requires Nested(at', va)
    ensures NewTables(at, va, hi) == NewFor(at, va) + NewTables(at', va + PAGE_SIZE, hi)
    ensures NewFor(at, va) !! NewTables(at', va + PAGE_SIZE, hi)
  {
    hide Index;
    NoPageBetween(va);
    forall q | q in NewTables(at, va, hi) ensures q in NewFor(at, va) + NewTables(at', va + PAGE_SIZE, hi) {
      var v: nat, d :| va <= v < hi && v % PAGE_SIZE == 0 && 1 <= d <= 3 && Path(v)[..d] !in at && q == Path(v)[..d];
      if q in at' { assert q == Path(va)[..d]; }
    }
    forall q | q in NewFor(at, va) ensures q in NewTables(at, va, hi) && q in at' {
      var d :| 1 <= d <= 3 && Path(va)[..d] !in at && q == Path(va)[..d];
    }
    forall q | q in NewTables(at', va + PAGE_SIZE, hi) ensures q in NewTables(at, va, hi) && q !in at' {
      var v: nat, d :| va + PAGE_SIZE <= v < hi && v % PAGE_SIZE == 0 && 1 <= d <= 3 &&
        Path(v)[..d] !in at' && q == Path(v)[..d];
      assert |q| == d && |Path(va)| == 4;
    }
  }

  lemma NeedsStep(at: Paths, at': Paths, va: nat, hi: nat)
    requires va % PAGE_SIZE == 0 && hi % PAGE_SIZE == 0 && va < hi && Opens(at, at', va) && Path(va)[..3] in at'
    requires Nested(at', va)
    ensures va + PAGE_SIZE <= hi && Needs(at, va, hi) == 1 + |NewFor(at, va)| + Needs(at', va + PAGE_SIZE, hi)
  {
    hide Index, NewTables, NewFor, Opens;
    AlignedGap(va, hi);
    PageLess(va, hi);
    NewTablesStep(at, at', va, hi);
  }

  lemma PageLess(va: nat, hi: nat)
    requires va % PAGE_SIZE == 0 && hi % PAGE_SIZE == 0 && va < hi
    ensures va + PAGE_SIZE <= hi && Pages(va, hi) == 1 + Pages(va + PAGE_SIZE, hi)
  {
  }

  lemma NeedsAtLeast(at: Paths, va: nat, hi: nat)
    requires va % PAGE_SIZE == 0 && hi % PAGE_SIZE == 0 && va < hi
    ensures Needs(at, va, hi) >= 1 + |NewFor(at, va)|
  {
    hide Index;
    PageLess(va, hi);
    forall q | q in NewFor(at, va) ensures q in NewTables(at, va, hi) {
      var d :| 1 <= d <= 3 && Path(va)[..d] !in at && q == Path(va)[..d];
    }
    Larger(NewFor(at, va), NewTables(at, va, hi));
  }

  lemma Larger(a: set<seq<nat>>, b: set<seq<nat>>)
    requires a <= b
    ensures |a| <= |b|
  {
    assert b == a + (b - a);
  }

  lemma NeedsNone(at: Paths, va: nat, hi: nat)
    requires hi <= va
    ensures Needs(at, va, hi) == 0
  {
    assert NewTables(at, va, hi) == {};
  }

  /** MAP_POPULATE fills its range exactly when the pool holds a frame for every page and for every absent table. */
  lemma {:induction false} PopulateCount(st: Pt, k: Kernel, at: Paths, va: nat, end: nat, writable: bool,
      pages: map<nat, nat>)
    requires Inv(st, k, at) && UserRange(k, va, end) && va % PAGE_SIZE == 0 && end % PAGE_SIZE == 0
    ensures Populate(st, at[[]], va, end, writable, pages).Filled? <==> |st.free| >= Needs(at, va, end)
    decreases end - va
  {
    hide Index, KernelOk, Ledger, Translate, Local, TakePage, Affordable, TookOk, Needs, NewFor, UserVa, Tree, Missing;
    if va >= end {
      NeedsNone(at, va, end);
    } else {
      PageLess(va, end);
      AlignedSum(va, PAGE_SIZE);
      var at1 := TakePageOk(st, k, at, va, writable);
      var t := TakePage(st, at[[]], va, writable);
      MissingIs(st.mem, k, at, va);
      AffordableIs(st, at[[]], va);
      NeedsAtLeast(at, va, end);
      if t.Took? {
        TookCounts(st, t.st, t.frame, k, at, at1, va, writable);
        NeedsStep(at, at1, va, end);
        PopulateCount(t.st, k, at1, va + PAGE_SIZE, end, writable, pages[va := t.frame]);
      }
    }
  }

  lemma AffordableIs(st: Pt, root: nat, va: nat)
    ensures Affordable(st, root, va) <==> |st.free| == 0 || |st.free| >= 1 + Missing(st.mem, root, 0, va)
  {
  }

  lemma TookCounts(st: Pt, st': Pt, n: nat, k: Kernel, at: Paths, at': Paths, va: nat, writable: bool)
    requires TookOk(st, st', n, k, at, at', va, writable)
    ensures Inv(st', k, at') && [] in at' && [] in at && at'[[]] == at[[]]
    ensures Opens(at, at', va) && Path(va)[..3] in at' && Nested(at', va)
    ensures |st'.free| == |st.free| - 1 - Missing(st.mem, at[[]], 0, va)
  {
    hide Index, Missing, Translate;
    TreeNested(st'.mem, k, at', va);
  }

  /** The pool is never strictly between what the pages before `v` take and what `v` takes as well. */
  ghost predicate NeverBetween(at: Paths, lo: nat, hi: nat, free: nat) {
    forall v: nat | lo <= v < hi && v % PAGE_SIZE == 0 :: !(Needs(at, lo, v) < free < Needs(at, lo, v + PAGE_SIZE))
  }

  /** The populate loop is safe exactly when the size of the pool falls on no such gap. */
  lemma {:induction false} PopulateSafeIff(st: Pt, k: Kernel, at: Paths, va: nat, end: nat, writable: bool)
    requires Inv(st, k, at) && UserRange(k, va, end) && va % PAGE_SIZE == 0 && end % PAGE_SIZE == 0
    ensures PopulateSafe(st, at[[]], va, end, writable) <==> NeverBetween(at, va, end, |st.free|)
    decreases end - va
  {
    hide Index, KernelOk, Ledger, Translate, Local, TakePage, Affordable, TookOk, Needs, NewFor, UserVa, Tree, Missing,
      NeverBetween;
    if va >= end {
      NoGaps(at, va, end, |st.free|);
    } else {
      PageLess(va, end);
      AlignedSum(va, PAGE_SIZE);
      var at1 := TakePageOk(st, k, at, va, writable);
      var t := TakePage(st, at[[]], va, writable);
      MissingIs(st.mem, k, at, va);
      AffordableIs(st, at[[]], va);
      FirstGap(at, va, end, |st.free|);
      if t.Took? {
        TookCounts(st, t.st, t.frame, k, at, at1, va, writable);
        LaterGaps(at, at1, va, end, |st.free|);
        PopulateSafeIff(t.st, k, at1, va + PAGE_SIZE, end, writable);
      }
    }
  }

  lemma NoGaps(at: Paths, va: nat, end: nat, free: nat)
    requires va >= end
    ensures NeverBetween(at, va, end, free)
  {
  }

  lemma NewTablesOne(at: Paths, va: nat)
    requires va % PAGE_SIZE == 0
    ensures Needs(at, va, va + PAGE_SIZE) == 1 + |NewFor(at, va)|
  {
    hide Index;
    NoPageBetween(va);
    assert NewTables(at, va, va + PAGE_SIZE) == NewFor(at, va);
  }

  lemma FirstGap(at: Paths, va: nat, end: nat, free: nat)
    requires va < end && va % PAGE_SIZE == 0
    ensures NeverBetween(at, va, end, free) ==> free == 0 || free >= 1 + |NewFor(at, va)|
    ensures free == 0 ==> NeverBetween(at, va, end, free)
  {
    hide NewFor, Needs;
    NewTablesOne(at, va);
    NeedsNone(at, va, va);
  }

  lemma LaterGaps(at: Paths, at': Paths, va: nat, end: nat, free: nat)
    requires va % PAGE_SIZE == 0 && end % PAGE_SIZE == 0 && va < end && va + PAGE_SIZE <= end
    requires Opens(at, at', va) && Path(va)[..3] in at' && Nested(at', va) && free >= 1 + |NewFor(at, va)|
    ensures NeverBetween(at, va, end, free) <==> NeverBetween(at', va + PAGE_SIZE, end, free - 1 - |NewFor(at, va)|)
  {
    hide NewFor, Needs, Opens, Nested, Index;
    var n := 1 + |NewFor(at, va)|;
    var lo := va + PAGE_SIZE;
    forall v: nat | lo <= v < end && v % PAGE_SIZE == 0
      ensures Needs(at, va, v) == n + Needs(at', lo, v)
      ensures Needs(at, va, v + PAGE_SIZE) == n + Needs(at', lo, v + PAGE_SIZE)
    {
      NeedsStep(at, at', va, v);
      AlignedSum(v, PAGE_SIZE);
      NeedsStep(at, at', va, v + PAGE_SIZE);
    }
    if NeverBetween(at', lo, end, free - n) {
      forall v: nat | va <= v < end && v % PAGE_SIZE == 0
        ensures !(Needs(at, va, v) < free < Needs(at, va, v + PAGE_SIZE))
      {
        if v == va {
          NewTablesOne(at, va);
        } else {
          NoPageBetween(va);
          assert !(Needs(at', lo, v) < free - n < Needs(at', lo, v + PAGE_SIZE));
        }
      }
    }
    if NeverBetween(at, va, end, free) {
      forall v: nat | lo <= v < end && v % PAGE_SIZE == 0
        ensures !(Needs(at', lo, v) < free - n < Needs(at', lo, v + PAGE_SIZE))
      {
        assert !(Needs(at, va, v) < free < Needs(at, va, v + PAGE_SIZE));
      }
    }
  }
}
