/** The page tables of one user address space: building, mapping and unmapping pages. The kernel's own tables are shared
    read-only; every other table is owned by the space. */
module PageTables {
  import opened Wrappers
  import opened Paging

  /** The kernel's tables: their frames, and the two tables every space copies. `pdpt` is empty when the kernel leaves
      PML4[0] absent. */
  datatype Kernel = Kernel(root: nat, frames: set<nat>, pml4: Table, pdpt: Table)

  ghost predicate KernelOk(m: Mem, k: Kernel) {
    && TreeIn(m, k.root, 0, k.frames)
    && Get(m, k.root) == k.pml4
    && k.pdpt == if k.pml4[0].present then Get(m, k.pml4[0].addr) else ZeroTable()
  }

  /** The paths of a space's own tables and pages: below PML4[0], in a PDPT slot the kernel leaves absent. */
  predicate Private(k: Kernel, p: seq<nat>) {
    |p| > 0 && p[0] == 0 && (|p| > 1 ==> p[1] < 512 && !k.pdpt[p[1]].present)
  }

  predicate UserVa(k: Kernel, va: nat) {
    Index(va, 0) == 0 && !k.pdpt[Index(va, 1)].present
  }

  function TableEntry(a: nat): Pte {
    Pte(a, true, true, true, false, 0)
  }

  function LeafEntry(a: nat, writable: bool): Pte {
    Pte(a, true, writable, true, false, 0)
  }

  /** Where the tables and pages of one space are: path of indices from the PML4 to frame. */
  type Paths = map<seq<nat>, nat>

  /** Entry `i` of the table at path `p`: the space's own, or a copy of the kernel's. */
  ghost predicate SlotOk(m: Mem, k: Kernel, at: Paths, p: seq<nat>, i: nat)
    requires p in at && i < 512
  {
    var q, e := p + [i], Get(m, at[p])[i];
    if Private(k, q) then
      && (e.present <==> q in at)
      && (e.present ==> e == if |p| < 3 then TableEntry(at[q]) else LeafEntry(at[q], e.writable))
    else if p == [] then e == k.pml4[i]
    else e == k.pdpt[i]
  }

  ghost predicate PathOk(k: Kernel, at: Paths, p: seq<nat>) {
    |p| <= 4 && (p == [] || (Private(k, p) && p[..|p| - 1] in at))
  }

  ghost predicate Tree(m: Mem, k: Kernel, at: Paths) {
    && [] in at && (k.pml4[0].present ==> [0] in at)
    && at.Values !! k.frames
    && (forall p | p in at :: PathOk(k, at, p))
    && (forall p, q | p in at && q in at && at[p] == at[q] :: p == q)
    && (forall p, i | p in at && |p| < 4 && 0 <= i < 512 :: SlotOk(m, k, at, p, i))
  }

  lemma KernelSubtree(m: Mem, k: Kernel, p: seq<nat>, i: nat, e: Pte)
    requires KernelOk(m, k) && i < 512 && (p == [] || p == [0]) && !Private(k, p + [i])
    requires e == if p == [] then k.pml4[i] else k.pdpt[i]
    requires Descends(e, |p|)
    ensures TreeIn(m, e.addr, |p| + 1, k.frames)
  {
    if p == [0] {
      assert Descends(k.pml4[0], 0);
      assert TreeIn(m, k.pml4[0].addr, 1, k.frames);
    }
  }

  lemma KernelReads(m: Mem, m': Mem, k: Kernel)
    requires KernelOk(m, k) && Agree(m, m', k.frames)
    ensures KernelOk(m', k)
  {
    TreeReadsTree(m, m', k.root, 0, k.frames);
    if k.pml4[0].present {
      assert Descends(Get(m, k.root)[0], 0);
      assert TreeIn(m, k.pml4[0].addr, 1, k.frames);
    }
  }

  /** A path that leaves the private part does so at the PML4 or at the PDPT of PML4[0]. */
  lemma LeavesEarly(k: Kernel, at: Paths, p: seq<nat>, i: nat)
    requires PathOk(k, at, p) && i < 512 && !Private(k, p + [i])
    ensures p == [] || p == [0]
  {
  }

  /** Writing one entry leaves alone every walk that does not pass through it. */
  lemma {:induction false} WalkOffPath(m: Mem, m': Mem, k: Kernel, at: Paths, p: seq<nat>, i: nat,
                                       q: seq<nat>, va: nat, w: bool, u: bool)
    requires KernelOk(m, k) && Tree(m, k, at)
    requires p in at && i < 512 && Agree(m, m', at.Values - {at[p]} + k.frames)
    requires forall j | 0 <= j < 512 && j != i :: Get(m', at[p])[j] == Get(m, at[p])[j]
    requires q in at && |q| < 4 && q == Path(va)[..|q|]
    requires !(p + [i] <= Path(va))
    ensures Walk(m, at[q], |q|, va, w, u) == Walk(m', at[q], |q|, va, w, u)
    decreases 4 - |q|
  {
    hide Index, KernelOk, Tree, TreeIn, Private;
    var j := Index(va, |q|);
    var x := Get(m, at[q])[j];
    assert q + [j] == Path(va)[..|q| + 1];
    EntryOffPath(m, m', k, at, p, i, q, va);
    StepDown(m, k, at, q, j);
    if Descends(x, |q|) {
      if Private(k, q + [j]) {
        WalkOffPath(m, m', k, at, p, i, q + [j], va, w && x.writable, u && x.user);
      } else {
        KernelAgrees(m, m', at, p, k);
        WalkReadsTree(m, m', x.addr, |q| + 1, k.frames, va, w && x.writable, u && x.user);
      }
    }
  }

  /** An entry that points at a table points at the space's own, or into the kernel's. */
  lemma StepDown(m: Mem, k: Kernel, at: Paths, q: seq<nat>, j: nat)
    requires KernelOk(m, k) && Tree(m, k, at) && q in at && |q| < 4 && j < 512
    ensures var x := Get(m, at[q])[j];
      Descends(x, |q|) ==>
        if Private(k, q + [j]) then q + [j] in at && at[q + [j]] == x.addr else TreeIn(m, x.addr, |q| + 1, k.frames)
  {
    hide KernelOk, TreeIn;
    var x := Get(m, at[q])[j];
    assert SlotOk(m, k, at, q, j) && PathOk(k, at, q);
    if Descends(x, |q|) && !Private(k, q + [j]) {
      LeavesEarly(k, at, q, j);
      KernelSubtree(m, k, q, j, x);
    }
  }

  lemma EntryOffPath(m: Mem, m': Mem, k: Kernel, at: Paths, p: seq<nat>, i: nat, q: seq<nat>, va: nat)
    requires Tree(m, k, at) && p in at && i < 512 && Agree(m, m', at.Values - {at[p]} + k.frames)
    requires forall j | 0 <= j < 512 && j != i :: Get(m', at[p])[j] == Get(m, at[p])[j]
    requires q in at && |q| < 4 && q == Path(va)[..|q|] && !(p + [i] <= Path(va))
    ensures Get(m', at[q])[Index(va, |q|)] == Get(m, at[q])[Index(va, |q|)]
  {
    hide Index, SlotOk, PathOk;
    var j := Index(va, |q|);
    if at[q] == at[p] {
      assert q == p && p + [j] == Path(va)[..|q| + 1];
    } else {
      assert at[q] in at.Values;
    }
  }

  lemma KernelAgrees(m: Mem, m': Mem, at: Paths, p: seq<nat>, k: Kernel)
    requires p in at && Agree(m, m', at.Values - {at[p]} + k.frames)
    ensures Agree(m, m', k.frames)
  {
  }

  /** Along a private path the walk goes from table to table of the space. */
  lemma WalkOnPath(m: Mem, k: Kernel, at: Paths, p: seq<nat>, va: nat)
    requires Tree(m, k, at) && UserVa(k, va)
    requires p in at && |p| < 4 && p <= Path(va)
    ensures Translate(m, at[[]], va) == Walk(m, at[p], |p|, va, true, true)
    decreases |p|
  {
    if p != [] {
      var q := p[..|p| - 1];
      assert PathOk(k, at, p);
      WalkOnPath(m, k, at, q, va);
      assert SlotOk(m, k, at, q, p[|p| - 1]) && q + [p[|p| - 1]] == p;
    }
  }

  ghost predicate AgreeTables(m: Mem, m': Mem, k: Kernel, at: Paths) {
    Agree(m, m', k.frames) && forall p | p in at && |p| < 4 :: Get(m', at[p]) == Get(m, at[p])
  }

  /** Only the tables of the space and of the kernel matter for its walks. */
  lemma TreeReads(m: Mem, m': Mem, k: Kernel, at: Paths)
    requires KernelOk(m, k) && Tree(m, k, at) && AgreeTables(m, m', k, at)
    ensures KernelOk(m', k) && Tree(m', k, at)
    ensures forall va :: Translate(m', at[[]], va) == Translate(m, at[[]], va)
  {
    KernelReads(m, m', k);
    forall p, i | p in at && |p| < 4 && 0 <= i < 512 ensures SlotOk(m', k, at, p, i) {
      assert SlotOk(m, k, at, p, i);
    }
    forall va ensures Translate(m', at[[]], va) == Translate(m, at[[]], va) {
      WalkSame(m, m', k, at, [], va, true, true);
    }
  }

  lemma {:induction false} WalkSame(m: Mem, m': Mem, k: Kernel, at: Paths, q: seq<nat>, va: nat, w: bool, u: bool)
    requires KernelOk(m, k) && Tree(m, k, at) && AgreeTables(m, m', k, at)
    requires q in at && |q| < 4
    ensures Walk(m, at[q], |q|, va, w, u) == Walk(m', at[q], |q|, va, w, u)
    decreases 4 - |q|
  {
    hide Index, KernelOk, Tree, TreeIn, Private;
    var j := Index(va, |q|);
    var x := Get(m, at[q])[j];
    StepDown(m, k, at, q, j);
    if Descends(x, |q|) {
      if Private(k, q + [j]) {
        WalkSame(m, m', k, at, q + [j], va, w && x.writable, u && x.user);
      } else {
        WalkReadsTree(m, m', x.addr, |q| + 1, k.frames, va, w && x.writable, u && x.user);
      }
    }
  }

  // ----- Changing one entry of the tree -----

  lemma ChildHasParent(k: Kernel, at: Paths, p: seq<nat>, i: nat)
    requires forall x | x in at :: PathOk(k, at, x)
    ensures p + [i] in at ==> p in at
  {
    assert p + [i] in at ==> PathOk(k, at, p + [i]);
    assert (p + [i])[..|p|] == p;
  }

  /** Frame `n` may be hung at entry `i` of the table at `p`: as a new empty table, or as a page. */
  ghost predicate CanHang(m: Mem, k: Kernel, at: Paths, p: seq<nat>, i: nat, n: nat, e: Pte) {
    && KernelOk(m, k) && Tree(m, k, at)
    && p in at && |p| < 4 && i < 512 && Private(k, p + [i])
    && n !in at.Values && n !in k.frames
    && (|p| < 3 ==> p + [i] !in at && Get(m, n) == ZeroTable())
    && e == if |p| < 3 then TableEntry(n) else LeafEntry(n, e.writable)
  }

  lemma Hang(m: Mem, k: Kernel, at: Paths, p: seq<nat>, i: nat, n: nat, e: Pte)
    requires CanHang(m, k, at, p, i, n, e)
    ensures var m' := SetEntry(m, at[p], i, e); KernelOk(m', k) && Tree(m', k, at[p + [i] := n])
  {
    var q, m' := p + [i], SetEntry(m, at[p], i, e);
    var at' := at[q := n];
    assert at[p] in at.Values;
    KernelReads(m, m', k);
    forall x | x in at' ensures PathOk(k, at', x) {
      assert x == q || PathOk(k, at, x);
      assert q[..|q| - 1] == p;
    }
    forall x, j | x in at' && |x| < 4 && 0 <= j < 512 ensures SlotOk(m', k, at', x, j) {
      HangSlot(m, k, at, p, i, n, e, x, j);
    }
    forall v | v in at'.Values ensures v !in k.frames {
      assert v == n || v in at.Values;
    }
    forall x | x in at ensures at[x] != n { assert at[x] in at.Values; }
  }

  lemma HangSlot(m: Mem, k: Kernel, at: Paths, p: seq<nat>, i: nat, n: nat, e: Pte, x: seq<nat>, j: nat)
    requires CanHang(m, k, at, p, i, n, e)
    requires (x in at || x == p + [i]) && |x| < 4 && j < 512
    ensures SlotOk(SetEntry(m, at[p], i, e), k, at[p + [i] := n], x, j)
  {
    hide KernelOk;
    if x == p + [i] {
      HangChild(m, k, at, p, i, n, e, j);
    } else {
      HangOther(m, k, at, p, i, n, e, x, j);
    }
  }

  /** A new table is empty. */
  lemma HangChild(m: Mem, k: Kernel, at: Paths, p: seq<nat>, i: nat, n: nat, e: Pte, j: nat)
    requires CanHang(m, k, at, p, i, n, e) && |p| < 3 && j < 512
    ensures SlotOk(SetEntry(m, at[p], i, e), k, at[p + [i] := n], p + [i], j)
  {
    hide KernelOk;
    var q := p + [i];
    assert at[p] in at.Values;
    ChildHasParent(k, at, q, j);
    assert (q + [j])[0] == q[0] && (|q| > 1 ==> (q + [j])[1] == q[1]);
    if q == [0] { AbsentPdpt(m, k, at); }
  }

  /** Every other entry is as it was. */
  lemma HangOther(m: Mem, k: Kernel, at: Paths, p: seq<nat>, i: nat, n: nat, e: Pte, x: seq<nat>, j: nat)
    requires CanHang(m, k, at, p, i, n, e) && x in at && x != p + [i] && |x| < 4 && j < 512
    ensures SlotOk(SetEntry(m, at[p], i, e), k, at[p + [i] := n], x, j)
  {
    hide KernelOk;
    var q := p + [i];
    assert at[p] in at.Values && at[x] in at.Values;
    assert SlotOk(m, k, at, x, j);
    if x + [j] == q {
      assert x == (x + [j])[..|x|] == q[..|p|] == p;
    }
  }

  /** A new empty table is seen by no walk; a new page is seen at its own addresses only. */
  lemma HangWalks(m: Mem, k: Kernel, at: Paths, p: seq<nat>, i: nat, n: nat, e: Pte, va: nat)
    requires CanHang(m, k, at, p, i, n, e)
    ensures Translate(SetEntry(m, at[p], i, e), at[[]], va) ==
            if |p| == 3 && Path(va) == p + [i] then Some(Leaf(n, va % PAGE_SIZE, e.writable, true))
            else Translate(m, at[[]], va)
  {
    hide Index, KernelOk, Tree, Walk;
    var m' := SetEntry(m, at[p], i, e);
    RootAt(m, k, at);
    if p + [i] <= Path(va) {
      if p == [] { assert p + [i] == [0]; }
      HangUser(m, k, at, p, i, va);
      HangOnPath(m, k, at, p, i, n, e, va);
    } else {
      assert at[p] in at.Values && Path(va)[..0] == [];
      assert Agree(m, m', at.Values - {at[p]} + k.frames) by { NotKernels(m, k, at, p); }
      WalkOffPath(m, m', k, at, p, i, [], va, true, true);
    }
  }

  lemma RootAt(m: Mem, k: Kernel, at: Paths)
    requires Tree(m, k, at)
    ensures [] in at
  {
  }

  lemma NotKernels(m: Mem, k: Kernel, at: Paths, p: seq<nat>)
    requires Tree(m, k, at) && p in at
    ensures at[p] !in k.frames
  {
    assert at[p] in at.Values;
  }

  lemma HangUser(m: Mem, k: Kernel, at: Paths, p: seq<nat>, i: nat, va: nat)
    requires KernelOk(m, k) && Tree(m, k, at) && p in at && |p| < 4 && i < 512 && Private(k, p + [i])
    requires (|p| == 0 ==> [0] !in at) && p + [i] <= Path(va)
    ensures UserVa(k, va)
  {
    hide Index, KernelOk, Tree;
    var q := p + [i];
    assert Path(va)[0] == q[0];
    if |q| == 1 { AbsentPdpt(m, k, at); } else { assert Path(va)[1] == q[1]; }
  }

  lemma HangOnPath(m: Mem, k: Kernel, at: Paths, p: seq<nat>, i: nat, n: nat, e: Pte, va: nat)
    requires CanHang(m, k, at, p, i, n, e) && [] in at && p + [i] <= Path(va) && UserVa(k, va)
    ensures Translate(SetEntry(m, at[p], i, e), at[[]], va) ==
            if |p| == 3 then Some(Leaf(n, va % PAGE_SIZE, e.writable, true)) else Translate(m, at[[]], va)
  {
    hide Index, KernelOk, Tree, Translate, UserVa;
    var q, m' := p + [i], SetEntry(m, at[p], i, e);
    assert p == Path(va)[..|p|] && Index(va, |p|) == i;
    WalkOnPath(m, k, at, p, va);
    Hang(m, k, at, p, i, n, e);
    assert at[q := n][[]] == at[[]] && at[q := n][p] == at[p];
    WalkOnPath(m', k, at[q := n], p, va);
    EntryAbsent(m, k, at, p, i);
    assert Get(m', at[p])[i] == e;
    if |p| < 3 {
      assert Get(m', n) == ZeroTable() by { assert at[p] in at.Values; }
    }
  }

  lemma EntryAbsent(m: Mem, k: Kernel, at: Paths, p: seq<nat>, i: nat)
    requires Tree(m, k, at) && p in at && |p| < 4 && i < 512 && Private(k, p + [i])
    ensures p + [i] !in at ==> !Get(m, at[p])[i].present
  {
    assert SlotOk(m, k, at, p, i);
  }

  lemma AbsentPdpt(m: Mem, k: Kernel, at: Paths)
    requires KernelOk(m, k) && Tree(m, k, at) && [0] !in at
    ensures forall i | 0 <= i < 512 :: !k.pdpt[i].present
  {
  }

  /** Clearing a page's entry keeps the shape ... */
  lemma Unhang(m: Mem, k: Kernel, at: Paths, p: seq<nat>, i: nat)
    requires KernelOk(m, k) && Tree(m, k, at)
    requires p in at && |p| == 3 && i < 512 && p + [i] in at
    ensures var m' := SetEntry(m, at[p], i, UNUSED); KernelOk(m', k) && Tree(m', k, at - {p + [i]})
  {
    var q, m' := p + [i], SetEntry(m, at[p], i, UNUSED);
    var at' := at - {q};
    assert at[p] in at.Values;
    KernelReads(m, m', k);
    forall x | x in at' ensures PathOk(k, at', x) && at'[x] in at.Values {
      assert PathOk(k, at, x);
      assert at[x] in at.Values;
    }
    forall x, j | x in at' && |x| < 4 && 0 <= j < 512 ensures SlotOk(m', k, at', x, j) {
      UnhangSlot(m, k, at, p, i, x, j);
    }
  }

  lemma UnhangSlot(m: Mem, k: Kernel, at: Paths, p: seq<nat>, i: nat, x: seq<nat>, j: nat)
    requires Tree(m, k, at)
    requires p in at && |p| == 3 && i < 512 && p + [i] in at
    requires x in at && |x| < 4 && j < 512
    ensures SlotOk(SetEntry(m, at[p], i, UNUSED), k, at - {p + [i]}, x, j)
  {
    assert SlotOk(m, k, at, x, j) && PathOk(k, at, p + [i]);
    UnhangEntry(m, k, at, p, i, x, j);
  }

  lemma UnhangEntry(m: Mem, k: Kernel, at: Paths, p: seq<nat>, i: nat, x: seq<nat>, j: nat)
    requires p in at && |p| == 3 && i < 512 && Private(k, p + [i])
    requires x in at && |x| < 4 && j < 512 && (at[x] == at[p] ==> x == p) && SlotOk(m, k, at, x, j)
    ensures SlotOk(SetEntry(m, at[p], i, UNUSED), k, at - {p + [i]}, x, j)
  {
    var q := p + [i];
    if x + [j] == q {
      assert x == (x + [j])[..|x|] == q[..|p|] == p;
    } else {
      assert at[x] == at[p] ==> i != j;
    }
  }

  /** ... and removes exactly that page from every walk. */
  lemma UnhangWalks(m: Mem, k: Kernel, at: Paths, p: seq<nat>, i: nat, va: nat)
    requires KernelOk(m, k) && Tree(m, k, at)
    requires p in at && |p| == 3 && i < 512 && p + [i] in at
    ensures Translate(SetEntry(m, at[p], i, UNUSED), at[[]], va)
         == if Path(va) == p + [i] then None else Translate(m, at[[]], va)
  {
    var q, m' := p + [i], SetEntry(m, at[p], i, UNUSED);
    assert at[p] in at.Values;
    if Path(va) == q {
      assert PathOk(k, at, q) && p == Path(va)[..3];
      Unhang(m, k, at, p, i);
      WalkOnPath(m', k, at - {q}, p, va);
    } else {
      assert q <= Path(va) ==> q == Path(va);
      WalkOffPath(m, m', k, at, p, i, [], va, true, true);
    }
  }
}
