/** Virtual memory areas: cutting a range out of them, and finding a free range between them. */
module Vmas {
  import opened Wrappers
  import opened Paging

  const MMAP_BASE_START: nat := 0x6000_0000
  const MMAP_BASE_END: nat := 0x7F00_0000

  datatype VmArea = VmArea(start: nat, size: nat, prot: nat, flags: nat, guard: bool, name: string,
                           populated: map<nat, nat>)
  {
    function End(): nat { start + size }

    predicate Contains(a: nat) { start <= a < End() }

    predicate Overlaps(s: nat, n: nat) { !(s + n <= start || s >= End()) }

    /** PROT_WRITE is bit 1. */
    predicate IsWritable() { prot / 2 % 2 == 1 }

    ghost predicate WellFormed() {
      && start % PAGE_SIZE == 0 && size > 0 && size % PAGE_SIZE == 0
      && forall p | p in populated :: Contains(p) && p % PAGE_SIZE == 0
    }
  }

  function AlignUp(a: nat): (r: nat)
    ensures r % PAGE_SIZE == 0 && a <= r < a + PAGE_SIZE
  {
    (a + PAGE_SIZE - 1) / PAGE_SIZE * PAGE_SIZE
  }

  function AlignDown(a: nat): (r: nat)
    ensures r % PAGE_SIZE == 0 && r <= a < r + PAGE_SIZE
  {
    a / PAGE_SIZE * PAGE_SIZE
  }

  ghost predicate Apart(v: VmArea, w: VmArea) {
    v.End() <= w.start || w.End() <= v.start
  }

  ghost predicate AllWell(vs: seq<VmArea>) {
    forall i | 0 <= i < |vs| :: vs[i].WellFormed()
  }

  /** Page-aligned, non-empty, pairwise disjoint areas. */
  ghost predicate AreasOk(vs: seq<VmArea>) {
    && AllWell(vs)
    && (forall i, j | 0 <= i < j < |vs| :: Apart(vs[i], vs[j]))
  }

  /** What an address is promised: protection, flags, guard bit and name. */
  datatype Attrs = Attrs(prot: nat, flags: nat, guard: bool, name: string)

  function AttrsOf(v: VmArea): Attrs {
    Attrs(v.prot, v.flags, v.guard, v.name)
  }

  ghost predicate Covers(vs: seq<VmArea>, a: nat, t: Attrs) {
    exists i :: 0 <= i < |vs| && vs[i].Contains(a) && AttrsOf(vs[i]) == t
  }

  const PROT_NONE: nat := 0
  const PROT_READ: nat := 1
  const PROT_WRITE: nat := 2
  const PROT_EXEC: nat := 4

  /** Among the three bits, the combinations that include PROT_WRITE. */
  ghost predicate Writes(prot: nat) {
    prot % 8 in {PROT_WRITE, PROT_WRITE + PROT_READ, PROT_WRITE + PROT_EXEC, PROT_WRITE + PROT_READ + PROT_EXEC}
  }

  lemma WriteBit(v: VmArea)
    ensures v.IsWritable() <==> Writes(v.prot)
  {
  }

  /** What backs a page: a frame, and the rights to it. */
  datatype Backing = Backing(frame: nat, writable: bool, user: bool)

  /** The area records the page with this frame, and its bits say these rights. */
  ghost predicate Records(v: VmArea, p: nat, f: Backing) {
    p in v.populated && v.populated[p] == f.frame && (f.writable <==> Writes(v.prot)) && f.user
  }

  ghost predicate Populates(vs: seq<VmArea>, p: nat, f: Backing) {
    exists i :: 0 <= i < |vs| && Records(vs[i], p, f)
  }

  // ----- munmap -----

  function KeysOutside(m: map<nat, nat>, lo: nat, hi: nat): map<nat, nat> {
    map p | p in m && !(lo <= p < hi) :: m[p]
  }

  function KeysInside(m: map<nat, nat>, lo: nat, hi: nat): map<nat, nat> {
    map p | p in m && lo <= p < hi :: m[p]
  }

  /** What one turn of the second loop of `munmap` leaves of an area: remove, trim left, trim right or split. */
  function Cut(v: VmArea, lo: nat, hi: nat): seq<VmArea>
    requires lo <= hi
  {
    var kept := KeysOutside(v.populated, lo, hi);
    if !v.Overlaps(lo, hi - lo) then [v]
    else if lo <= v.start && hi >= v.End() then []
    else if lo <= v.start then [v.(start := hi, size := v.End() - hi, populated := kept)]
    else if hi >= v.End() then [v.(size := lo - v.start, populated := kept)]
    else [v.(size := lo - v.start, populated := KeysOutside(kept, hi, v.End())),
          v.(start := hi, size := v.End() - hi, populated := KeysInside(kept, hi, v.End()))]
  }

  function CutAll(vs: seq<VmArea>, lo: nat, hi: nat): seq<VmArea>
    requires lo <= hi
  {
    if vs == [] then [] else Cut(vs[0], lo, hi) + CutAll(vs[1..], lo, hi)
  }

  ghost predicate ApartFromAll(v: VmArea, vs: seq<VmArea>) {
    forall i | 0 <= i < |vs| :: Apart(v, vs[i])
  }

  /** `vs` describes exactly the old addresses and pages outside the range. */
  ghost predicate Subtracts(before: seq<VmArea>, vs: seq<VmArea>, lo: nat, hi: nat) {
    && (forall a: nat, t :: Covers(vs, a, t) <==> Covers(before, a, t) && !(lo <= a < hi))
    && (forall p: nat, f: Backing :: Populates(vs, p, f) <==> Populates(before, p, f) && !(lo <= p < hi))
  }

  lemma CutShape(v: VmArea, lo: nat, hi: nat)
    requires v.WellFormed() && lo < hi && lo % PAGE_SIZE == 0 && hi % PAGE_SIZE == 0
    ensures AreasOk(Cut(v, lo, hi))
  {
    AlignedSum(v.start, v.size);
    if v.Overlaps(lo, hi - lo) {
      if lo > v.start { AlignedGap(v.start, lo); }
      if hi < v.End() { AlignedGap(hi, v.End()); }
    }
  }

  lemma AlignedSum(a: nat, b: nat)
    requires a % PAGE_SIZE == 0 && b % PAGE_SIZE == 0
    ensures (a + b) % PAGE_SIZE == 0
  {
  }

  lemma AlignedGap(a: nat, b: nat)
    requires a % PAGE_SIZE == 0 && b % PAGE_SIZE == 0 && a <= b
    ensures (b - a) % PAGE_SIZE == 0
  {
  }

  lemma CutApart(v: VmArea, lo: nat, hi: nat, w: VmArea)
    requires lo < hi && Apart(w, v)
    ensures ApartFromAll(w, Cut(v, lo, hi))
  {
  }

  lemma CutCovers(v: VmArea, lo: nat, hi: nat, a: nat, t: Attrs)
    requires v.WellFormed() && lo < hi
    ensures Covers(Cut(v, lo, hi), a, t) <==> Covers([v], a, t) && !(lo <= a < hi)
  {
    var c := Cut(v, lo, hi);
    assert Covers([v], a, t) <==> [v][0].Contains(a) && AttrsOf(v) == t;
    assert |c| > 0 ==> c[0].Contains(a) && AttrsOf(c[0]) == t ==> Covers(c, a, t);
    assert |c| > 1 ==> c[1].Contains(a) && AttrsOf(c[1]) == t ==> Covers(c, a, t);
  }

  lemma CutPopulates(v: VmArea, lo: nat, hi: nat, p: nat, f: Backing)
    requires v.WellFormed() && lo < hi
    ensures Populates(Cut(v, lo, hi), p, f) <==> Populates([v], p, f) && !(lo <= p < hi)
  {
    var c := Cut(v, lo, hi);
    assert Populates([v], p, f) <==> Records([v][0], p, f);
    assert |c| > 0 ==> Records(c[0], p, f) ==> Populates(c, p, f);
    assert |c| > 1 ==> Records(c[1], p, f) ==> Populates(c, p, f);
  }

  lemma CoversAppend(vs: seq<VmArea>, ws: seq<VmArea>, a: nat, t: Attrs)
    ensures Covers(vs + ws, a, t) <==> Covers(vs, a, t) || Covers(ws, a, t)
  {
    var u := vs + ws;
    assert forall i | 0 <= i < |vs| :: vs[i] == u[i];
    assert forall i | 0 <= i < |ws| :: ws[i] == u[|vs| + i];
  }

  lemma PopulatesAppend(vs: seq<VmArea>, ws: seq<VmArea>, p: nat, f: Backing)
    ensures Populates(vs + ws, p, f) <==> Populates(vs, p, f) || Populates(ws, p, f)
  {
    var u := vs + ws;
    assert forall i | 0 <= i < |vs| :: vs[i] == u[i];
    assert forall i | 0 <= i < |ws| :: ws[i] == u[|vs| + i];
  }

  /** Cutting keeps areas well formed, and every address and page outside the range keeps exactly what it had. */
  lemma {:induction false} CutAllSubtracts(vs: seq<VmArea>, lo: nat, hi: nat)
    requires AllWell(vs) && lo < hi && lo % PAGE_SIZE == 0 && hi % PAGE_SIZE == 0
    ensures AllWell(CutAll(vs, lo, hi)) && Subtracts(vs, CutAll(vs, lo, hi), lo, hi)
  {
    hide Cut;
    if vs != [] {
      CutAllSubtracts(vs[1..], lo, hi);
      CutShape(vs[0], lo, hi);
      var v, c := [vs[0]], Cut(vs[0], lo, hi);
      assert vs == v + vs[1..];
      forall a: nat, t ensures Covers(CutAll(vs, lo, hi), a, t) <==> Covers(vs, a, t) && !(lo <= a < hi) {
        CutCovers(vs[0], lo, hi, a, t);
        CoversAppend(v, vs[1..], a, t);
        CoversAppend(c, CutAll(vs[1..], lo, hi), a, t);
      }
      forall p: nat, f: Backing
        ensures Populates(CutAll(vs, lo, hi), p, f) <==> Populates(vs, p, f) && !(lo <= p < hi)
      {
        CutPopulates(vs[0], lo, hi, p, f);
        PopulatesAppend(v, vs[1..], p, f);
        PopulatesAppend(c, CutAll(vs[1..], lo, hi), p, f);
      }
    }
  }

  /** `munmap` subtracts the range: the areas left are well-formed and disjoint, and every address and page outside the
      range keeps exactly what it had. */
  lemma CutAllOk(vs: seq<VmArea>, lo: nat, hi: nat)
    requires AreasOk(vs) && lo < hi && lo % PAGE_SIZE == 0 && hi % PAGE_SIZE == 0
    ensures AreasOk(CutAll(vs, lo, hi)) && Subtracts(vs, CutAll(vs, lo, hi), lo, hi)
  {
    CutAllSubtracts(vs, lo, hi);
    CutAllApart(vs, lo, hi);
  }

  lemma {:induction false} CutAllApart(vs: seq<VmArea>, lo: nat, hi: nat)
    requires AreasOk(vs) && lo < hi && lo % PAGE_SIZE == 0 && hi % PAGE_SIZE == 0
    ensures AreasOk(CutAll(vs, lo, hi))
    ensures forall w | ApartFromAll(w, vs) :: ApartFromAll(w, CutAll(vs, lo, hi))
  {
    hide Cut;
    if vs != [] {
      CutAllApart(vs[1..], lo, hi);
      CutJoin(vs, lo, hi);
    }
  }

  lemma CutJoin(vs: seq<VmArea>, lo: nat, hi: nat)
    requires vs != [] && AreasOk(vs) && lo < hi && lo % PAGE_SIZE == 0 && hi % PAGE_SIZE == 0
    requires AreasOk(CutAll(vs[1..], lo, hi))
    requires forall w | ApartFromAll(w, vs[1..]) :: ApartFromAll(w, CutAll(vs[1..], lo, hi))
    ensures AreasOk(CutAll(vs, lo, hi))
    ensures forall w | ApartFromAll(w, vs) :: ApartFromAll(w, CutAll(vs, lo, hi))
  {
    hide Cut;
    var c, r := Cut(vs[0], lo, hi), CutAll(vs[1..], lo, hi);
    CutShape(vs[0], lo, hi);
    assert CutAll(vs, lo, hi) == c + r;
    forall i, j | 0 <= i < |c| && 0 <= j < |r| ensures Apart(c[i], r[j]) {
      assert ApartFromAll(vs[0], vs[1..]);
      assert Apart(r[j], vs[0]);
      CutApart(vs[0], lo, hi, r[j]);
    }
    forall w | ApartFromAll(w, vs) ensures ApartFromAll(w, c + r) {
      CutApart(vs[0], lo, hi, w);
      assert ApartFromAll(w, vs[1..]);
    }
  }

  lemma {:induction false} CutAllAppend(vs: seq<VmArea>, v: VmArea, lo: nat, hi: nat)
    requires lo <= hi
    ensures CutAll(vs + [v], lo, hi) == CutAll(vs, lo, hi) + Cut(v, lo, hi)
  {
    hide Cut;
    if vs != [] {
      CutAllAppend(vs[1..], v, lo, hi);
      assert (vs + [v])[1..] == vs[1..] + [v];
    }
  }

  // ----- The search of mmap -----

  ghost predicate RangeFree(vs: seq<VmArea>, c: nat, len: nat) {
    forall i | 0 <= i < |vs| :: !vs[i].Overlaps(c, len)
  }

  /** The end, rounded up, of the first listed area in the way of the candidate. */
  function Conflict(vs: seq<VmArea>, c: nat, len: nat): (r: Option<nat>)
    ensures r == None <==> RangeFree(vs, c, len)
    ensures r.Some? ==> exists i :: 0 <= i < |vs| && vs[i].Overlaps(c, len) && r.value == AlignUp(vs[i].End())
  {
    if vs == [] then None
    else if vs[0].Overlaps(c, len) then Some(AlignUp(vs[0].End()))
    else Conflict(vs[1..], c, len)
  }

  /** The search loop of `mmap`: step past each conflicting area, up to the limit. */
  function FirstFit(vs: seq<VmArea>, c: nat, len: nat): Option<nat>
    decreases MMAP_BASE_END - c
  {
    if c + len > MMAP_BASE_END then None
    else match Conflict(vs, c, len)
      case None => Some(c)
      case Some(next) => FirstFit(vs, next, len)
  }

  /** No address below the end of a conflicting area can do either. */
  lemma StepIsSafe(v: VmArea, c: nat, len: nat, x: nat)
    requires v.Overlaps(c, len) && c <= x < AlignUp(v.End()) && x % PAGE_SIZE == 0
    ensures v.Overlaps(x, len)
  {
    assert x < v.End();
  }

  /** The search is a complete first fit: it returns the lowest page-aligned free range at or above its start and below
      the limit, and nothing only when there is none. */
  lemma {:induction false} FirstFitOk(vs: seq<VmArea>, c: nat, len: nat)
    requires c % PAGE_SIZE == 0
    ensures match FirstFit(vs, c, len)
      case Some(r) =>
        && c <= r && r % PAGE_SIZE == 0 && r + len <= MMAP_BASE_END && RangeFree(vs, r, len)
        && forall x | c <= x < r && x % PAGE_SIZE == 0 :: !RangeFree(vs, x, len)
      case None =>
        forall x | c <= x && x + len <= MMAP_BASE_END && x % PAGE_SIZE == 0 :: !RangeFree(vs, x, len)
    decreases MMAP_BASE_END - c
  {
    if c + len <= MMAP_BASE_END && Conflict(vs, c, len).Some? {
      var next := Conflict(vs, c, len).value;
      var i :| 0 <= i < |vs| && vs[i].Overlaps(c, len) && next == AlignUp(vs[i].End());
      forall x | c <= x < next && x % PAGE_SIZE == 0 ensures !RangeFree(vs, x, len) {
        StepIsSafe(vs[i], c, len, x);
      }
      FirstFitOk(vs, next, len);
    }
  }
}
