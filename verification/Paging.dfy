/** Four-level page tables: entries, tables in physical memory and the hardware walk. */
module Paging {
  import opened Wrappers

  const PAGE_SIZE: nat := 4096
  const PHYS_LIMIT: nat := 0x10_0000_0000_0000   // 52 physical address bits
  const VIRT_LIMIT: nat := 0x1_0000_0000_0000    // 48 translated virtual address bits

  /** The fields of one 64-bit entry: bits 12..51, and the flag bits. Bits the kernel never looks at are kept together
      in `other`. */
  datatype Pte = Pte(addr: nat, present: bool, writable: bool, user: bool, huge: bool, other: nat)

  const UNUSED := Pte(0, false, false, false, false, 0)

  /** The address part of `PageTableEntry::set`: only bits 12..51 survive. */
  function MaskAddr(a: nat): (r: nat)
    ensures r % PAGE_SIZE == 0 && r < PHYS_LIMIT
    ensures a % PAGE_SIZE == 0 && a < PHYS_LIMIT ==> r == a
  {
    a % PHYS_LIMIT / PAGE_SIZE * PAGE_SIZE
  }

  type Table = t: seq<Pte> | |t| == 512 witness seq(512, i => UNUSED)

  function ZeroTable(): (t: Table)
    ensures forall i | 0 <= i < 512 :: t[i] == UNUSED
  {
    seq(512, i => UNUSED)
  }

  /** Physical memory, one table-shaped value per frame; a frame never written reads as zero. */
  type Mem = map<nat, Table>

  function Get(m: Mem, f: nat): Table {
    if f in m then m[f] else ZeroTable()
  }

  function SetEntry(m: Mem, f: nat, i: nat, e: Pte): Mem
    requires i < 512
  {
    m[f := Get(m, f)[i := e]]
  }

  /** Bytes translated by one entry of a table at depth `d` (0 is the PML4). */
  function Span(d: nat): (r: nat)
    requires d < 4
    ensures r > 0
  {
    if d == 0 then 0x80_0000_0000 else if d == 1 then 0x4000_0000 else if d == 2 then 0x20_0000 else 0x1000
  }

  /** `p4_index` .. `p1_index`. */
  function Index(va: nat, d: nat): (r: nat)
    requires d < 4
    ensures r < 512
  {
    va / Span(d) % 512
  }

  /** The four indices of an address, from the PML4 down. */
  function Path(va: nat): (p: seq<nat>)
    ensures |p| == 4 && forall d | 0 <= d < 4 :: p[d] == Index(va, d) && p[d] < 512
  {
    [Index(va, 0), Index(va, 1), Index(va, 2), Index(va, 3)]
  }

  /** What the processor finds: a frame, an offset in it, and the rights that every level grants. */
  datatype Leaf = Leaf(base: nat, offset: nat, writable: bool, user: bool)

  /** The walk of `virt_to_phys`, with the rights of section 4.6 of the Intel SDM, Volume 3A. */
  function Walk(m: Mem, f: nat, d: nat, va: nat, w: bool, u: bool): Option<Leaf>
    requires d < 4
    decreases 4 - d
  {
    var e := Get(m, f)[Index(va, d)];
    if !e.present then None
    else if d == 3 || (d > 0 && e.huge) then Some(Leaf(e.addr, va % Span(d), w && e.writable, u && e.user))
    else Walk(m, e.addr, d + 1, va, w && e.writable, u && e.user)
  }

  function Translate(m: Mem, root: nat, va: nat): Option<Leaf> {
    Walk(m, root, 0, va, true, true)
  }

  /** Entry `e` of a table at depth `d` points at another table. */
  predicate Descends(e: Pte, d: nat) {
    d < 3 && e.present && !(d > 0 && e.huge)
  }

  /** Every table reachable from `f`, a table at depth `d`, lies in `frames`. */
  ghost predicate TreeIn(m: Mem, f: nat, d: nat, frames: set<nat>)
    requires d < 4
    decreases 4 - d
  {
    && f in frames
    && forall i | 0 <= i < 512 && Descends(Get(m, f)[i], d) :: TreeIn(m, Get(m, f)[i].addr, d + 1, frames)
  }

  ghost predicate Agree(m: Mem, m': Mem, frames: set<nat>) {
    forall f | f in frames :: Get(m, f) == Get(m', f)
  }

  /** A walk depends only on the tables it can reach. */
  lemma {:induction false} WalkReadsTree(m: Mem, m': Mem, f: nat, d: nat, frames: set<nat>, va: nat, w: bool, u: bool)
    requires d < 4 && TreeIn(m, f, d, frames) && Agree(m, m', frames)
    ensures Walk(m, f, d, va, w, u) == Walk(m', f, d, va, w, u)
    decreases 4 - d
  {
    var e := Get(m, f)[Index(va, d)];
    if Descends(e, d) {
      WalkReadsTree(m, m', e.addr, d + 1, frames, va, w && e.writable, u && e.user);
    }
  }

  lemma {:induction false} TreeReadsTree(m: Mem, m': Mem, f: nat, d: nat, frames: set<nat>)
    requires d < 4 && TreeIn(m, f, d, frames) && Agree(m, m', frames)
    ensures TreeIn(m', f, d, frames)
    decreases 4 - d
  {
  }

  /** Four equal indices mean the same page. */
  lemma PathIsPage(a: nat, b: nat)
    requires a < VIRT_LIMIT && b < VIRT_LIMIT
    ensures Path(a) == Path(b) <==> a / PAGE_SIZE == b / PAGE_SIZE
  {
    PathDigits(a);
    PathDigits(b);
    if Path(a) == Path(b) {
      assert Index(a, 0) == Index(b, 0) && Index(a, 1) == Index(b, 1) &&
        Index(a, 2) == Index(b, 2) && Index(a, 3) == Index(b, 3);
    }
  }

  /** The page number is the four indices read as base-512 digits. */
  lemma PathDigits(a: nat)
    requires a < VIRT_LIMIT
    ensures a / PAGE_SIZE == ((Index(a, 0) * 512 + Index(a, 1)) * 512 + Index(a, 2)) * 512 + Index(a, 3)
    ensures forall d | 0 <= d < 4 :: Index(a, d) == Index(a / PAGE_SIZE * PAGE_SIZE, d)
  {
    var n := a / 0x1000;
    assert a / 0x20_0000 == n / 512 && a / 0x4000_0000 == n / 512 / 512 && a / 0x80_0000_0000 == n / 512 / 512 / 512;
    var b := n * 0x1000;
    assert b / 0x1000 == n && b / 0x20_0000 == n / 512 && b / 0x4000_0000 == n / 512 / 512 &&
      b / 0x80_0000_0000 == n / 512 / 512 / 512;
  }
}
