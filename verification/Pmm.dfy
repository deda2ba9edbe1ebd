/** The physical memory manager: a bitmap over the identity-mapped window. */
module PhysicalMemory {
  import opened Wrappers
  import opened Paging
  import opened UserPages

  const PMM_FRAMES: nat := 130560
  const BITMAP_WORDS: nat := 2040
  const MAX_REGIONS: nat := 64

  /** One 64-bit word of the bitmap, lowest bit first; a set bit is a used frame. */
  type Word = w: seq<bool> | |w| == 64 witness seq(64, i => true)

  datatype Region = Region(start: nat, end: nat, usable: bool)

  function FrameNumber(addr: nat): nat
    requires addr >= PMM_BASE
  {
    (addr - PMM_BASE) / PAGE_SIZE
  }

  function FrameAddr(n: nat): nat {
    PMM_BASE + n * PAGE_SIZE
  }

  lemma FrameRoundTrip(n: nat)
    requires n < PMM_FRAMES
    ensures IsFrame(FrameAddr(n)) && FrameNumber(FrameAddr(n)) == n
  {
  }

  lemma AddrRoundTrip(addr: nat)
    requires IsFrame(addr)
    ensures FrameNumber(addr) < PMM_FRAMES && FrameAddr(FrameNumber(addr)) == addr
  {
  }

  /** The frames of the pool in a region, up to an address. */
  ghost function FramesBelow(region: Region, addr: nat): set<nat> {
    set a: nat | PMM_BASE <= a < PMM_END && IsFrame(a) && region.start <= a < region.end && a < addr
  }

  lemma FramesNone(region: Region, addr: nat)
    requires addr < (if region.start < PMM_BASE then PMM_BASE else region.start) + PAGE_SIZE && addr % PAGE_SIZE == 0
    ensures FramesBelow(region, addr) == {}
  {
  }

  lemma FramesStep(region: Region, addr: nat)
    requires IsFrame(addr) && region.start <= addr < region.end
    ensures FramesBelow(region, addr + PAGE_SIZE) == FramesBelow(region, addr) + {addr}
  {
  }

  lemma FramesAll(region: Region, addr: nat)
    requires addr >= (if region.end > PMM_END then PMM_END else region.end)
    ensures FramesBelow(region, addr) ==
      set a: nat | PMM_BASE <= a < PMM_END && IsFrame(a) && region.start <= a < region.end
  {
  }

  class Pmm {
    const bitmap: array<Word>

    ghost predicate Valid()
      reads this
    {
      bitmap.Length == BITMAP_WORDS
    }

    /** Bit of frame number `n`. */
    ghost predicate Used(n: nat)
      requires Valid() && n < PMM_FRAMES
      reads this, bitmap
    {
      bitmap[n / 64][n % 64]
    }

    ghost function Free(): set<nat>
      requires Valid()
      reads this, bitmap
    {
      set n | 0 <= n < PMM_FRAMES && !Used(n) :: FrameAddr(n)
    }

    constructor ()
      ensures Valid() && fresh(bitmap) && Free() == {}
    {
      bitmap := new Word[BITMAP_WORDS](_ => seq(64, i => true));
      new;
      assert forall n | 0 <= n < PMM_FRAMES :: Used(n);
    }

    lemma FreeIff(addr: nat)
      requires Valid()
      ensures addr in Free() <==> IsFrame(addr) && !Used(FrameNumber(addr))
    {
    }

    /** Position of the lowest clear bit, or 64 when the word is all ones. */
    static method LowestClear(w: Word) returns (b: nat)
      ensures b <= 64 && (forall i | 0 <= i < b :: w[i]) && (b < 64 ==> !w[b])
    {
      b := 0;
      while b < 64 && w[b]
        invariant b <= 64 && forall i | 0 <= i < b :: w[i]
      {
        b := b + 1;
      }
    }

    /** Sets or clears one bit; the pool changes by exactly that frame. */
    method SetBit(n: nat, used: bool)
      requires Valid() && n < PMM_FRAMES
      modifies bitmap
      ensures forall m: nat | m < PMM_FRAMES :: Used(m) == if m == n then used else old(Used(m))
      ensures Free() == if used then old(Free()) - {FrameAddr(n)} else old(Free()) + {FrameAddr(n)}
    {
      bitmap[n / 64] := bitmap[n / 64][n % 64 := used];
      assert forall m: nat | m < PMM_FRAMES && m != n :: m / 64 != n / 64 || m % 64 != n % 64;
      forall a: nat ensures a in Free() <==> if a == FrameAddr(n) then !used else a in old(Free()) {
        FreeIff(a);
        OldFreeIff(a);
        FrameRoundTrip(n);
        if IsFrame(a) { AddrRoundTrip(a); }
      }
    }

    twostate lemma OldFreeIff(addr: nat)
      requires old(Valid())
      ensures addr in old(Free()) <==> IsFrame(addr) && !old(Used(FrameNumber(addr)))
    {
      if addr in old(Free()) {
        var n :| 0 <= n < PMM_FRAMES && !old(Used(n)) && FrameAddr(n) == addr;
        FrameRoundTrip(n);
      }
      if IsFrame(addr) { AddrRoundTrip(addr); }
    }

    /** Hands out the lowest free frame, and fails only when there is none. */
    method AllocFrame() returns (r: Option<nat>)
      requires Valid()
      modifies bitmap
      ensures old(Free()) == {} ==> r == None && Free() == {}
      ensures old(Free()) != {} ==> r == Some(Lowest(old(Free()))) && Free() == old(Free()) - {r.value}
    {
      var i := 0;
      while i < BITMAP_WORDS
        invariant 0 <= i <= BITMAP_WORDS
        invariant forall n: nat | n < 64 * i :: Used(n)
        invariant Free() == old(Free())
      {
        var b := LowestClear(bitmap[i]);
        if b < 64 {
          var n := i * 64 + b;
          assert forall m: nat | m < n :: Used(m) by {
            forall m: nat | m < n ensures Used(m) {
              if m >= 64 * i { assert m / 64 == i && m % 64 == m - 64 * i; }
            }
          }
          assert !Used(n);
          LowestIs(n);
          SetBit(n, true);
          return Some(FrameAddr(n));
        }
        forall n: nat | n < 64 * (i + 1) ensures Used(n) {
          if n >= 64 * i { assert n / 64 == i; }
        }
        i := i + 1;
      }
      assert Free() == {};
      r := None;
    }

    lemma LowestIs(n: nat)
      requires Valid() && n < PMM_FRAMES && !Used(n) && forall m: nat | m < n :: Used(m)
      ensures FrameAddr(n) in Free() && Lowest(Free()) == FrameAddr(n)
    {
    }

    /** Returns a frame; a frame outside the window or already free is refused. */
    method Release(addr: nat) returns (ok: bool)
      requires Valid()
      modifies bitmap
      ensures ok <==> IsFrame(addr) && addr !in old(Free())
      ensures Free() == FreeFrame(old(Free()), addr)
    {
      FreeIff(addr);
      if !(PMM_BASE <= addr < PMM_END) || addr % 0x1000 != 0 {
        return false;
      }
      AddrRoundTrip(addr);
      var n := FrameNumber(addr);
      if !bitmap[n / 64][n % 64] {
        assert old(Free()) + {addr} == old(Free());
        return false;
      }
      SetBit(n, false);
      ok := true;
    }

    /** Frames that start inside a usable region, clipped to the window and rounded up to a frame. */
    static predicate Listed(regions: seq<Region>, addr: nat) {
      exists i :: 0 <= i < |regions| && regions[i].usable && regions[i].start <= addr < regions[i].end
    }

    /** Boot: everything is used, then the frames of the usable regions among the first 64 are released. */
    method Init(regions: seq<Region>)
      requires Valid()
      modifies bitmap
      ensures Free() == set a: nat | PMM_BASE <= a < PMM_END && IsFrame(a) && Listed(Take(regions), a)
    {
      forall i | 0 <= i < bitmap.Length { bitmap[i] := seq(64, j => true); }
      assert forall n: nat | n < PMM_FRAMES :: Used(n);
      assert Free() == {};
      var kept := Take(regions);
      var i := 0;
      while i < |kept|
        invariant 0 <= i <= |kept|
        invariant Free() == set a: nat | PMM_BASE <= a < PMM_END && IsFrame(a) && Listed(kept[..i], a)
      {
        if kept[i].usable {
          ReleaseRegion(kept[i]);
        }
        ListedNext(kept, i);
        i := i + 1;
      }
      assert kept[..|kept|] == kept;
    }

    static function Take(regions: seq<Region>): seq<Region> {
      if |regions| <= MAX_REGIONS then regions else regions[..MAX_REGIONS]
    }

    static lemma ListedNext(regions: seq<Region>, i: nat)
      requires i < |regions|
      ensures forall a: nat :: Listed(regions[..i + 1], a) <==>
        Listed(regions[..i], a) || (regions[i].usable && regions[i].start <= a < regions[i].end)
    {
    }

    method ReleaseRegion(region: Region)
      requires Valid()
      modifies bitmap
      ensures Free() == old(Free()) +
        set a: nat | PMM_BASE <= a < PMM_END && IsFrame(a) && region.start <= a < region.end
    {
      hide Free, FramesBelow;
      var lo := if region.start < PMM_BASE then PMM_BASE else region.start;
      var hi := if region.end > PMM_END then PMM_END else region.end;
      var addr := (lo + PAGE_SIZE - 1) / PAGE_SIZE * PAGE_SIZE;
      ghost var first := addr;
      FramesNone(region, addr);
      while addr < hi
        invariant addr % PAGE_SIZE == 0 && first <= addr && lo <= first < lo + PAGE_SIZE
        invariant Free() == old(Free()) + FramesBelow(region, addr)
      {
        AddrRoundTrip(addr);
        FramesStep(region, addr);
        SetBit(FrameNumber(addr), false);
        addr := addr + PAGE_SIZE;
      }
      FramesAll(region, addr);
    }

    /** The free bytes reported are those of the free frames. */
    method FreeMemory() returns (bytes: nat)
      requires Valid()
      ensures bytes == |Free()| * PAGE_SIZE
    {
      var count, n := 0, 0;
      ghost var seen: set<nat> := {};
      while n < PMM_FRAMES
        invariant 0 <= n <= PMM_FRAMES && count == |seen|
        invariant seen == set m | 0 <= m < n && !Used(m) :: FrameAddr(m)
      {
        if !bitmap[n / 64][n % 64] {
          assert FrameAddr(n) !in seen;
          seen := seen + {FrameAddr(n)};
          count := count + 1;
        }
        n := n + 1;
      }
      bytes := count * PAGE_SIZE;
    }
  }
}
