/** The kernel heap: an address-ordered free list with first fit, splitting and coalescing. */
module FreeLists {
  import opened Wrappers

  const NODE_SIZE: nat := 16
  const USIZE_MAX: nat := 0xFFFF_FFFF_FFFF_FFFF

  datatype Block = Block(start: nat, size: nat) {
    function End(): nat { start + size }
    predicate Has(x: nat) { start <= x < End() }
  }

  /** Address order without overlap. */
  ghost predicate Ordered(l: seq<Block>) {
    && (forall i | 0 <= i < |l| :: l[i].size >= NODE_SIZE)
    && (forall i, j | 0 <= i < j < |l| :: l[i].End() <= l[j].start)
  }

  /** Address order, and no two blocks overlap or touch. */
  ghost predicate Canonical(l: seq<Block>) {
    && (forall i | 0 <= i < |l| :: l[i].size >= NODE_SIZE)
    && (forall i, j | 0 <= i < j < |l| :: l[i].End() < l[j].start)
  }

  ghost predicate In(l: seq<Block>, x: nat) {
    exists i :: 0 <= i < |l| && l[i].Has(x)
  }

  function Total(l: seq<Block>): nat {
    if l == [] then 0 else l[0].size + Total(l[1..])
  }

  ghost predicate SameBytes(l: seq<Block>, r: seq<Block>) {
    forall x: nat :: In(l, x) <==> In(r, x)
  }

  lemma InCons(l: seq<Block>, x: nat)
    requires l != []
    ensures In(l, x) <==> l[0].Has(x) || In(l[1..], x)
  {
  }

  /** A canonical list is determined by the set of its bytes. */
  lemma {:induction false} CanonicalUnique(l: seq<Block>, r: seq<Block>)
    requires Canonical(l) && Canonical(r) && SameBytes(l, r)
    ensures l == r
  {
    if l != [] {
      assert In(l, l[0].start);
      assert r != [];
      FirstSame(l, r);
      forall x: nat ensures In(l[1..], x) <==> In(r[1..], x) {
        InCons(l, x);
        InCons(r, x);
        TailAway(l, x);
        TailAway(r, x);
      }
      CanonicalUnique(l[1..], r[1..]);
      assert l == [l[0]] + l[1..] && r == [r[0]] + r[1..];
    } else if r != [] {
      assert In(r, r[0].start);
    }
  }

  lemma TailAway(l: seq<Block>, x: nat)
    requires Canonical(l) && l != []
    ensures In(l[1..], x) ==> x > l[0].End()
  {
  }

  lemma FirstSame(l: seq<Block>, r: seq<Block>)
    requires Canonical(l) && Canonical(r) && SameBytes(l, r) && l != [] && r != []
    ensures l[0] == r[0]
  {
    LowestByte(l, r);
    LowestByte(r, l);
    FirstNotLonger(l, r);
    FirstNotLonger(r, l);
  }

  lemma LowestByte(l: seq<Block>, r: seq<Block>)
    requires Canonical(l) && SameBytes(l, r) && l != [] && r != [] && Canonical(r)
    ensures r[0].start <= l[0].start
  {
    assert l[0].Has(l[0].start);
    assert In(r, l[0].start);
    InCons(r, l[0].start);
    TailAway(r, l[0].start);
  }

  lemma FirstNotLonger(l: seq<Block>, r: seq<Block>)
    requires Canonical(l) && Canonical(r) && SameBytes(l, r) && l != [] && r != [] && l[0].start == r[0].start
    ensures l[0].size <= r[0].size
  {
    if l[0].size > r[0].size {
      assert l[0].Has(r[0].End());
      assert In(l, r[0].End());
      InCons(r, r[0].End());
      TailAway(r, r[0].End());
      assert false;
    }
  }

  // ----- Inserting and coalescing -----

  /** Where the insertion loop of `add_free_region` stops. */
  function Position(l: seq<Block>, b: Block): (p: nat)
    ensures p <= |l| && (forall i | 0 <= i < p :: l[i].start <= b.start) && (p < |l| ==> b.start < l[p].start)
  {
    if l == [] || b.start < l[0].start then 0 else 1 + Position(l[1..], b)
  }

  function Insert(l: seq<Block>, b: Block): seq<Block> {
    l[..Position(l, b)] + [b] + l[Position(l, b)..]
  }

  /** One pass that merges each block with the neighbours it touches. */
  function Coalesce(l: seq<Block>): seq<Block>
    decreases |l|
  {
    if |l| < 2 then l
    else if l[0].End() == l[1].start then Coalesce([Block(l[0].start, l[0].size + l[1].size)] + l[2..])
    else [l[0]] + Coalesce(l[1..])
  }

  function AddRegion(l: seq<Block>, b: Block): seq<Block> {
    if b.size < NODE_SIZE then l else Coalesce(Insert(l, b))
  }

  ghost predicate AwayFrom(l: seq<Block>, b: Block) {
    forall i | 0 <= i < |l| :: l[i].End() <= b.start || b.End() <= l[i].start
  }

  lemma InsertOrdered(l: seq<Block>, b: Block)
    requires Ordered(l) && AwayFrom(l, b) && b.size >= NODE_SIZE
    ensures Ordered(Insert(l, b))
  {
    hide Position, AwayFrom;
    var r := Insert(l, b);
    forall i | 0 <= i < |r| ensures r[i].size >= NODE_SIZE {}
    forall i, j | 0 <= i < j < |r| ensures r[i].End() <= r[j].start {
      InsertPair(l, b, i, j);
    }
  }

  lemma InsertPair(l: seq<Block>, b: Block, i: nat, j: nat)
    requires Ordered(l) && AwayFrom(l, b) && b.size >= NODE_SIZE && i < j < |Insert(l, b)|
    ensures Insert(l, b)[i].End() <= Insert(l, b)[j].start
  {
  }

  lemma InsertBytes(l: seq<Block>, b: Block)
    ensures Total(Insert(l, b)) == Total(l) + b.size
    ensures forall x: nat :: In(Insert(l, b), x) <==> In(l, x) || b.Has(x)
  {
    hide In, Position;
    var p := Position(l, b);
    var u, v := l[..p], l[p..];
    assert l == u + v;
    TotalAppend(u, v);
    TotalAppend(u + [b], v);
    TotalAppend(u, [b]);
    forall x: nat ensures In(Insert(l, b), x) <==> In(l, x) || b.Has(x) {
      InAppend(u, v, x);
      InAppend(u + [b], v, x);
      InAppend(u, [b], x);
      InOne(b, x);
    }
  }

  lemma InOne(b: Block, x: nat)
    ensures In([b], x) <==> b.Has(x)
  {
    assert [b][0] == b;
  }

  lemma InAppend(l: seq<Block>, r: seq<Block>, x: nat)
    ensures In(l + r, x) <==> In(l, x) || In(r, x)
  {
    var u := l + r;
    assert forall i | 0 <= i < |l| :: u[i] == l[i];
    assert forall i | 0 <= i < |r| :: u[|l| + i] == r[i];
  }

  lemma {:induction false} TotalAppend(l: seq<Block>, r: seq<Block>)
    ensures Total(l + r) == Total(l) + Total(r)
  {
    if l == [] {
      assert l + r == r;
    } else {
      TotalAppend(l[1..], r);
      assert (l + r)[1..] == l[1..] + r;
    }
  }

  /** Coalescing yields the canonical form of the same bytes. */
  lemma {:induction false} CoalesceOk(l: seq<Block>)
    requires Ordered(l)
    ensures Canonical(Coalesce(l)) && SameBytes(Coalesce(l), l) && Total(Coalesce(l)) == Total(l)
    ensures l != [] ==> Coalesce(l) != [] && Coalesce(l)[0].start == l[0].start
    decreases |l|
  {
    if |l| >= 2 {
      if l[0].End() == l[1].start {
        var m := [Block(l[0].start, l[0].size + l[1].size)] + l[2..];
        assert Ordered(m);
        CoalesceOk(m);
        assert m[1..] == l[2..] == l[1..][1..];
        forall x: nat ensures In(m, x) <==> In(l, x) {
          InCons(m, x);
          InCons(l, x);
          InCons(l[1..], x);
        }
      } else {
        CoalesceOk(l[1..]);
        var r := Coalesce(l[1..]);
        assert Coalesce(l)[1..] == r;
        assert l[0].End() < r[0].start;
        forall x: nat ensures In(Coalesce(l), x) <==> In(l, x) {
          InCons(Coalesce(l), x);
          InCons(l, x);
        }
      }
    }
  }

  lemma CanonicalOrdered(l: seq<Block>)
    requires Canonical(l)
    ensures Ordered(l)
  {
  }

  /** Adding a region of at least one node adds exactly its bytes and keeps the list canonical. */
  lemma AddRegionOk(l: seq<Block>, b: Block)
    requires Canonical(l) && AwayFrom(l, b) && b.size >= NODE_SIZE
    ensures var r := AddRegion(l, b);
      Canonical(r) && Total(r) == Total(l) + b.size && forall x: nat :: In(r, x) <==> In(l, x) || b.Has(x)
  {
    hide Insert, Coalesce, In, Canonical;
    CanonicalOrdered(l);
    InsertOrdered(l, b);
    InsertBytes(l, b);
    CoalesceOk(Insert(l, b));
  }

  // ----- Allocating -----

  /** `align_up`: for a power-of-two alignment the mask rounds up to a multiple. */
  function AlignUp(a: nat, align: nat): (r: nat)
    requires align > 0
    ensures r % align == 0 && a <= r < a + align
  {
    RoundUp(a, align);
    (a + align - 1) / align * align
  }

  lemma RoundUp(a: nat, align: nat)
    requires align > 0
    ensures var r := (a + align - 1) / align * align; r % align == 0 && a <= r < a + align
  {
    var q, m := (a + align - 1) / align, (a + align - 1) % align;
    assert a + align - 1 == q * align + m;
    MultipleMod(q, align);
  }

  lemma {:induction false} MultipleMod(q: nat, align: nat)
    requires align > 0
    ensures q * align % align == 0
  {
    if q > 0 {
      MultipleMod(q - 1, align);
      assert q * align == (q - 1) * align + align;
      assert ((q - 1) * align + align) % align == (q - 1) * align % align by { AddModulus((q - 1) * align, align); }
    }
  }

  lemma AddModulus(x: nat, align: nat)
    requires align > 0
    ensures (x + align) % align == x % align
  {
    var q, m := x / align, x % align;
    assert x + align == (q + 1) * align + m;
    ModUnique(x + align, align, q + 1, m);
  }

  lemma ModUnique(x: nat, d: nat, q: nat, m: nat)
    requires d > 0 && x == q * d + m && m < d
    ensures x % d == m
  {
    var q', m' := x / d, x % d;
    assert x == q' * d + m';
    if q < q' { NextMultiple(q, q', d); } else if q' < q { NextMultiple(q', q, d); }
  }

  lemma {:induction false} NextMultiple(q: nat, q': nat, d: nat)
    requires q < q'
    ensures q * d + d <= q' * d
  {
    if q + 1 < q' { NextMultiple(q, q' - 1, d); }
    assert q' * d == (q' - 1) * d + d;
  }

  /** The lowest aligned address of the block serves the request: the bytes fit below the end of the block and of the
      address range, and each piece left over is empty or can hold a node. */
  ghost predicate Serves(b: Block, size: nat, align: nat, a: nat)
    requires align > 0
  {
    && b.start <= a && a % align == 0 && (forall x | b.start <= x < a :: x % align != 0)
    && a + size <= b.start + b.size && a + size <= USIZE_MAX
    && (a == b.start || a >= b.start + NODE_SIZE)
    && (a + size == b.start + b.size || a + size + NODE_SIZE <= b.start + b.size)
  }

  /** Rounding up gives the lowest multiple. */
  lemma LowestAligned(start: nat, align: nat)
    requires align > 0
    ensures forall a: nat :: a == AlignUp(start, align) <==>
      start <= a && a % align == 0 && forall x | start <= x < a :: x % align != 0
  {
    var r := AlignUp(start, align);
    forall x | start <= x < r ensures x % align != 0 {
      if x % align == 0 {
        ModUnique(r, align, x / align, r - x);
      }
    }
    forall a: nat | start <= a && a % align == 0 && forall x | start <= x < a :: x % align != 0 ensures a == r {
    }
  }

  /** `alloc_from_region`: where the request would start in the block, if what is left over before and after is nothing
      or can hold a node. */
  function Fit(b: Block, size: nat, align: nat): (r: Option<nat>)
    requires align > 0
    ensures forall a: nat :: r == Some(a) <==> Serves(b, size, align, a)
  {
    LowestAligned(b.start, align);
    var a := AlignUp(b.start, align);
    if a + size > USIZE_MAX || a + size > b.End() then None
    else if 0 < a - b.start < NODE_SIZE then None
    else if 0 < b.End() - (a + size) < NODE_SIZE then None
    else Some(a)
  }

  /** `find_region`: the first block that fits. */
  function FirstFit(l: seq<Block>, size: nat, align: nat): (r: Option<nat>)
    requires align > 0
    ensures r.Some? ==>
      && r.value < |l| && Fit(l[r.value], size, align).Some?
      && forall i | 0 <= i < r.value :: Fit(l[i], size, align) == None
    ensures r == None ==> forall i | 0 <= i < |l| :: Fit(l[i], size, align) == None
  {
    if l == [] then None
    else if Fit(l[0], size, align).Some? then Some(0)
    else match FirstFit(l[1..], size, align) case None => None case Some(i) => Some(i + 1)
  }

  datatype Allocated = Allocated(ptr: Option<nat>, free: seq<Block>)

  function WithoutAt(l: seq<Block>, i: nat): seq<Block>
    requires i < |l|
  {
    l[..i] + l[i + 1..]
  }

  function AddIfAny(l: seq<Block>, b: Block): seq<Block> {
    if b.size > 0 then AddRegion(l, b) else l
  }

  function Alloc(l: seq<Block>, size: nat, align: nat): Allocated
    requires align > 0
  {
    match FirstFit(l, size, align)
    case None => Allocated(None, l)
    case Some(i) =>
      var b, a := l[i], Fit(l[i], size, align).value;
      var withSuffix := AddIfAny(WithoutAt(l, i), Block(a + size, b.End() - (a + size)));
      Allocated(Some(a), AddIfAny(withSuffix, Block(b.start, a - b.start)))
  }

  function Dealloc(l: seq<Block>, ptr: nat, size: nat): seq<Block> {
    AddRegion(l, Block(ptr, size))
  }

  lemma AwayIff(l: seq<Block>, b: Block)
    requires b.size > 0 && forall i | 0 <= i < |l| :: l[i].size > 0
    ensures AwayFrom(l, b) <==> forall x: nat | b.Has(x) :: !In(l, x)
  {
    if AwayFrom(l, b) {
    } else {
      var i :| 0 <= i < |l| && !(l[i].End() <= b.start || b.End() <= l[i].start);
      var x := if l[i].start < b.start then b.start else l[i].start;
      assert l[i].Has(x) && b.Has(x) && In(l, x);
    }
  }

  ghost predicate NoneOf(b: Block, l: seq<Block>) {
    forall x: nat | b.Has(x) :: !In(l, x)
  }

  lemma WithoutAtCanonical(l: seq<Block>, i: nat)
    requires Canonical(l) && i < |l|
    ensures Canonical(WithoutAt(l, i))
    ensures NoneOf(l[i], l[..i]) && NoneOf(l[i], l[i + 1..])
  {
  }

  lemma WithoutAtBytes(l: seq<Block>, i: nat)
    requires i < |l|
    requires NoneOf(l[i], l[..i]) && NoneOf(l[i], l[i + 1..])
    ensures Total(WithoutAt(l, i)) + l[i].size == Total(l)
    ensures forall x: nat :: In(WithoutAt(l, i), x) <==> In(l, x) && !l[i].Has(x)
  {
    hide In, Total;
    var u, v, b := l[..i], l[i + 1..], l[i];
    assert l == u + [b] + v;
    TotalAppend(u + [b], v);
    TotalAppend(u, [b]);
    TotalAppend(u, v);
    TotalOne(b);
    forall x: nat ensures In(WithoutAt(l, i), x) <==> In(l, x) && !b.Has(x) {
      InAppend(u + [b], v, x);
      InAppend(u, [b], x);
      InAppend(u, v, x);
      InOne(b, x);
    }
  }

  lemma TotalOne(b: Block)
    ensures Total([b]) == b.size
  {
  }

  lemma AddIfAnyOk(l: seq<Block>, b: Block)
    requires Canonical(l) && (b.size == 0 || b.size >= NODE_SIZE) && forall x: nat | b.Has(x) :: !In(l, x)
    ensures var r := AddIfAny(l, b);
      Canonical(r) && Total(r) == Total(l) + b.size && forall x: nat :: In(r, x) <==> In(l, x) || b.Has(x)
  {
    if b.size > 0 {
      AwayIff(l, b);
      AddRegionOk(l, b);
    }
  }

  /** The block handed out is aligned and was free; exactly its bytes leave the free list, which stays canonical and
      loses no sliver; it comes from the lowest block that fits, and null means that none does. */
  lemma AllocOk(l: seq<Block>, size: nat, align: nat)
    requires Canonical(l) && align > 0 && size > 0
    ensures var r := Alloc(l, size, align);
      && Canonical(r.free)
      && (r.ptr == None <==> forall i, a: nat | 0 <= i < |l| :: !Serves(l[i], size, align, a))
      && (r.ptr == None ==> r.free == l)
      && (r.ptr.Some? ==>
            var got := Block(r.ptr.value, size);
            && r.ptr.value % align == 0
            && (forall x: nat | got.Has(x) :: In(l, x))
            && (forall x: nat :: In(r.free, x) <==> In(l, x) && !got.Has(x))
            && Total(r.free) + size == Total(l)
            && exists i ::
                 && 0 <= i < |l| && Serves(l[i], size, align, r.ptr.value)
                 && forall j, a: nat | 0 <= j < i :: !Serves(l[j], size, align, a))
  {
    hide Canonical, In, AddIfAny, Total, WithoutAt, Fit, FirstFit;
    if FirstFit(l, size, align).Some? {
      var i := FirstFit(l, size, align).value;
      var b, a := l[i], Fit(l[i], size, align).value;
      WithoutAtCanonical(l, i);
      WithoutAtBytes(l, i);
      var l1, suffix, prefix := WithoutAt(l, i), Block(a + size, b.End() - (a + size)), Block(b.start, a - b.start);
      AddIfAnyOk(l1, suffix);
      AddIfAnyOk(AddIfAny(l1, suffix), prefix);
      InMember(l, i);
    }
  }

  /** A block that starts aligned and is exactly as large as the request, or a node larger, guarantees success. */
  lemma AllocSucceeds(l: seq<Block>, size: nat, align: nat, i: nat)
    requires Canonical(l) && align > 0 && size > 0 && i < |l| && l[i].start % align == 0
    requires l[i].End() <= USIZE_MAX && (l[i].size == size || l[i].size >= size + NODE_SIZE)
    ensures Alloc(l, size, align).ptr.Some?
  {
    hide Alloc, Canonical;
    AllocOk(l, size, align);
    assert Serves(l[i], size, align, l[i].start);
  }

  lemma InMember(l: seq<Block>, i: nat)
    requires i < |l|
    ensures forall x: nat | l[i].Has(x) :: In(l, x)
  {
  }

  /** Freeing what was just allocated restores the identical list. */
  lemma AllocThenDealloc(l: seq<Block>, size: nat, align: nat)
    requires Canonical(l) && align > 0 && size >= NODE_SIZE
    ensures var r := Alloc(l, size, align); r.ptr.Some? ==> Dealloc(r.free, r.ptr.value, size) == l
  {
    hide In, AddRegion, Total, Alloc, Canonical;
    var r := Alloc(l, size, align);
    AllocOk(l, size, align);
    if r.ptr.Some? {
      DeallocOk(r.free, r.ptr.value, size);
      CanonicalUnique(Dealloc(r.free, r.ptr.value, size), l);
    }
  }

  lemma DeallocOk(l: seq<Block>, ptr: nat, size: nat)
    requires Canonical(l) && size >= NODE_SIZE && forall x: nat | Block(ptr, size).Has(x) :: !In(l, x)
    ensures var r := Dealloc(l, ptr, size);
      Canonical(r) && Total(r) == Total(l) + size && forall x: nat :: In(r, x) <==> In(l, x) || Block(ptr, size).Has(x)
  {
    AwayIff(l, Block(ptr, size));
    AddRegionOk(l, Block(ptr, size));
  }
}

/** Histories of the kernel heap. */
module HeapRuns {
  import opened Wrappers
  import opened FreeLists

  function Pow2(k: nat): (r: nat)
    ensures r > 0
  {
    if k == 0 then 1 else 2 * Pow2(k - 1)
  }

  /** A size and a power-of-two alignment. */
  datatype Layout = Layout(size: nat, log2Align: nat)

  function Align(layout: Layout): (a: nat)
    ensures a > 0
  {
    Pow2(if layout.log2Align < 3 then 3 else layout.log2Align)
  }

  /** `size_align`: at least a node's size and alignment, padded to the alignment. */
  function Size(layout: Layout): (n: nat)
    ensures n >= NODE_SIZE && n >= layout.size
  {
    var padded := AlignUp(layout.size, Align(layout));
    if padded < NODE_SIZE then NODE_SIZE else padded
  }

  lemma {:induction false} Pow2Multiple(j: nat, k: nat)
    requires j <= k
    ensures exists q: nat :: Pow2(k) == q * Pow2(j)
  {
    if j == k {
      assert Pow2(k) == 1 * Pow2(j);
    } else {
      Pow2Multiple(j, k - 1);
      var q: nat :| Pow2(k - 1) == q * Pow2(j);
      assert Pow2(k) == (2 * q) * Pow2(j);
    }
  }

  lemma MultipleOfMultiple(x: nat, a: nat, q: nat, d: nat)
    requires a > 0 && d > 0 && a == q * d && x % a == 0
    ensures x % d == 0
  {
    var k := x / a;
    assert x == k * a == (k * q) * d;
    MultipleMod(k * q, d);
  }

  /** The adjusted layout honours the request, wastes less than one alignment above it or the size of a node, and keeps
      every block a multiple of eight bytes. */
  lemma SizeAlignOk(layout: Layout)
    ensures Align(layout) == if Pow2(layout.log2Align) < 8 then 8 else Pow2(layout.log2Align)
    ensures layout.size == 0 ==> Size(layout) == NODE_SIZE
    ensures layout.size > 0 ==>
      && Size(layout) % Align(layout) == 0 && Size(layout) >= layout.size && Size(layout) >= NODE_SIZE
      && (Size(layout) == NODE_SIZE || Size(layout) < layout.size + Align(layout))
    ensures Size(layout) % 8 == 0 && Align(layout) % 8 == 0
    ensures forall a: nat | a % Align(layout) == 0 :: a % Pow2(layout.log2Align) == 0 && a % 8 == 0
  {
    var k := if layout.log2Align < 3 then 3 else layout.log2Align;
    Pow2Multiple(3, k);
    Pow2Multiple(layout.log2Align, k);
    assert Pow2(3) == 8;
    var q8: nat :| Pow2(k) == q8 * Pow2(3);
    var ql: nat :| Pow2(k) == ql * Pow2(layout.log2Align);
    forall a: nat | a % Align(layout) == 0 ensures a % Pow2(layout.log2Align) == 0 && a % 8 == 0 {
      MultipleOfMultiple(a, Pow2(k), q8, 8);
      MultipleOfMultiple(a, Pow2(k), ql, Pow2(layout.log2Align));
    }
    MultipleMod(1, Align(layout));
    SmallPowers(layout.log2Align);
    SizeIs(layout);
  }

  lemma {:induction false} PowersGrow(j: nat, k: nat)
    requires j <= k
    ensures Pow2(j) <= Pow2(k)
  {
    if j < k { PowersGrow(j, k - 1); }
  }

  lemma SmallPowers(k: nat)
    ensures Pow2(3) == 8 && (k < 3 <==> Pow2(k) < 8)
    ensures k > 3 ==> Pow2(k) >= 16
  {
    assert Pow2(3) == 8 && Pow2(4) == 16 && Pow2(2) == 4;
    if k < 3 { PowersGrow(k, 2); } else if k == 3 { PowersGrow(3, k); } else { PowersGrow(4, k); }
  }

  lemma SizeIs(layout: Layout)
    ensures layout.size == 0 ==> Size(layout) == NODE_SIZE
    ensures layout.size > 0 ==> Size(layout) % Align(layout) == 0
    ensures Size(layout) == NODE_SIZE || layout.size <= Size(layout) < layout.size + Align(layout)
  {
    hide Pow2, AlignUp;
    var a := Align(layout);
    var padded := AlignUp(layout.size, a);
    SmallPowers(layout.log2Align);
    if layout.size == 0 {
      LowestAligned(0, a);
      MultipleMod(0, a);
    } else if padded < NODE_SIZE {
      NotBelow(padded, a);
      assert a == 8;
    }
  }

  /** A positive multiple is at least the number; so a large alignment pads past a node. */
  lemma NotBelow(x: nat, a: nat)
    requires a > 0 && x > 0 && x % a == 0
    ensures x >= a
  {
  }

  predicate Eight(b: Block) {
    b.start % 8 == 0 && b.size % 8 == 0
  }

  ghost predicate Eights(l: seq<Block>) {
    forall i | 0 <= i < |l| :: Eight(l[i])
  }

  lemma MergeEight(b: Block, c: Block)
    requires Eight(b) && Eight(c)
    ensures Eight(Block(b.start, b.size + c.size))
  {
  }

  lemma {:induction false} CoalesceEights(l: seq<Block>)
    requires Eights(l)
    ensures Eights(Coalesce(l))
    decreases |l|
  {
    hide Eight;
    if |l| >= 2 {
      if l[0].End() == l[1].start {
        var m := [Block(l[0].start, l[0].size + l[1].size)] + l[2..];
        MergeEight(l[0], l[1]);
        CoalesceEights(m);
      } else {
        CoalesceEights(l[1..]);
      }
    }
  }

  lemma AddEights(l: seq<Block>, b: Block)
    requires Eights(l) && b.start % 8 == 0 && b.size % 8 == 0
    ensures Eights(AddIfAny(l, b)) && Eights(AddRegion(l, b))
  {
    if b.size >= NODE_SIZE {
      CoalesceEights(Insert(l, b));
    }
  }

  lemma AllocEights(l: seq<Block>, size: nat, align: nat)
    requires Eights(l) && size % 8 == 0 && align > 0 && forall a: nat | a % align == 0 :: a % 8 == 0
    ensures Eights(Alloc(l, size, align).free)
  {
    hide AddIfAny, Fit, FirstFit, Eights, WithoutAt;
    if FirstFit(l, size, align).Some? {
      var i := FirstFit(l, size, align).value;
      var b, a := l[i], Fit(l[i], size, align).value;
      var l1, suffix, prefix := WithoutAt(l, i), Block(a + size, b.End() - (a + size)), Block(b.start, a - b.start);
      WithoutEights(l, i);
      PartsEights(b, a, size);
      AddEights(l1, suffix);
      AddEights(AddIfAny(l1, suffix), prefix);
    }
  }

  lemma WithoutEights(l: seq<Block>, i: nat)
    requires Eights(l) && i < |l|
    ensures Eights(WithoutAt(l, i)) && l[i].start % 8 == 0 && l[i].size % 8 == 0
  {
  }

  lemma PartsEights(b: Block, a: nat, size: nat)
    requires b.start % 8 == 0 && b.size % 8 == 0 && a % 8 == 0 && size % 8 == 0 && b.start <= a && a + size <= b.End()
    ensures (a + size) % 8 == 0 && (b.End() - (a + size)) % 8 == 0 && (a - b.start) % 8 == 0
  {
  }

  // ----- The state machine -----

  /** A live allocation, with the layout its owner will pass to `dealloc`. */
  datatype Live = Live(ptr: nat, layout: Layout)

  datatype Heap = Heap(free: seq<Block>, live: seq<Live>)

  datatype Op = Allocate(layout: Layout) | Release(index: nat)

  function BlockOf(v: Live): Block {
    Block(v.ptr, Size(v.layout))
  }

  function Blocks(live: seq<Live>): (r: seq<Block>)
    ensures |r| == |live| && forall i | 0 <= i < |live| :: r[i] == BlockOf(live[i])
  {
    if live == [] then [] else [BlockOf(live[0])] + Blocks(live[1..])
  }

  /** `init`: one free block. */
  function Init(start: nat, size: nat): Heap {
    Heap(AddRegion([], Block(start, size)), [])
  }

  function Step(h: Heap, op: Op): Heap {
    match op
    case Allocate(layout) =>
      var r := Alloc(h.free, Size(layout), Align(layout));
      (match r.ptr case None => h case Some(a) => Heap(r.free, h.live + [Live(a, layout)]))
    case Release(i) =>
      if i >= |h.live| then h
      else Heap(Dealloc(h.free, h.live[i].ptr, Size(h.live[i].layout)), h.live[..i] + h.live[i + 1..])
  }

  function Run(h: Heap, ops: seq<Op>): Heap
    decreases ops
  {
    if ops == [] then h else Run(Step(h, ops[0]), ops[1..])
  }

  ghost predicate Disjoint(l: seq<Block>) {
    forall i, j | 0 <= i < j < |l| :: l[i].End() <= l[j].start || l[j].End() <= l[i].start
  }

  /** Every heap byte is in exactly one free or live block, and every live pointer is aligned as asked. */
  ghost predicate Inv(h: Heap, whole: Block) {
    var live := Blocks(h.live);
    && Canonical(h.free) && Eights(h.free) && Disjoint(live)
    && (forall x: nat :: whole.Has(x) <==> In(h.free, x) || In(live, x))
    && (forall x: nat :: !(In(h.free, x) && In(live, x)))
    && Total(h.free) + Total(live) == whole.size
    && (forall i | 0 <= i < |h.live| :: h.live[i].ptr % 8 == 0 && h.live[i].ptr % Pow2(h.live[i].layout.log2Align) == 0)
  }

  lemma BlocksAppend(live: seq<Live>, v: Live)
    ensures Blocks(live + [v]) == Blocks(live) + [BlockOf(v)]
  {
  }

  lemma BlocksWithout(live: seq<Live>, i: nat)
    requires i < |live|
    ensures Blocks(live[..i] + live[i + 1..]) == WithoutAt(Blocks(live), i)
  {
    var a, b := live[..i] + live[i + 1..], WithoutAt(Blocks(live), i);
    assert |Blocks(a)| == |a| == |live| - 1 == |b|;
    forall j | 0 <= j < |live| - 1 ensures Blocks(a)[j] == b[j] {
      if j < i { assert a[j] == live[j] && b[j] == Blocks(live)[j]; }
      else { assert a[j] == live[j + 1] && b[j] == Blocks(live)[j + 1]; }
    }
  }

  /** Taking a block out of a disjoint list removes exactly its bytes. */
  lemma DisjointWithout(l: seq<Block>, i: nat)
    requires Disjoint(l) && i < |l|
    ensures Disjoint(WithoutAt(l, i)) && NoneOf(l[i], l[..i]) && NoneOf(l[i], l[i + 1..])
  {
    var r := WithoutAt(l, i);
    assert forall j | 0 <= j < |r| :: r[j] == if j < i then l[j] else l[j + 1];
  }

  lemma InitOk(start: nat, size: nat)
    requires start % 8 == 0 && size % 8 == 0 && size >= NODE_SIZE
    ensures Inv(Init(start, size), Block(start, size)) && Init(start, size).free == [Block(start, size)]
  {
    var b := Block(start, size);
    assert Insert([], b) == [b];
    forall x: nat { InOne(b, x); }
    TotalOne(b);
  }

  lemma AllocateOk(h: Heap, whole: Block, layout: Layout)
    requires Inv(h, whole)
    ensures Inv(Step(h, Allocate(layout)), whole)
  {
    hide In, Canonical, Eights, Disjoint, Alloc, Size, Align, Total, Blocks;
    var n, align := Size(layout), Align(layout);
    var r := Alloc(h.free, n, align);
    AllocOk(h.free, n, align);
    SizeAlignOk(layout);
    AllocEights(h.free, n, align);
    if r.ptr.Some? {
      var v := Live(r.ptr.value, layout);
      var live := Blocks(h.live);
      BlocksAppend(h.live, v);
      TotalAppend(live, [BlockOf(v)]);
      TotalOne(BlockOf(v));
      forall x: nat ensures In(live + [BlockOf(v)], x) <==> In(live, x) || BlockOf(v).Has(x) {
        InAppend(live, [BlockOf(v)], x);
        InOne(BlockOf(v), x);
      }
      LiveStayDisjoint(live, BlockOf(v));
    }
  }

  lemma LiveStayDisjoint(live: seq<Block>, b: Block)
    requires Disjoint(live) && b.size > 0 && (forall i | 0 <= i < |live| :: live[i].size > 0)
    requires forall x: nat | b.Has(x) :: !In(live, x)
    ensures Disjoint(live + [b])
  {
    AwayIff(live, b);
  }

  lemma ReleaseOk(h: Heap, whole: Block, i: nat)
    requires Inv(h, whole)
    ensures Inv(Step(h, Release(i)), whole)
  {
    hide In, Canonical, Eights, Disjoint, Dealloc, Size, Total, Blocks, WithoutAt;
    if i < |h.live| {
      var b := BlockOf(h.live[i]);
      BlocksWithout(h.live, i);
      DisjointWithout(Blocks(h.live), i);
      WithoutAtBytes(Blocks(h.live), i);
      InMember(Blocks(h.live), i);
      DeallocOk(h.free, b.start, b.size);
      SizeAlignOk(h.live[i].layout);
      DeallocEights(h.free, b);
    }
  }

  lemma DeallocEights(l: seq<Block>, b: Block)
    requires Eights(l) && b.start % 8 == 0 && b.size % 8 == 0
    ensures Eights(Dealloc(l, b.start, b.size))
  {
    AddEights(l, b);
  }

  /** Every history keeps the heap in order: the free list is canonical, live blocks are aligned, inside the heap,
      disjoint from each other and from the free list, and no byte is ever lost. */
  lemma {:induction false} RunOk(h: Heap, whole: Block, ops: seq<Op>)
    requires Inv(h, whole)
    ensures Inv(Run(h, ops), whole)
    decreases ops
  {
    hide Inv, Step;
    if ops != [] {
      match ops[0] {
        case Allocate(layout) => AllocateOk(h, whole, layout);
        case Release(i) => ReleaseOk(h, whole, i);
      }
      RunOk(Step(h, ops[0]), whole, ops[1..]);
    }
  }

  /** Whatever was allocated and in whatever order it was released, once nothing is live the heap is again the single
      initial block; and at any time the free list depends only on which bytes are live. */
  lemma AllReleased(start: nat, size: nat, ops: seq<Op>)
    requires start % 8 == 0 && size % 8 == 0 && size >= NODE_SIZE
    ensures Run(Init(start, size), ops).live == [] ==> Run(Init(start, size), ops).free == [Block(start, size)]
  {
    hide Run;
    var h, b := Run(Init(start, size), ops), Block(start, size);
    InitOk(start, size);
    RunOk(Init(start, size), b, ops);
    if h.live == [] {
      forall x: nat ensures In(h.free, x) <==> In([b], x) { InOne(b, x); }
      CanonicalUnique(h.free, [b]);
    }
  }

  /** Two histories that leave the same bytes live leave the same free list. */
  lemma FreeListDetermined(g: Heap, h: Heap, whole: Block)
    requires Inv(g, whole) && Inv(h, whole) && SameBytes(Blocks(g.live), Blocks(h.live))
    ensures g.free == h.free
  {
    hide In, Canonical, Eights, Disjoint, Blocks;
    forall x: nat ensures In(g.free, x) <==> In(h.free, x) {
      assert In(Blocks(g.live), x) <==> In(Blocks(h.live), x);
    }
    CanonicalUnique(g.free, h.free);
  }
}
