/** The allocator object: free-list nodes stored in the free blocks themselves and spliced in place. */
module HeapObject {
  import opened Wrappers
  import opened FreeLists
  import R = HeapRuns

  /** A node header, as written at the start of a free block. */
  datatype Node = Node(size: nat, next: Option<nat>)

  function Link(l: seq<Block>, i: nat): Option<nat> {
    if i < |l| then Some(l[i].start) else None
  }

  /** Header `i` of `r` is in place. */
  ghost predicate HeaderOk(nodes: map<nat, Node>, r: seq<Block>, i: nat)
    requires i < |r|
  {
    r[i].start in nodes && nodes[r[i].start] == Node(r[i].size, Link(r, i + 1))
  }

  /** The chain from `first` through the headers in memory spells `l`. */
  ghost predicate Linked(nodes: map<nat, Node>, first: Option<nat>, l: seq<Block>) {
    && first == Link(l, 0)
    && forall i | 0 <= i < |l| :: HeaderOk(nodes, l, i)
  }

  lemma {:induction false} PositionIs(l: seq<Block>, b: Block, k: nat)
    requires k <= |l| && (forall i | 0 <= i < k :: l[i].start <= b.start) && (k < |l| ==> b.start < l[k].start)
    ensures Position(l, b) == k
  {
    if k > 0 {
      assert l[0].start <= b.start;
      PositionIs(l[1..], b, k - 1);
    }
  }

  lemma {:induction false} FirstFitIs(l: seq<Block>, size: nat, align: nat, k: nat)
    requires align > 0 && k <= |l| && (forall i | 0 <= i < k :: Fit(l[i], size, align) == None)
    requires k < |l| ==> Fit(l[k], size, align).Some?
    ensures FirstFit(l, size, align) == if k < |l| then Some(k) else None
  {
    hide Fit;
    if k > 0 {
      assert Fit(l[0], size, align) == None;
      FirstFitIs(l[1..], size, align, k - 1);
    }
  }

  ghost predicate Distinct(l: seq<Block>) {
    forall i, j | 0 <= i < j < |l| :: l[i].start != l[j].start
  }

  lemma OrderedDistinct(l: seq<Block>)
    requires Ordered(l)
    ensures Distinct(l)
  {
  }

  lemma AwayDistinct(l: seq<Block>, b: Block)
    requires Ordered(l) && AwayFrom(l, b) && b.size > 0
    ensures forall i | 0 <= i < |l| :: l[i].start != b.start
  {
  }

  /** The cursor value for the `k`-th node, counting the list head as 0. */
  function Cursor(l: seq<Block>, k: nat): Option<nat>
    requires k <= |l|
  {
    if k == 0 then None else Some(l[k - 1].start)
  }

  lemma ReadLink(nodes: map<nat, Node>, first: Option<nat>, l: seq<Block>, k: nat)
    requires Linked(nodes, first, l) && k <= |l|
    ensures k > 0 ==> l[k - 1].start in nodes && nodes[l[k - 1].start] == Node(l[k - 1].size, Link(l, k))
    ensures k == 0 ==> first == Link(l, k)
  {
    assert k > 0 ==> HeaderOk(nodes, l, k - 1);
  }

  lemma WriteElsewhere(nodes: map<nat, Node>, first: Option<nat>, l: seq<Block>, a: nat, n: Node)
    requires Linked(nodes, first, l) && forall i | 0 <= i < |l| :: l[i].start != a
    ensures Linked(nodes[a := n], first, l)
  {
    var m := nodes[a := n];
    forall i | 0 <= i < |l| ensures HeaderOk(m, l, i) { assert HeaderOk(nodes, l, i); }
  }

  lemma SpliceInAt(nodes: map<nat, Node>, l: seq<Block>, b: Block, k: nat, i: nat)
    requires Distinct(l) && k <= |l| && i <= |l| && forall j | 0 <= j < |l| :: l[j].start != b.start
    requires i < |l| ==> HeaderOk(nodes, l, i)
    requires i > 0 ==> HeaderOk(nodes, l, i - 1)
    ensures var n1 := nodes[b.start := Node(b.size, Link(l, k))];
      HeaderOk(
        if k == 0 then n1 else n1[l[k - 1].start := Node(l[k - 1].size, Some(b.start))],
        l[..k] + [b] + l[k..], i)
  {
    var r := l[..k] + [b] + l[k..];
    assert r[i] == if i < k then l[i] else if i == k then b else l[i - 1];
    assert i < |l| ==> r[i + 1] == if i + 1 < k then l[i + 1] else if i + 1 == k then b else l[i];
  }

  /** Splicing a new node in after the `k`-th. */
  lemma SpliceIn(nodes: map<nat, Node>, first: Option<nat>, l: seq<Block>, b: Block, k: nat)
    requires Linked(nodes, first, l) && Distinct(l) && k <= |l| && forall i | 0 <= i < |l| :: l[i].start != b.start
    ensures var n1 := nodes[b.start := Node(b.size, Link(l, k))];
      if k == 0 then Linked(n1, Some(b.start), l[..k] + [b] + l[k..])
      else Linked(n1[l[k - 1].start := Node(l[k - 1].size, Some(b.start))], first, l[..k] + [b] + l[k..])
  {
    hide HeaderOk;
    var r := l[..k] + [b] + l[k..];
    var n1 := nodes[b.start := Node(b.size, Link(l, k))];
    var n2 := if k == 0 then n1 else n1[l[k - 1].start := Node(l[k - 1].size, Some(b.start))];
    forall i | 0 <= i < |r| ensures HeaderOk(n2, r, i) {
      SpliceInAt(nodes, l, b, k, i);
    }
  }

  /** Unlinking the node after the `k`-th. */
  lemma SpliceOut(nodes: map<nat, Node>, first: Option<nat>, l: seq<Block>, k: nat)
    requires Linked(nodes, first, l) && Distinct(l) && k < |l|
    ensures if k == 0 then Linked(nodes, Link(l, k + 1), WithoutAt(l, k))
      else Linked(nodes[l[k - 1].start := Node(l[k - 1].size, Link(l, k + 1))], first, WithoutAt(l, k))
  {
    var r := WithoutAt(l, k);
    var n := if k == 0 then nodes else nodes[l[k - 1].start := Node(l[k - 1].size, Link(l, k + 1))];
    forall i | 0 <= i < |r| ensures HeaderOk(n, r, i) {
      assert HeaderOk(nodes, l, if i < k then i else i + 1);
      assert r[i] == if i < k then l[i] else l[i + 1];
      assert i + 1 < |r| ==> r[i + 1] == if i + 1 < k then l[i + 1] else l[i + 2];
    }
  }

  lemma SpliceMergeAt(nodes: map<nat, Node>, l: seq<Block>, k: nat, i: nat)
    requires Distinct(l) && 0 < k < |l| && i < |l| - 1 && HeaderOk(nodes, l, if i < k then i else i + 1)
    ensures HeaderOk(nodes[l[k - 1].start := Node(l[k - 1].size + l[k].size, Link(l, k + 1))],
                     l[..k - 1] + [Block(l[k - 1].start, l[k - 1].size + l[k].size)] + l[k + 1..], i)
  {
    var m := Block(l[k - 1].start, l[k - 1].size + l[k].size);
    var r := l[..k - 1] + [m] + l[k + 1..];
    assert r[i] == if i < k - 1 then l[i] else if i == k - 1 then m else l[i + 1];
    assert i + 1 < |r| ==> r[i + 1] == if i + 1 < k - 1 then l[i + 1] else if i + 1 == k - 1 then m else l[i + 2];
  }

  /** Replacing two neighbours by their union. */
  lemma SpliceMerge(nodes: map<nat, Node>, first: Option<nat>, l: seq<Block>, k: nat)
    requires Linked(nodes, first, l) && Distinct(l) && 0 < k < |l|
    ensures Linked(nodes[l[k - 1].start := Node(l[k - 1].size + l[k].size, Link(l, k + 1))], first,
                   l[..k - 1] + [Block(l[k - 1].start, l[k - 1].size + l[k].size)] + l[k + 1..])
  {
    hide HeaderOk;
    var r := l[..k - 1] + [Block(l[k - 1].start, l[k - 1].size + l[k].size)] + l[k + 1..];
    var n := nodes[l[k - 1].start := Node(l[k - 1].size + l[k].size, Link(l, k + 1))];
    forall i | 0 <= i < |r| ensures HeaderOk(n, r, i) {
      SpliceMergeAt(nodes, l, k, i);
    }
  }

  class LinkedListAllocator {
    var nodes: map<nat, Node>
    var first: Option<nat>
    ghost var list: seq<Block>

    ghost predicate Valid()
      reads this
    {
      Linked(nodes, first, list) && Canonical(list)
    }

    constructor ()
      ensures Valid() && list == []
    {
      nodes, first, list := map[], None, [];
    }

    /** `current.next`, where no cursor means the list head. */
    function Next(cur: Option<nat>): Option<nat>
      reads this
    {
      match cur
      case None => first
      case Some(a) => if a in nodes then nodes[a].next else None
    }

    method SetNext(cur: Option<nat>, next: Option<nat>)
      requires cur.Some? ==> cur.value in nodes
      modifies this`nodes, this`first
      ensures cur == None ==> first == next && nodes == old(nodes)
      ensures cur.Some? ==>
        first == old(first) && nodes == old(nodes)[cur.value := old(nodes)[cur.value].(next := next)]
    {
      match cur
      case None => first := next;
      case Some(a) => nodes := nodes[a := nodes[a].(next := next)];
    }

    /** The sorted insertion of `add_free_region`. */
    method InsertNode(b: Block)
      requires Linked(nodes, first, list) && Ordered(list) && AwayFrom(list, b) && b.size >= NODE_SIZE
      modifies this
      ensures Linked(nodes, first, list) && list == Insert(old(list), b)
    {
      hide Linked, Ordered, AwayFrom, Position;
      OrderedDistinct(list);
      AwayDistinct(list, b);
      WriteElsewhere(nodes, first, list, b.start, Node(b.size, None));
      nodes := nodes[b.start := Node(b.size, None)];
      var cur: Option<nat> := None;
      ghost var k := 0;
      ReadLink(nodes, first, list, 0);
      var next := Next(cur);
      while next.Some? && next.value <= b.start
        invariant k <= |list| && cur == Cursor(list, k) && next == Link(list, k)
        invariant Linked(nodes, first, list) && list == old(list)
        invariant forall i | 0 <= i < k :: list[i].start <= b.start
        decreases |list| - k
      {
        cur := next;
        k := k + 1;
        ReadLink(nodes, first, list, k);
        next := Next(cur);
      }
      PositionIs(list, b, k);
      SpliceIn(nodes, first, list, b, k);
      ReadLink(nodes, first, list, k);
      nodes := nodes[b.start := Node(b.size, next)];
      SetNext(cur, Some(b.start));
      list := Insert(list, b);
    }

    /** `coalesce`: one pass that merges a block with the next while they touch. */
    method CoalesceNodes()
      requires Linked(nodes, first, list) && Ordered(list)
      modifies this
      ensures Linked(nodes, first, list) && list == Coalesce(old(list))
    {
      hide Linked, Ordered, Coalesce;
      var cur: Option<nat> := None;
      ghost var k := 0;
      ReadLink(nodes, first, list, 0);
      while Next(cur).Some?
        invariant k <= |list| && cur == Cursor(list, k) && Linked(nodes, first, list) && Ordered(list)
        invariant Next(cur) == Link(list, k)
        invariant if k == 0 then list == old(list) else Coalesce(old(list)) == list[..k - 1] + Coalesce(list[k - 1..])
        decreases |list|, |list| - k
      {
        var next := Next(cur).value;
        ReadLink(nodes, first, list, k);
        ReadLink(nodes, first, list, k + 1);
        if cur.Some? && nodes[cur.value].size > 0 && cur.value + nodes[cur.value].size == next {
          ghost var merged := Block(list[k - 1].start, list[k - 1].size + list[k].size);
          OrderedDistinct(list);
          SpliceMerge(nodes, first, list, k);
          MergeStep(list, k, merged);
          nodes := nodes[cur.value := Node(nodes[cur.value].size + nodes[next].size, nodes[next].next)];
          list := list[..k - 1] + [merged] + list[k + 1..];
          ReadLink(nodes, first, list, k);
        } else {
          SizesPositive(list, k);
          if k > 0 { AdvanceStep(list, k); } else { assert list[0..] == list; }
          cur := Some(next);
          k := k + 1;
        }
      }
      LastStep(list, k);
    }

    static lemma SizesPositive(l: seq<Block>, k: nat)
      requires Ordered(l) && k <= |l|
      ensures k > 0 ==> l[k - 1].size > 0
    {
    }

    static lemma LastStep(l: seq<Block>, k: nat)
      requires k == |l|
      ensures k == 0 ==> Coalesce(l) == l
      ensures k > 0 ==> l[..k - 1] + Coalesce(l[k - 1..]) == l
    {
      if k > 0 { assert l[k - 1..] == [l[k - 1]]; }
    }

    static lemma MergeStep(l: seq<Block>, k: nat, merged: Block)
      requires 0 < k < |l| && Ordered(l) && l[k - 1].End() == l[k].start
      requires merged == Block(l[k - 1].start, l[k - 1].size + l[k].size)
      ensures var r := l[..k - 1] + [merged] + l[k + 1..];
        Ordered(r) && r[..k - 1] == l[..k - 1] && Coalesce(r[k - 1..]) == Coalesce(l[k - 1..])
    {
      hide Ordered, Coalesce;
      var r := l[..k - 1] + [merged] + l[k + 1..];
      var s := l[k - 1..];
      assert s[0] == l[k - 1] && s[1] == l[k] && s[2..] == l[k + 1..];
      assert r[k - 1..] == [merged] + s[2..];
      MergeHead(s, merged);
      MergeOrdered(l, k, merged);
    }

    static lemma MergeHead(s: seq<Block>, merged: Block)
      requires |s| > 1 && s[0].End() == s[1].start && merged == Block(s[0].start, s[0].size + s[1].size)
      ensures Coalesce(s) == Coalesce([merged] + s[2..])
    {
    }

    static lemma MergeOrdered(l: seq<Block>, k: nat, merged: Block)
      requires 0 < k < |l| && Ordered(l) && l[k - 1].End() == l[k].start
      requires merged == Block(l[k - 1].start, l[k - 1].size + l[k].size)
      ensures Ordered(l[..k - 1] + [merged] + l[k + 1..])
    {
      var r := l[..k - 1] + [merged] + l[k + 1..];
      forall i | 0 <= i < |r| ensures r[i] == if i == k - 1 then merged else l[if i < k then i else i + 1] {}
      forall i, j | 0 <= i < j < |r| ensures r[i].End() <= r[j].start {
        if i == k - 1 { assert l[k].End() <= l[j + 1].start; }
        if j == k - 1 { assert l[i].End() <= l[k - 1].start; }
      }
    }

    static lemma AdvanceStep(l: seq<Block>, k: nat)
      requires 0 < k < |l| && l[k - 1].End() != l[k].start
      ensures l[..k - 1] + Coalesce(l[k - 1..]) == l[..k] + Coalesce(l[k..])
    {
      hide Coalesce;
      var s := l[k - 1..];
      assert s[0] == l[k - 1] && s[1] == l[k] && s[1..] == l[k..];
      KeepHead(s);
      assert l[..k] == l[..k - 1] + [l[k - 1]];
    }

    static lemma KeepHead(s: seq<Block>)
      requires |s| > 1 && s[0].End() != s[1].start
      ensures Coalesce(s) == [s[0]] + Coalesce(s[1..])
    {
    }

    method AddFreeRegion(b: Block)
      requires Valid() && AwayFrom(list, b)
      modifies this
      ensures Valid() && list == AddRegion(old(list), b)
    {
      hide Insert, Coalesce, Linked, Canonical, Ordered, In, AwayFrom;
      if b.size < NODE_SIZE {
        return;
      }
      CanonicalOrdered(list);
      AddRegionOk(list, b);
      InsertOrdered(list, b);
      InsertNode(b);
      CoalesceNodes();
    }

    /** `find_region`: unlinks the first block that fits. */
    method FindRegion(size: nat, align: nat) returns (r: Option<Block>)
      requires Valid() && align > 0
      modifies this
      ensures Valid()
      ensures match FirstFit(old(list), size, align)
        case None => r == None && list == old(list)
        case Some(i) => r == Some(old(list)[i]) && list == WithoutAt(old(list), i)
    {
      hide Fit, FirstFit, Linked, Canonical, WithoutAt;
      var cur: Option<nat> := None;
      ghost var k := 0;
      ReadLink(nodes, first, list, 0);
      var next := Next(cur);
      while next.Some?
        invariant k <= |list| && cur == Cursor(list, k) && next == Link(list, k)
        invariant Valid() && list == old(list)
        invariant forall i | 0 <= i < k :: Fit(list[i], size, align) == None
        decreases |list| - k
      {
        ReadLink(nodes, first, list, k + 1);
        var region := Block(next.value, nodes[next.value].size);
        if Fit(region, size, align).Some? {
          FirstFitIs(list, size, align, k);
          WithoutAtCanonical(list, k);
          CanonicalOrdered(list);
          OrderedDistinct(list);
          SpliceOut(nodes, first, list, k);
          ReadLink(nodes, first, list, k);
          SetNext(cur, nodes[next.value].next);
          list := WithoutAt(list, k);
          return Some(region);
        }
        cur := next;
        k := k + 1;
        next := Next(cur);
      }
      FirstFitIs(list, size, align, k);
      r := None;
    }

    method Alloc(layout: R.Layout) returns (ptr: Option<nat>)
      requires Valid()
      modifies this
      ensures Valid()
      ensures Allocated(ptr, list) == FreeLists.Alloc(old(list), R.Size(layout), R.Align(layout))
    {
      hide Fit, FirstFit, AddRegion, WithoutAt, R.Size, R.Align, Linked, Canonical, In, AwayFrom, NoneOf, Total;
      var size, align := R.Size(layout), R.Align(layout);
      ghost var l := list;
      var region := FindRegion(size, align);
      if region == None {
        return None;
      }
      var b, a := region.value, Fit(region.value, size, align).value;
      ghost var i := FirstFit(l, size, align).value;
      WithoutAtCanonical(l, i);
      WithoutAtBytes(l, i);
      AwayAfter(list, b, Block(a + size, b.End() - (a + size)), Block(b.start, a - b.start));
      if b.End() - (a + size) > 0 {
        AddFreeRegion(Block(a + size, b.End() - (a + size)));
      }
      if a - b.start > 0 {
        AddFreeRegion(Block(b.start, a - b.start));
      }
      ptr := Some(a);
    }

    /** Both left-over pieces may be added back, one after the other. */
    static lemma AwayAfter(l: seq<Block>, b: Block, suffix: Block, prefix: Block)
      requires Canonical(l) && forall x: nat | b.Has(x) :: !In(l, x)
      requires b.start == prefix.start && prefix.End() < suffix.start && suffix.End() == b.End()
      requires (suffix.size == 0 || suffix.size >= NODE_SIZE) && (prefix.size == 0 || prefix.size >= NODE_SIZE)
      ensures suffix.size > 0 ==> AwayFrom(l, suffix)
      ensures prefix.size > 0 ==> AwayFrom(AddIfAny(l, suffix), prefix)
    {
      AddIfAnyOk(l, suffix);
      if suffix.size > 0 { AwayIff(l, suffix); }
      if prefix.size > 0 { AwayIff(AddIfAny(l, suffix), prefix); }
    }

    /** The caller returns a block it got from `Alloc`, with the same layout. */
    method Dealloc(ptr: nat, layout: R.Layout)
      requires Valid() && forall x: nat | Block(ptr, R.Size(layout)).Has(x) :: !In(list, x)
      modifies this
      ensures Valid()
      ensures list == FreeLists.Dealloc(old(list), ptr, R.Size(layout))
    {
      AwayIff(list, Block(ptr, R.Size(layout)));
      AddFreeRegion(Block(ptr, R.Size(layout)));
    }

    method FreeMemory() returns (total: nat)
      requires Valid()
      ensures total == Total(list)
    {
      total := 0;
      var cur := first;
      ghost var k := 0;
      while cur.Some?
        invariant 0 <= k <= |list| && cur == Link(list, k)
        invariant total + Total(list[k..]) == Total(list)
        decreases |list| - k
      {
        assert list[k..][1..] == list[k + 1..];
        ReadLink(nodes, first, list, k + 1);
        total := total + nodes[cur.value].size;
        cur := nodes[cur.value].next;
        k := k + 1;
      }
    }
  }
}
