/** The file allocation table: cluster chains, allocation and release. */
module FatChains {
  import opened Wrappers
  import opened FatEntries

  /** No link leaves the table. */
  ghost predicate Closed(fat: seq<nat>) {
    |fat| <= END && forall c | 0 <= c < |fat| :: Chained(fat[c]) ==> fat[c] < |fat|
  }

  predicate InTable(fat: seq<nat>, c: nat) {
    Chained(c) ==> c < |fat|
  }

  /** `ch` is the chain that starts at `head`. */
  ghost predicate Linked(fat: seq<nat>, head: nat, ch: seq<nat>) {
    && (ch == [] <==> !Chained(head)) && (ch != [] ==> ch[0] == head)
    && forall i | 0 <= i < |ch| :: Link(fat, ch, i)
  }

  ghost predicate Link(fat: seq<nat>, ch: seq<nat>, i: nat)
    requires i < |ch|
  {
    2 <= ch[i] < |fat| && if i + 1 < |ch| then fat[ch[i]] == ch[i + 1] else fat[ch[i]] >= END
  }

  predicate Distinct(s: seq<nat>) {
    forall i, j | 0 <= i < j < |s| :: s[i] != s[j]
  }

  // ----- Release -----

  function NonZero(fat: seq<nat>): nat {
    if fat == [] then 0 else (if fat[0] != 0 then 1 else 0) + NonZero(fat[1..])
  }

  lemma {:induction false} NonZeroDrops(fat: seq<nat>, c: nat)
    requires c < |fat|
    ensures NonZero(fat[c := 0]) == NonZero(fat) - if fat[c] != 0 then 1 else 0
  {
    if c == 0 {
      assert fat[c := 0][1..] == fat[1..];
    } else {
      assert fat[c := 0][1..] == fat[1..][c - 1 := 0];
      NonZeroDrops(fat[1..], c - 1);
    }
  }

  lemma ClosedDrop(fat: seq<nat>, c: nat)
    requires Closed(fat) && c < |fat|
    ensures Closed(fat[c := 0])
  {
  }

  /** `free_cluster_chain`. It ends on any table without links that leave it, also on a cyclic one, because a cluster
      met again reads as free. */
  function FreeChain(fat: seq<nat>, c: nat): (r: seq<nat>)
    requires Closed(fat) && InTable(fat, c)
    ensures |r| == |fat| && Closed(r)
    decreases NonZero(fat), if Chained(c) then 1 else 0
  {
    if !Chained(c) then fat
    else
      NonZeroDrops(fat, c);
      ClosedDrop(fat, c);
      FreeChain(fat[c := 0], fat[c])
  }

  /** The cluster `k` links after `c`; a value that is not a cluster stays. */
  function At(fat: seq<nat>, c: nat, k: nat): (r: nat)
    requires Closed(fat) && InTable(fat, c)
    ensures InTable(fat, r)
    decreases k
  {
    if k == 0 || !Chained(c) then c else At(fat, fat[c], k - 1)
  }

  ghost predicate Reaches(fat: seq<nat>, c: nat, x: nat)
    requires Closed(fat) && InTable(fat, c)
  {
    Chained(x) && exists k: nat :: At(fat, c, k) == x
  }

  lemma {:induction false} AtJoin(fat: seq<nat>, c: nat, j: nat, k: nat)
    requires Closed(fat) && InTable(fat, c)
    ensures At(fat, c, j + k) == At(fat, At(fat, c, j), k)
    decreases j
  {
    if j > 0 && Chained(c) { AtJoin(fat, fat[c], j - 1, k); }
    if j > 0 && !Chained(c) { assert At(fat, c, k) == c; }
  }

  /** Cutting the link of `c` changes no walk before it meets `c`. */
  lemma {:induction false} CutWalk(fat: seq<nat>, c: nat, n: nat, k: nat)
    requires c < |fat| && Closed(fat) && Closed(fat[c := 0]) && InTable(fat, n)
    requires forall j: nat | j < k :: At(fat, n, j) != c
    ensures At(fat[c := 0], n, k) == At(fat, n, k)
    decreases k
  {
    if k > 0 && Chained(n) {
      assert At(fat, n, 0) != c;
      forall j: nat | j < k - 1 ensures At(fat, fat[n], j) != c { assert At(fat, n, j + 1) != c; }
      CutWalk(fat, c, fat[n], k - 1);
    }
  }

  /** What a walk reaches after the cut, it reached before. */
  lemma {:induction false} CutReaches(fat: seq<nat>, c: nat, n: nat, k: nat)
    requires Chained(c) && c < |fat| && Closed(fat) && Closed(fat[c := 0]) && InTable(fat, n)
    requires Chained(At(fat[c := 0], n, k))
    ensures At(fat[c := 0], n, k) == At(fat, n, k)
    decreases k
  {
    if k > 0 && Chained(n) {
      if n != c { CutReaches(fat, c, fat[n], k - 1); }
    }
  }

  /** Beyond `c` itself, whatever `c` reaches is reached from its successor without passing `c`. */
  lemma {:induction false} ReachPast(fat: seq<nat>, c: nat, k: nat)
    requires Chained(c) && c < |fat| && Closed(fat) && Closed(fat[c := 0]) && Chained(At(fat, c, k))
    requires At(fat, c, k) != c
    ensures Reaches(fat[c := 0], fat[c], At(fat, c, k))
    decreases k
  {
    if j: nat :| j < k - 1 && At(fat, fat[c], j) == c {
      AtJoin(fat, c, j + 1, k - 1 - j);
      ReachPast(fat, c, k - 1 - j);
    } else {
      CutWalk(fat, c, fat[c], k - 1);
      assert At(fat[c := 0], fat[c], k - 1) == At(fat, c, k);
    }
  }

  lemma ReachSplit(fat: seq<nat>, c: nat, x: nat)
    requires Chained(c) && c < |fat| && Closed(fat) && Closed(fat[c := 0])
    ensures Reaches(fat, c, x) <==> x == c || Reaches(fat[c := 0], fat[c], x)
  {
    if Reaches(fat, c, x) && x != c {
      var k: nat :| At(fat, c, k) == x;
      ReachPast(fat, c, k);
    }
    if x == c { assert At(fat, c, 0) == c; }
    if Reaches(fat[c := 0], fat[c], x) {
      var k: nat :| At(fat[c := 0], fat[c], k) == x;
      CutReaches(fat, c, fat[c], k);
      assert At(fat, c, k + 1) == x;
    }
  }

  /** Releasing frees exactly the clusters reachable from the first one, whatever the shape of the table. */
  lemma {:induction false} FreeChainExact(fat: seq<nat>, c: nat, x: nat)
    requires Closed(fat) && InTable(fat, c) && x < |fat|
    ensures FreeChain(fat, c)[x] == if Reaches(fat, c, x) then 0 else fat[x]
    decreases NonZero(fat), if Chained(c) then 1 else 0
  {
    hide Reaches, Closed, NonZero;
    if Chained(c) {
      NonZeroDrops(fat, c);
      ClosedDrop(fat, c);
      LinkInTable(fat, c);
      FreeChainExact(fat[c := 0], fat[c], x);
      ReachSplit(fat, c, x);
    } else {
      NoReach(fat, c, x);
    }
  }

  lemma LinkInTable(fat: seq<nat>, c: nat)
    requires Closed(fat) && c < |fat|
    ensures InTable(fat, fat[c])
  {
  }

  lemma NoReach(fat: seq<nat>, c: nat, x: nat)
    requires Closed(fat) && !Chained(c)
    ensures !Reaches(fat, c, x)
  {
  }

  /** A chain is what its head reaches. */
  lemma {:induction false} LinkedAt(fat: seq<nat>, head: nat, ch: seq<nat>, k: nat)
    requires Closed(fat) && InTable(fat, head) && Linked(fat, head, ch)
    ensures if k < |ch| then At(fat, head, k) == ch[k] else !Chained(At(fat, head, k))
    decreases k
  {
    if ch != [] {
      assert Link(fat, ch, 0);
      if k > 0 {
        LinkedTail(fat, head, ch);
        LinkedAt(fat, fat[head], ch[1..], k - 1);
      }
    }
  }

  lemma LinkedTail(fat: seq<nat>, head: nat, ch: seq<nat>)
    requires Closed(fat) && Linked(fat, head, ch) && ch != []
    ensures head < |fat| && Linked(fat, fat[head], ch[1..])
  {
    assert Link(fat, ch, 0);
    forall i | 0 <= i < |ch[1..]| ensures Link(fat, ch[1..], i) { assert Link(fat, ch, i + 1); }
    if |ch| > 1 { assert Link(fat, ch, 1); }
  }

  lemma LinkedReaches(fat: seq<nat>, head: nat, ch: seq<nat>, x: nat)
    requires Closed(fat) && InTable(fat, head) && Linked(fat, head, ch)
    ensures Reaches(fat, head, x) <==> x in ch
  {
    hide Closed;
    if Reaches(fat, head, x) {
      var k: nat :| At(fat, head, k) == x;
      LinkedAt(fat, head, ch, k);
    }
    if x in ch {
      var k: nat :| k < |ch| && ch[k] == x;
      LinkedAt(fat, head, ch, k);
      assert Link(fat, ch, k) && Chained(x) by { TableBound(fat); }
    }
  }

  lemma TableBound(fat: seq<nat>)
    requires Closed(fat)
    ensures |fat| <= END
  {
  }

  /** On a chain, releasing frees exactly its clusters. */
  lemma FreeLinked(fat: seq<nat>, head: nat, ch: seq<nat>, x: nat)
    requires Closed(fat) && InTable(fat, head) && Linked(fat, head, ch) && x < |fat|
    ensures FreeChain(fat, head)[x] == if x in ch then 0 else fat[x]
  {
    FreeChainExact(fat, head, x);
    LinkedReaches(fat, head, ch, x);
  }

  lemma {:induction false} NeverAgain(fat: seq<nat>, head: nat, ch: seq<nat>, i: nat, j: nat)
    requires Closed(fat) && Linked(fat, head, ch) && i < j < |ch|
    ensures ch[i] != ch[j]
    decreases |ch| - j
  {
    assert Link(fat, ch, i) && Link(fat, ch, j) && Link(fat, ch, i + 1);
    if j + 1 < |ch| { NeverAgain(fat, head, ch, i + 1, j + 1); }
  }

  /** There is one chain from a head, and it has no cluster twice. */
  lemma LinkedUnique(fat: seq<nat>, head: nat, a: seq<nat>, b: seq<nat>)
    requires Closed(fat) && InTable(fat, head) && Linked(fat, head, a) && Linked(fat, head, b)
    ensures a == b && Distinct(a)
  {
    hide Closed;
    forall i, j | 0 <= i < j < |a| ensures a[i] != a[j] { NeverAgain(fat, head, a, i, j); }
    LinkedAt(fat, head, a, |b|);
    LinkedAt(fat, head, b, |a|);
    TableBound(fat);
    if |a| > |b| { assert Link(fat, a, |b|); LinkedAt(fat, head, b, |b|); }
    if |b| > |a| { assert Link(fat, b, |a|); LinkedAt(fat, head, a, |a|); }
    forall k | 0 <= k < |a| && k < |b| ensures a[k] == b[k] {
      LinkedAt(fat, head, a, k);
      LinkedAt(fat, head, b, k);
    }
  }

  // ----- Allocation -----

  /** The scan of `allocate_cluster`: the lowest free cluster. */
  function FirstFree(fat: seq<nat>, c: nat, limit: nat): (r: Option<nat>)
    requires limit <= |fat|
    ensures match r
      case Some(x) => c <= x < limit && fat[x] == 0 && forall j | c <= j < x :: fat[j] != 0
      case None => forall j | c <= j < limit :: fat[j] != 0
    decreases limit - c
  {
    if c >= limit then None else if fat[c] == 0 then Some(c) else FirstFree(fat, c + 1, limit)
  }

  /** The table and the bytes of each cluster. */
  datatype Vol = Vol(fat: seq<nat>, data: seq<seq<nat>>, spc: nat, root: nat)

  function ClusterSize(v: Vol): nat {
    512 * v.spc
  }

  ghost predicate Shape(v: Vol) {
    && 2 <= |v.fat| == |v.data| && v.spc > 0 && Closed(v.fat)
    && forall c | 2 <= c < |v.data| :: |v.data[c]| == ClusterSize(v)
  }

  /** `allocate_cluster`: clusters 3 to `total_clusters`, which is two short of the table. */
  function Allocate(v: Vol, prev: Option<nat>): (Option<nat>, Vol)
    requires 2 <= |v.fat| == |v.data| && (prev.Some? ==> prev.value < |v.fat|)
  {
    match FirstFree(v.fat, 3, |v.fat| - 2)
    case None => (None, v)
    case Some(c) =>
      var fat1 := v.fat[c := EOC];
      var fat2 := if prev.Some? then fat1[prev.value := c] else fat1;
      (Some(c), v.(fat := fat2, data := v.data[c := Zeros(ClusterSize(v))]))
  }

  /** The loop of `write_file` that allocates a chain; a short list means the volume is full. */
  function AllocateMany(v: Vol, k: nat, prev: Option<nat>): (seq<nat>, Vol)
    requires 2 <= |v.fat| == |v.data| && (prev.Some? ==> prev.value < |v.fat|)
    decreases k
  {
    if k == 0 then ([], v)
    else match Allocate(v, prev)
      case (None, _) => ([], v)
      case (Some(c), v1) => var (l, v2) := AllocateMany(v1, k - 1, Some(c)); ([c] + l, v2)
  }

  /** Same geometry; table and data agree at `c`. */
  ghost predicate SameAt(v: Vol, v': Vol, c: nat)
    requires |v.fat| == |v.data| && c < |v.fat|
  {
    c < |v'.fat| && c < |v'.data| && v'.fat[c] == v.fat[c] && v'.data[c] == v.data[c]
  }

  ghost predicate SameForm(v: Vol, v': Vol) {
    |v'.fat| == |v.fat| && |v'.data| == |v.data| && v'.spc == v.spc && v'.root == v.root
  }

  /** No cluster is left to allocate. */
  ghost predicate NoneFree(v: Vol) {
    forall c | 3 <= c < |v.fat| - 2 :: v.fat[c] != 0
  }

  /** What allocating a list of clusters changes. */
  ghost predicate Allocated(v: Vol, v': Vol, l: seq<nat>, prev: Option<nat>)
    requires |v.fat| == |v.data|
  {
    && SameForm(v, v') && Shape(v')
    && Distinct(l) && (forall i | 0 <= i < |l| :: Fresh(v, v', l, i))
    && (forall c | 0 <= c < |v.fat| && c !in l ::
          v'.data[c] == v.data[c] && (prev != Some(c) ==> v'.fat[c] == v.fat[c]))
    && (prev.Some? && prev.value < |v.fat| ==> v'.fat[prev.value] == if l == [] then v.fat[prev.value] else l[0])
  }

  /** A cluster that was free and is now linked to the next one or ends the chain. */
  ghost predicate Fresh(v: Vol, v': Vol, l: seq<nat>, i: nat)
    requires i < |l|
  {
    && 3 <= l[i] < |v.fat| && l[i] < |v'.fat| && v.fat[l[i]] == 0
    && v'.fat[l[i]] == if i + 1 < |l| then l[i + 1] else EOC
  }

  lemma AllocateOk(v: Vol, prev: Option<nat>)
    requires Shape(v) && (prev.Some? ==> prev.value < |v.fat| && v.fat[prev.value] != 0)
    ensures match Allocate(v, prev)
      case (None, v') => v' == v && NoneFree(v)
      case (Some(c), v') =>
        Allocated(v, v', [c], prev) && v'.data[c] == Zeros(ClusterSize(v)) && forall j | 3 <= j < c :: v.fat[j] != 0
  {
  }

  /** Allocating a chain takes free clusters only, links them in order after `prev`, and touches nothing else. */
  lemma {:induction false} AllocateManyOk(v: Vol, k: nat, prev: Option<nat>)
    requires Shape(v) && (prev.Some? ==> prev.value < |v.fat| && v.fat[prev.value] != 0)
    ensures var (l, v') := AllocateMany(v, k, prev); |l| <= k && Allocated(v, v', l, prev)
    ensures var (l, v') := AllocateMany(v, k, prev); |l| < k ==> NoneFree(v')
    decreases k
  {
    hide Closed, Zeros, FirstFree, Allocate;
    AllocateOk(v, prev);
    if k > 0 && Allocate(v, prev).0.Some? {
      var c, v1 := Allocate(v, prev).0.value, Allocate(v, prev).1;
      assert Fresh(v, v1, [c], 0);
      AllocateManyOk(v1, k - 1, Some(c));
      var (l, v2) := AllocateMany(v1, k - 1, Some(c));
      AllocatedJoin(v, v1, v2, c, l, prev);
    }
  }

  lemma AllocatedJoin(v: Vol, v1: Vol, v2: Vol, c: nat, l: seq<nat>, prev: Option<nat>)
    requires Shape(v) && (prev.Some? ==> prev.value < |v.fat| && v.fat[prev.value] != 0)
    requires Allocated(v, v1, [c], prev) && Allocated(v1, v2, l, Some(c))
    ensures Allocated(v, v2, [c] + l, prev)
  {
    hide Shape;
    ShapeLengths(v);
    ShapeLengths(v1);
    var m := [c] + l;
    assert Fresh(v, v1, [c], 0);
    forall i | 0 <= i < |l| ensures l[i] != c && prev != Some(l[i]) && l[i] < |v.fat| && v.fat[l[i]] == 0 {
      assert Fresh(v1, v2, l, i);
    }
    forall i | 0 <= i < |m| ensures Fresh(v, v2, m, i) {
      if i > 0 { assert m[i] == l[i - 1] && Fresh(v1, v2, l, i - 1); }
    }
  }

  lemma ShapeLengths(v: Vol)
    requires Shape(v)
    ensures 2 <= |v.fat| == |v.data|
  {
  }

  /** Clusters allocated from nothing form a chain. */
  lemma AllocatedLinked(v: Vol, v': Vol, l: seq<nat>)
    requires |v.fat| == |v.data| && Allocated(v, v', l, None) && l != []
    ensures Linked(v'.fat, l[0], l)
  {
    TableBound(v'.fat);
    assert Fresh(v, v', l, 0);
    forall i | 0 <= i < |l| ensures Link(v'.fat, l, i) {
      assert Fresh(v, v', l, i);
    }
  }
}
