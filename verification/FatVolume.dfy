/** A FAT32 volume: chains, directories and files on one table, and what its operations mean. */
module FatVolume {
  import opened FatEntries
  import opened FatDirs
  import opened FatChains

  // ----- Bytes and slots along a chain -----

  predicate InBounds(data: seq<seq<nat>>, ch: seq<nat>) {
    forall i | 0 <= i < |ch| :: ch[i] < |data|
  }

  function Bytes(data: seq<seq<nat>>, ch: seq<nat>): seq<nat>
    requires InBounds(data, ch)
  {
    if ch == [] then [] else data[ch[0]] + Bytes(data, ch[1..])
  }

  /** What `read_file` collects: the first `size` bytes along the chain. */
  function Content(data: seq<seq<nat>>, ch: seq<nat>, size: nat): seq<nat>
    requires InBounds(data, ch)
  {
    var b := Bytes(data, ch);
    if size <= |b| then b[..size] else b
  }

  /** The 32-byte slots of a cluster. */
  function Cut(bytes: seq<nat>): (r: seq<Raw>)
    ensures |r| == |bytes| / 32 && forall i | 0 <= i < |r| :: |r[i]| == 32 && r[i] == bytes[32 * i..32 * i + 32]
  {
    seq(|bytes| / 32, i requires 0 <= i < |bytes| / 32 => bytes[32 * i..32 * i + 32])
  }

  function SlotsOf(data: seq<seq<nat>>, ch: seq<nat>): (r: seq<Raw>)
    requires InBounds(data, ch)
    ensures Table(r)
  {
    if ch == [] then [] else Cut(data[ch[0]]) + SlotsOf(data, ch[1..])
  }

  function Splice(bytes: seq<nat>, offset: nat, e: seq<nat>): (r: seq<nat>)
    requires offset + |e| <= |bytes|
    ensures |r| == |bytes|
  {
    bytes[..offset] + e + bytes[offset + |e|..]
  }

  /** Overwrite slot `i` of the directory along the chain. */
  function PatchSlot(data: seq<seq<nat>>, ch: seq<nat>, i: nat, e: Raw): (r: seq<seq<nat>>)
    requires InBounds(data, ch) && i < |SlotsOf(data, ch)| && |e| == 32
    ensures |r| == |data| && forall c | 0 <= c < |data| :: |r[c]| == |data[c]|
  {
    var n := |Cut(data[ch[0]])|;
    if i < n then data[ch[0] := Splice(data[ch[0]], 32 * i, e)] else PatchSlot(data, ch[1..], i - n, e)
  }

  lemma {:induction false} SlotsFrame(data: seq<seq<nat>>, data': seq<seq<nat>>, ch: seq<nat>)
    requires InBounds(data, ch) && InBounds(data', ch) && forall i | 0 <= i < |ch| :: data'[ch[i]] == data[ch[i]]
    ensures SlotsOf(data', ch) == SlotsOf(data, ch) && Bytes(data', ch) == Bytes(data, ch)
  {
    if ch != [] {
      assert forall i | 0 <= i < |ch[1..]| :: ch[1..][i] == ch[i + 1];
      SlotsFrame(data, data', ch[1..]);
    }
  }

  lemma SpliceSlots(bytes: seq<nat>, i: nat, e: Raw)
    requires i < |bytes| / 32 && |e| == 32
    ensures Cut(Splice(bytes, 32 * i, e)) == Cut(bytes)[i := e]
  {
    var b' := Splice(bytes, 32 * i, e);
    forall j | 0 <= j < |bytes| / 32 ensures Cut(b')[j] == Cut(bytes)[i := e][j] {
      if j < i {
        assert b'[32 * j..32 * j + 32] == bytes[32 * j..32 * j + 32];
      } else if j == i {
        assert b'[32 * i..32 * i + 32] == e;
      } else {
        assert b'[32 * j..32 * j + 32] == bytes[32 * j..32 * j + 32];
      }
    }
  }

  ghost predicate Patched(data: seq<seq<nat>>, r: seq<seq<nat>>, ch: seq<nat>, i: nat, e: Raw)
    requires InBounds(data, ch) && i < |SlotsOf(data, ch)|
  {
    && |r| == |data| && SlotsOf(r, ch) == SlotsOf(data, ch)[i := e]
    && forall c | 0 <= c < |data| && c !in ch :: r[c] == data[c]
  }

  lemma PatchHead(data: seq<seq<nat>>, ch: seq<nat>, i: nat, e: Raw)
    requires InBounds(data, ch) && ch != [] && Distinct(ch) && i < |Cut(data[ch[0]])| && |e| == 32
    ensures Patched(data, PatchSlot(data, ch, i, e), ch, i, e)
  {
    hide Cut;
    var r, rest := PatchSlot(data, ch, i, e), ch[1..];
    SpliceSlots(data[ch[0]], i, e);
    assert forall j | 0 <= j < |rest| :: rest[j] == ch[j + 1] != ch[0];
    SlotsFrame(data, r, rest);
    var a, s := Cut(data[ch[0]]), SlotsOf(data, rest);
    assert SlotsOf(r, ch) == a[i := e] + s;
    assert (a + s)[i := e] == a[i := e] + s;
    assert forall c | 0 <= c < |data| && c !in ch :: c != ch[0];
  }

  lemma PatchTail(data: seq<seq<nat>>, r: seq<seq<nat>>, ch: seq<nat>, i: nat, e: Raw)
    requires InBounds(data, ch) && ch != [] && Distinct(ch) && |e| == 32
    requires |Cut(data[ch[0]])| <= i < |SlotsOf(data, ch)|
    requires Patched(data, r, ch[1..], i - |Cut(data[ch[0]])|, e)
    ensures Patched(data, r, ch, i, e)
  {
    hide Cut;
    var rest, a := ch[1..], Cut(data[ch[0]]);
    assert ch[0] !in rest;
    assert (a + SlotsOf(data, rest))[i := e] == a + SlotsOf(data, rest)[i - |a| := e];
    assert forall c | c in rest :: c in ch;
  }

  /** Overwriting a slot changes that slot only, and only clusters of the chain. */
  lemma {:induction false} PatchSlotOk(data: seq<seq<nat>>, ch: seq<nat>, i: nat, e: Raw)
    requires InBounds(data, ch) && Distinct(ch) && i < |SlotsOf(data, ch)| && |e| == 32
    ensures Patched(data, PatchSlot(data, ch, i, e), ch, i, e)
  {
    hide Cut, Patched;
    var n := |Cut(data[ch[0]])|;
    if i < n {
      PatchHead(data, ch, i, e);
    } else {
      PatchSlotOk(data, ch[1..], i - n, e);
      PatchTail(data, PatchSlot(data, ch[1..], i - n, e), ch, i, e);
    }
  }

  lemma {:induction false} SlotsJoin(data: seq<seq<nat>>, ch: seq<nat>, c: nat)
    requires InBounds(data, ch) && c < |data|
    ensures InBounds(data, ch + [c]) && SlotsOf(data, ch + [c]) == SlotsOf(data, ch) + Cut(data[c])
  {
    hide Cut, Table;
    if ch == [] {
      assert [c][1..] == [];
      assert SlotsOf(data, [c]) == Cut(data[c]) + SlotsOf(data, []);
    } else {
      assert (ch + [c])[1..] == ch[1..] + [c];
      SlotsJoin(data, ch[1..], c);
    }
  }

  lemma {:induction false} BytesLength(v: Vol, ch: seq<nat>)
    requires Shape(v) && forall i | 0 <= i < |ch| :: 2 <= ch[i] < |v.fat|
    ensures |Bytes(v.data, ch)| == ClusterSize(v) * |ch|
  {
    hide ClusterSize;
    if ch != [] {
      BytesLength(v, ch[1..]);
      Distribute(ClusterSize(v), |ch|);
    }
  }

  lemma Distribute(a: nat, n: nat)
    requires n > 0
    ensures a * n == a + a * (n - 1)
  {
  }

  // ----- Filling a chain -----

  /** Whole sectors are written, the last one padded with zeros; the rest of the cluster stays. */
  function Overlay(was: seq<nat>, chunk: seq<nat>): (r: seq<nat>)
    requires |chunk| <= |was| && |was| % 512 == 0
    ensures |r| == |was| && chunk <= r
  {
    var pad := (512 - |chunk| % 512) % 512;
    chunk + Zeros(pad) + was[|chunk| + pad..]
  }

  function Least(a: nat, b: nat): nat {
    if a < b then a else b
  }

  lemma ShapeAt(v: Vol, c: nat)
    requires Shape(v) && Chained(c) && InTable(v.fat, c)
    ensures c < |v.fat| == |v.data| && |v.data[c]| == ClusterSize(v) && |v.data[c]| % 512 == 0 && |v.data[c]| > 0
    ensures InTable(v.fat, v.fat[c])
  {
  }

  function FillOne(v: Vol, c: nat, bytes: seq<nat>): (r: Vol)
    requires Shape(v) && Chained(c) && InTable(v.fat, c)
    ensures Shape(r) && r.fat == v.fat && SameForm(v, r)
  {
    ShapeAt(v, c);
    v.(data := v.data[c := Overlay(v.data[c], bytes[..Least(ClusterSize(v), |bytes|)])])
  }

  /** The write loop of `write_file`. */
  function Fill(v: Vol, c: nat, bytes: seq<nat>): (r: Vol)
    requires Shape(v) && InTable(v.fat, c)
    ensures Shape(r) && r.fat == v.fat && SameForm(v, r)
    decreases |bytes|
  {
    if !Chained(c) || bytes == [] then v
    else
      ShapeAt(v, c);
      Fill(FillOne(v, c, bytes), v.fat[c], bytes[Least(ClusterSize(v), |bytes|)..])
  }

  /** Filling a chain that is long enough stores the bytes, in order, and touches no other cluster. */
  lemma {:induction false} FillOk(v: Vol, c: nat, ch: seq<nat>, bytes: seq<nat>)
    requires Shape(v) && InTable(v.fat, c) && Linked(v.fat, c, ch) && Distinct(ch) && InBounds(v.data, ch)
    requires |bytes| <= |Bytes(v.data, ch)|
    ensures InBounds(Fill(v, c, bytes).data, ch) && Content(Fill(v, c, bytes).data, ch, |bytes|) == bytes
    ensures forall x | 0 <= x < |v.data| && x !in ch :: Fill(v, c, bytes).data[x] == v.data[x]
    decreases |bytes|
  {
    hide Closed, Overlay;
    if bytes != [] {
      var n := Least(ClusterSize(v), |bytes|);
      var v1 := FillOne(v, c, bytes);
      ShapeAt(v, c);
      LinkedTail(v.fat, c, ch);
      var rest := ch[1..];
      assert forall j | 0 <= j < |rest| :: rest[j] == ch[j + 1] != c;
      SlotsFrame(v.data, v1.data, rest);
      FillOk(v1, v.fat[c], rest, bytes[n..]);
      var v2 := Fill(v1, v.fat[c], bytes[n..]);
      assert c !in rest;
      FillJoin(v2.data, ch, bytes, n);
    }
  }

  lemma FillJoin(data: seq<seq<nat>>, ch: seq<nat>, bytes: seq<nat>, n: nat)
    requires InBounds(data, ch) && ch != [] && n <= |bytes|
    requires bytes[..n] <= data[ch[0]] && (n < |bytes| ==> n == |data[ch[0]]|)
    requires Content(data, ch[1..], |bytes| - n) == bytes[n..]
    ensures Content(data, ch, |bytes|) == bytes
  {
    var a, b := data[ch[0]], Bytes(data, ch[1..]);
    assert bytes == bytes[..n] + bytes[n..];
    if n < |bytes| {
      assert a == bytes[..n];
      assert (a + b)[..|bytes|] == a + b[..|bytes| - n];
    } else {
      assert (a + b)[..n] == a[..n];
    }
  }
}
