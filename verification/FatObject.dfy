/** The FAT32 driver: sectors read, changed and written back. */
module FatObject {
  import opened Wrappers
  import opened FatEntries
  import opened FatDirs
  import opened FatChains
  import opened FatVolume
  import opened FatFiles
  import opened FatWrites
  import FatTheorems
  import FatMakeDir
  import FatRuns
  import opened FatDisk

  // ----- A cluster filled sector by sector -----

  /** The first `s` sectors of a cluster overwritten with zeros. */
  function ZeroedTo(b: seq<nat>, s: nat): (r: seq<nat>)
    requires 512 * s <= |b|
    ensures |r| == |b|
  {
    Zeros(512 * s) + b[512 * s..]
  }

  lemma ZeroedStep(b: seq<nat>, s: nat)
    requires 512 * s + 512 <= |b|
    ensures Splice(ZeroedTo(b, s), 512 * s, Zeros(512)) == ZeroedTo(b, s + 1)
  {
  }

  // ----- Searching cluster by cluster -----

  datatype Scan = Hit(slot: nat) | Mark | More

  /** One cluster of a search: a match, the end mark, or neither. */
  function ScanFrom(slots: seq<Raw>, name: seq<nat>, j: nat): (r: Scan)
    requires Table(slots) && j <= |slots|
    ensures r.Hit? ==> j <= r.slot < |slots|
    decreases |slots| - j
  {
    if j == |slots| then More
    else if slots[j][0] == 0 then Mark
    else if Matches(slots[j], name) then Hit(j)
    else ScanFrom(slots, name, j + 1)
  }

  function Shift(r: Option<nat>, n: nat): Option<nat> {
    if r.Some? then Some(r.value + n) else None
  }

  lemma {:induction false} FindTail(a: seq<Raw>, b: seq<Raw>, name: seq<nat>, i: nat)
    requires Table(a) && Table(b) && Table(a + b) && i <= |b|
    ensures FindFrom(a + b, name, |a| + i) == Shift(FindFrom(b, name, i), |a|)
    decreases |b| - i
  {
    hide Matches;
    if i < |b| && b[i][0] != 0 && !Matches(b[i], name) {
      FindTail(a, b, name, i + 1);
    }
  }

  /** A search over the slots of a cluster and then the rest. */
  lemma {:induction false} FindSplit(a: seq<Raw>, b: seq<Raw>, name: seq<nat>, j: nat)
    requires Table(a) && Table(b) && Table(a + b) && j <= |a|
    ensures FindFrom(a + b, name, j) ==
      match ScanFrom(a, name, j) case Hit(k) => Some(k) case Mark => None case More => Shift(Find(b, name), |a|)
    decreases |a| - j
  {
    hide Matches;
    if j == |a| {
      FindTail(a, b, name, 0);
    } else {
      assert (a + b)[j] == a[j];
      if a[j][0] != 0 && !Matches(a[j], name) { FindSplit(a, b, name, j + 1); }
    }
  }

  lemma {:induction false} FreeTail(a: seq<Raw>, b: seq<Raw>, i: nat)
    requires Table(a) && Table(b) && Table(a + b) && i <= |b|
    ensures FreeSlot(a + b, |a| + i) == |a| + FreeSlot(b, i)
    decreases |b| - i
  {
    if i < |b| && !Unused(b[i]) { FreeTail(a, b, i + 1); }
  }

  lemma {:induction false} FreeSplit(a: seq<Raw>, b: seq<Raw>, j: nat)
    requires Table(a) && Table(b) && Table(a + b) && j <= |a|
    ensures FreeSlot(a + b, j) == if FreeSlot(a, j) < |a| then FreeSlot(a, j) else |a| + FreeSlot(b, 0)
    decreases |a| - j
  {
    if j == |a| {
      FreeTail(a, b, 0);
    } else {
      assert (a + b)[j] == a[j];
      if !Unused(a[j]) { FreeSplit(a, b, j + 1); }
    }
  }

  // ----- Where a slot is -----

  /** The position, in the chain, of slot `j` of its `p`-th cluster. */
  function Base(data: seq<seq<nat>>, ch: seq<nat>, p: nat): nat
    requires InBounds(data, ch) && p <= |ch|
    decreases ch
  {
    if p == 0 then 0 else |Cut(data[ch[0]])| + Base(data, ch[1..], p - 1)
  }

  lemma {:induction false} BaseSplits(data: seq<seq<nat>>, ch: seq<nat>, p: nat)
    requires InBounds(data, ch) && p <= |ch|
    ensures InBounds(data, ch[p..]) && |SlotsOf(data, ch)| == Base(data, ch, p) + |SlotsOf(data, ch[p..])|
    ensures SlotsOf(data, ch)[Base(data, ch, p)..] == SlotsOf(data, ch[p..])
    decreases ch
  {
    hide Cut;
    if p == 0 {
      assert ch[0..] == ch;
    } else {
      BaseSplits(data, ch[1..], p - 1);
      assert ch[1..][p - 1..] == ch[p..];
    }
  }

  lemma {:induction false} BaseNext(data: seq<seq<nat>>, ch: seq<nat>, p: nat)
    requires InBounds(data, ch) && p < |ch|
    ensures Base(data, ch, p + 1) == Base(data, ch, p) + |Cut(data[ch[p]])|
    decreases ch
  {
    hide Cut;
    if p > 0 { BaseNext(data, ch[1..], p - 1); }
  }

  /** Overwriting a slot, seen from its cluster. */
  lemma {:induction false} PatchAt(data: seq<seq<nat>>, ch: seq<nat>, p: nat, j: nat, e: Raw)
    requires InBounds(data, ch) && p < |ch| && j < |Cut(data[ch[p]])| && |e| == 32
    ensures Base(data, ch, p) + j < |SlotsOf(data, ch)| && 32 * j + 32 <= |data[ch[p]]|
    ensures PatchSlot(data, ch, Base(data, ch, p) + j, e) == data[ch[p] := Splice(data[ch[p]], 32 * j, e)]
    ensures SlotsOf(data, ch)[Base(data, ch, p) + j] == Cut(data[ch[p]])[j]
    decreases ch
  {
    if p > 0 {
      PatchAt(data, ch[1..], p - 1, j, e);
    }
  }

  /** Writing a slot into its sector, then the sector into its cluster. */
  lemma SpliceTwice(b: seq<nat>, s: nat, k: nat, e: Raw)
    requires 512 * s + 512 <= |b| && k < 16 && |e| == 32
    ensures Splice(b, 512 * s, Splice(b[512 * s..512 * s + 512], 32 * k, e)) == Splice(b, 32 * (16 * s + k), e)
  {
    var o, p := 512 * s, 32 * k;
    assert 32 * (16 * s + k) == o + p;
    var c := b[o..o + 512];
    assert b[..o] + c[..p] == b[..o + p] && c[p + 32..] + b[o + 512..] == b[o + p + 32..];
    assert b[..o] + (c[..p] + e + c[p + 32..]) + b[o + 512..] == (b[..o] + c[..p]) + e + (c[p + 32..] + b[o + 512..]);
  }

  /** The slots of a cluster, sector by sector. */
  lemma SectorSlot(b: seq<nat>, s: nat, k: nat)
    requires 512 * s + 512 <= |b| && k < 16
    ensures 16 * s + k < |Cut(b)| && Cut(b)[16 * s + k] == b[512 * s..512 * s + 512][32 * k..32 * k + 32]
  {
    var o, p := 512 * s, 32 * k;
    assert 32 * (16 * s + k) == o + p && o + p + 32 <= |b|;
    assert 16 * s + k < |b| / 32;
    SliceTwice(b, o, p);
  }

  lemma SliceTwice(b: seq<nat>, o: nat, p: nat)
    requires o + 512 <= |b| && p + 32 <= 512
    ensures b[o..o + 512][p..p + 32] == b[o + p..o + p + 32]
  {
    var x, y := b[o..o + 512][p..p + 32], b[o + p..o + p + 32];
    assert |x| == |y| == 32;
    forall i | 0 <= i < 32 ensures x[i] == y[i] { assert x[i] == b[o + p + i]; }
  }

  // ----- Reading and filling cluster by cluster -----

  lemma ContentStep(data: seq<seq<nat>>, ch: seq<nat>, size: nat)
    requires InBounds(data, ch) && ch != []
    ensures var n := Least(size, |data[ch[0]]|);
      Content(data, ch, size) == data[ch[0]][..n] + Content(data, ch[1..], size - n)
  {
  }

  lemma OverlayIs(b: seq<nat>, x: seq<nat>, s: nat)
    requires |b| % 512 == 0 && |x| <= 512 * s <= |b| && |x| > 512 * s - 512
    ensures Overlay(b, x) == x + Zeros(512 * s - |x|) + b[512 * s..]
  {
    hide Zeros;
    if |x| == 512 * s {
      assert |x| % 512 == 0;
    } else {
      assert |x| % 512 == |x| - (512 * s - 512);
    }
    assert (512 - |x| % 512) % 512 == 512 * s - |x|;
  }

  lemma OverlayStep(b: seq<nat>, chunk: seq<nat>, s: nat, t: nat)
    requires |b| % 512 == 0 && |chunk| <= |b| && 512 * s < |chunk| && t == Least(|chunk| - 512 * s, 512)
    ensures 512 * s + 512 <= |b|
    ensures Splice(Overlay(b, chunk[..512 * s]), 512 * s, chunk[512 * s..512 * s + t] + Zeros(512 - t)) ==
      Overlay(b, chunk[..512 * s + t])
  {
    hide Overlay;
    assert 512 * s + 512 <= |b| by { assert |b| == 512 * (|b| / 512); }
    var x, y, z := chunk[..512 * s], chunk[512 * s..512 * s + t], Zeros(512 - t);
    OverlayIs(b, x, s);
    OverlayIs(b, chunk[..512 * s + t], s + 1);
    assert chunk[..512 * s + t] == x + y;
    assert (x + b[512 * s..])[512 * s + 512..] == b[512 * s + 512..];
  }

  lemma OverlayNone(b: seq<nat>)
    requires |b| % 512 == 0
    ensures Overlay(b, []) == b
  {
  }

  /** The end of a chain, and its links, as the loops meet them. */
  lemma ChainWalk(v: Vol, head: nat, ch: seq<nat>, p: nat)
    requires Shape(v) && Linked(v.fat, head, ch) && p < |ch|
    ensures 2 <= ch[p] < |v.fat| && v.fat[ch[p]] == (if p + 1 < |ch| then ch[p + 1] else v.fat[ch[p]])
    ensures p + 1 < |ch| ==> Chained(v.fat[ch[p]])
    ensures p + 1 == |ch| ==> v.fat[ch[p]] >= END
  {
    assert Link(v.fat, ch, p);
    if p + 1 < |ch| { assert Link(v.fat, ch, p + 1); }
  }

  class Fat32Fs {
    const g: Geo
    var disk: seq<Sector>

    ghost predicate Valid()
      reads this
    {
      GeoOk(g, disk) && Mirrored(g, disk)
    }

    ghost function View(): Vol
      requires Valid()
      reads this
    {
      ViewOf(g, disk)
    }

    constructor (g: Geo, disk: seq<Sector>)
      requires GeoOk(g, disk) && Mirrored(g, disk)
      ensures Valid() && this.g == g && this.disk == disk
    {
      this.g := g;
      this.disk := disk;
    }

    method ReadFatEntry(c: nat) returns (value: nat)
      requires Valid() && c < g.total + 2
      ensures value == View().fat[c]
    {
      hide GeoOk, Mirrored, Copy, Lba;
      EntryOnDisk(g, disk, c);
      var offset := c * 4;
      assert offset / 512 == c / 128 && offset % 512 == 4 * (c % 128);
      var buf := disk[g.fatStart + offset / 512];
      var o := offset % 512;
      value := (buf[o] + 256 * buf[o + 1] + 65536 * buf[o + 2] + 16777216 * buf[o + 3]) % 0x1000_0000;
    }

    static method PutEntry(sector: Sector, o: nat, value: nat) returns (buf: Sector)
      requires o + 4 <= |sector|
      ensures buf == PutWord(sector, o, value)
    {
      buf := sector;
      var top := buf[o + 3] / 16 * 16;
      buf := buf[o := value % 256];
      buf := buf[o + 1 := value / 256 % 256];
      buf := buf[o + 2 := value / 65536 % 256];
      buf := buf[o + 3 := value / 16777216 % 16 + top];
    }

    /** The entry is written into every copy of the table; the top four bits of its last byte stay. */
    method WriteFatEntry(c: nat, value: nat)
      requires Valid() && c < g.total + 2
      modifies `disk
      ensures Valid() && |disk| == |old(disk)|
      ensures View() == old(View()).(fat := old(View()).fat[c := value % 0x1000_0000])
    {
      hide Mirrored, Copy, PutWord, ViewOf, Lba;
      EntryOnDisk(g, disk, c);
      ghost var was := disk;
      var offset := c * 4;
      assert offset / 512 == c / 128 && offset % 512 == 4 * (c % 128);
      var j, o := offset / 512, offset % 512;
      ghost var buf0 := PutWord(was[g.fatStart + j], o, value);
      var k := 0;
      while k < g.nfats
        invariant 0 <= k <= g.nfats && GeoOk(g, disk) && |disk| == |was|
        invariant forall i | 0 <= i < k :: Copy(g, i) + j < |disk| && disk[Copy(g, i) + j] == buf0
        invariant forall x | 0 <= x < |was| && (forall i | 0 <= i < k :: x != Copy(g, i) + j) :: disk[x] == was[x]
      {
        CopyRead(g, was, k, j);
        forall i | 0 <= i < k
          ensures Copy(g, i) != Copy(g, k) { if Copy(g, i) == Copy(g, k) { CopiesApart(g, i, j, k, j); } }
        var lba := Copy(g, k) + j;
        var buf := PutEntry(disk[lba], o, value);
        disk := disk[lba := buf];
        k := k + 1;
      }
      TableWrite(g, was, disk, c, value);
    }

    /** The lowest free cluster from 3 on, ended, linked after `prev` and zeroed. */
    method AllocateCluster(prev: Option<nat>) returns (r: Option<nat>)
      requires Valid() && Shape(View()) && (prev.Some? ==> prev.value < g.total + 2)
      modifies `disk
      ensures Valid() && (r, View()) == Allocate(old(View()), prev)
    {
      hide GeoOk, Mirrored, ViewOf, Shape;
      ghost var v0 := View();
      LimitSmall(v0);
      SomeCopies(g, disk);
      var c := 3;
      while c < g.total
        invariant 3 <= c && disk == old(disk)
        invariant FirstFree(v0.fat, 3, g.total) == FirstFree(v0.fat, c, g.total)
      {
        var entry := ReadFatEntry(c);
        if entry == 0 {
          WriteFatEntry(c, EOC);
          if prev.Some? { WriteFatEntry(prev.value, c); }
          ZeroCluster(c);
          return Some(c);
        }
        c := c + 1;
      }
      r := None;
    }

    method ZeroCluster(c: nat)
      requires Valid() && 2 <= c < g.total + 2
      modifies `disk
      ensures Valid() && View() == old(View()).(data := old(View()).data[c := Zeros(512 * g.spc)])
    {
      hide Mirrored, Lba, Zeros;
      ghost var v0 := View();
      var lba, zero := Lba(g, c), Zeros(512);
      var s := 0;
      assert v0.data[c := ZeroedTo(v0.data[c], 0)] == v0.data by { assert ZeroedTo(v0.data[c], 0) == v0.data[c]; }
      while s < g.spc
        invariant 0 <= s <= g.spc && Valid() && View() == v0.(data := v0.data[c := ZeroedTo(v0.data[c], s)])
      {
        SectorWrite(g, disk, c, s, zero);
        ZeroedStep(v0.data[c], s);
        disk := disk[lba + s := zero];
        s := s + 1;
      }
      assert ZeroedTo(v0.data[c], g.spc) == Zeros(512 * g.spc);
    }

    /** `free_cluster_chain`. */
    method FreeClusterChain(first: nat)
      requires Valid() && Closed(View().fat) && InTable(View().fat, first)
      modifies `disk
      ensures Valid() && View() == old(View()).(fat := FreeChain(old(View()).fat, first))
    {
      hide GeoOk, Mirrored, ViewOf, Closed, NonZero;
      ghost var v0 := View();
      var cluster := first;
      while 2 <= cluster < END
        invariant Valid() && Closed(View().fat) && cluster >= 0 && InTable(View().fat, cluster)
        invariant View() == v0.(fat := View().fat)
        invariant FreeChain(View().fat, cluster) == FreeChain(v0.fat, first)
        decreases NonZero(View().fat), if Chained(cluster) then 1 else 0
      {
        ghost var fat := View().fat;
        var next := ReadFatEntry(cluster);
        WriteFatEntry(cluster, 0);
        NonZeroDrops(fat, cluster);
        ClosedDrop(fat, cluster);
        LinkInTable(fat, cluster);
        assert View().fat == fat[cluster := 0];
        cluster := next;
      }
    }

    // ----- Directories -----

    /** The sector and slot loops of a search, for one cluster. */
    method ScanCluster(c: nat, name: seq<nat>) returns (r: Scan)
      requires Valid() && 2 <= c < g.total + 2
      ensures r == ScanFrom(Cut(View().data[c]), name, 0)
    {
      hide GeoOk, Mirrored, Matches, Lba, Cut, ViewOf;
      ghost var b := View().data[c];
      ClusterLength(g, disk, c);
      ghost var slots := Cut(b);
      var s := 0;
      while s < g.spc
        invariant 0 <= s <= g.spc && ScanFrom(slots, name, 16 * s) == ScanFrom(slots, name, 0)
      {
        SectorRead(g, disk, c, s);
        var buf := disk[Lba(g, c) + s];
        var i := 0;
        while i < 16
          invariant 0 <= i <= 16 && ScanFrom(slots, name, 16 * s + i) == ScanFrom(slots, name, 0)
        {
          SectorSlot(b, s, i);
          var e := buf[32 * i..32 * i + 32];
          if e[0] == 0 { return Mark; }
          if Matches(e, name) { return Hit(16 * s + i); }
          i := i + 1;
        }
        s := s + 1;
      }
      r := More;
    }

    /** `find_entry_in_dir`: the cluster and the slot in it. */
    method FindEntryInDir(first: nat, name: seq<nat>, ghost ch: seq<nat>) returns (r: Option<(nat, nat)>, ghost p: nat)
      requires Valid() && Shape(View()) && Linked(View().fat, first, ch) && InBounds(View().data, ch)
      ensures match r
        case None => Find(SlotsOf(View().data, ch), name) == None
        case Some((c, j)) =>
          && p < |ch| && ch[p] == c && 2 <= c < g.total + 2 && j < |Cut(View().data[c])|
          && Find(SlotsOf(View().data, ch), name) == Some(Base(View().data, ch, p) + j)
    {
      hide GeoOk, Mirrored, Matches, ViewOf, Cut, Linked, Shape, FindFrom, SlotsOf;
      ghost var data := View().data;
      var cluster := first;
      p := 0;
      r := None;
      assert ch[0..] == ch;
      LinkedHead(View().fat, first, ch);
      while 2 <= cluster < END
        invariant p <= |ch| && cluster >= 0
        invariant (if p < |ch| then cluster == ch[p] && Chained(cluster) else !Chained(cluster))
        invariant InBounds(data, ch[p..])
        invariant Find(SlotsOf(data, ch), name) == Shift(Find(SlotsOf(data, ch[p..]), name), Base(data, ch, p))
        decreases |ch| - p
      {
        ChainWalk(View(), first, ch, p);
        FindNext(data, ch, p, name);
        BaseNext(data, ch, p);
        var scan := ScanCluster(cluster, name);
        match scan {
          case Hit(j) => return Some((cluster, j)), p;
          case Mark => return None, p;
          case More =>
        }
        cluster := ReadFatEntry(cluster);
        p := p + 1;
      }
      FindNothing(data, ch[p..], name);
    }

    /** Overwrite slot `j` of a cluster: read its sector, change it, write it back. */
    method PatchEntry(c: nat, j: nat, e: Raw)
      requires Valid() && 2 <= c < g.total + 2 && j < 16 * g.spc && |e| == 32
      modifies `disk
      ensures Valid() && 32 * j + 32 <= |old(View()).data[c]|
      ensures View() == old(View()).(data := old(View()).data[c := Splice(old(View()).data[c], 32 * j, e)])
    {
      hide GeoOk, Mirrored, Lba;
      var s, k := j / 16, j % 16;
      SectorRead(g, disk, c, s);
      var buf := disk[Lba(g, c) + s];
      buf := buf[..32 * k] + e + buf[32 * k + 32..];
      SectorWrite(g, disk, c, s, buf);
      SpliceTwice(View().data[c], s, k, e);
      disk := disk[Lba(g, c) + s := buf];
    }

    // ----- File data -----

    method ReadCluster(c: nat, left: nat) returns (chunk: seq<nat>)
      requires Valid() && 2 <= c < g.total + 2
      ensures chunk == View().data[c][..Least(left, 512 * g.spc)]
    {
      hide GeoOk, Mirrored, Lba;
      ghost var b := View().data[c];
      chunk := [];
      var s := 0;
      while s < g.spc && |chunk| < left
        invariant 0 <= s <= g.spc && |chunk| == Least(left, 512 * s) && chunk == b[..|chunk|]
      {
        SectorRead(g, disk, c, s);
        var buf := disk[Lba(g, c) + s];
        var n := Least(left - |chunk|, 512);
        assert b[..512 * s] + b[512 * s..512 * s + 512][..n] == b[..512 * s + n];
        chunk := chunk + buf[..n];
        s := s + 1;
      }
    }

    /** The read loop of `read_file`. */
    method ReadChain(first: nat, size: nat, ghost ch: seq<nat>) returns (bytes: seq<nat>)
      requires Valid() && Shape(View()) && Linked(View().fat, first, ch) && InBounds(View().data, ch)
      ensures bytes == Content(View().data, ch, size)
    {
      hide GeoOk, Mirrored, ViewOf, Linked, Content;
      ghost var data := View().data;
      var cluster, left := first, size;
      ghost var p := 0;
      bytes := [];
      assert ch[0..] == ch;
      LinkedHead(View().fat, first, ch);
      while 2 <= cluster < END && left > 0
        invariant 0 <= p <= |ch| && cluster >= 0 && left >= 0
        invariant (if p < |ch| then cluster == ch[p] && Chained(cluster) else !Chained(cluster))
        invariant InBounds(data, ch[p..]) && Content(data, ch, size) == bytes + Content(data, ch[p..], left)
        decreases |ch| - p
      {
        ChainWalk(View(), first, ch, p);
        ContentStep(data, ch[p..], left);
        assert ch[p..][1..] == ch[p + 1..];
        var chunk := ReadCluster(cluster, left);
        bytes := bytes + chunk;
        left := left - |chunk|;
        cluster := ReadFatEntry(cluster);
        p := p + 1;
      }
      ContentEnd(data, ch[p..], left);
    }

    method FillCluster(c: nat, bytes: seq<nat>)
      requires Valid() && Shape(View()) && 2 <= c < g.total + 2 && Chained(c) && InTable(View().fat, c)
      modifies `disk
      ensures Valid() && View() == FillOne(old(View()), c, bytes)
    {
      hide GeoOk, Mirrored, Lba, ViewOf, Shape, Closed, Overlay;
      ghost var v0 := View();
      ShapeAt(v0, c);
      ghost var b := v0.data[c];
      ghost var chunk := bytes[..Least(512 * g.spc, |bytes|)];
      var written, s := 0, 0;
      OverlayNone(b);
      assert chunk[..0] == [];
      assert v0.data[c := b] == v0.data;
      while s < g.spc && written < |bytes|
        invariant 0 <= s <= g.spc && 0 <= written == Least(512 * s, |chunk|) && Valid()
        invariant View() == v0.(data := v0.data[c := Overlay(b, chunk[..written])])
      {
        var n := Least(|bytes| - written, 512);
        var sector := bytes[written..written + n] + Zeros(512 - n);
        assert sector == chunk[512 * s..512 * s + n] + Zeros(512 - n);
        OverlayStep(b, chunk, s, n);
        SectorWrite(g, disk, c, s, sector);
        disk := disk[Lba(g, c) + s := sector];
        written := written + n;
        s := s + 1;
      }
      assert chunk[..written] == chunk;
    }

    /** The write loop of `write_file`. */
    method FillChain(first: nat, bytes: seq<nat>)
      requires Valid() && Shape(View()) && InTable(View().fat, first)
      modifies `disk
      ensures Valid() && View() == Fill(old(View()), first, bytes)
    {
      hide GeoOk, Mirrored, ViewOf, Shape, FillOne;
      ghost var v0 := View();
      var cluster, written := first, 0;
      assert bytes[0..] == bytes;
      while 2 <= cluster < END && written < |bytes|
        invariant 0 <= written <= |bytes| && cluster >= 0 && Valid() && Shape(View()) && InTable(View().fat, cluster)
        invariant Fill(View(), cluster, bytes[written..]) == Fill(v0, first, bytes)
        decreases |bytes| - written
      {
        ghost var v := View();
        ShapeAt(v, cluster);
        var n := Least(512 * g.spc, |bytes| - written);
        FillCluster(cluster, bytes[written..]);
        assert bytes[written..][n..] == bytes[written + n..];
        written := written + n;
        cluster := ReadFatEntry(cluster);
      }
    }

    // ----- Operations -----

    /** The first slot of a cluster that is not in use. */
    method FreeInCluster(c: nat) returns (j: nat)
      requires Valid() && 2 <= c < g.total + 2
      ensures j == FreeSlot(Cut(View().data[c]), 0)
    {
      hide GeoOk, Mirrored, Lba, Unused, Cut, ViewOf;
      ghost var b := View().data[c];
      ClusterLength(g, disk, c);
      ghost var slots := Cut(b);
      var s := 0;
      while s < g.spc
        invariant 0 <= s <= g.spc && FreeSlot(slots, 16 * s) == FreeSlot(slots, 0)
      {
        SectorRead(g, disk, c, s);
        var buf := disk[Lba(g, c) + s];
        var i := 0;
        while i < 16
          invariant 0 <= i <= 16 && FreeSlot(slots, 16 * s + i) == FreeSlot(slots, 0)
        {
          SectorSlot(b, s, i);
          if Unused(buf[32 * i..32 * i + 32]) { return 16 * s + i; }
          i := i + 1;
        }
        s := s + 1;
      }
      j := 16 * g.spc;
    }

    /** Grow a full directory by one cluster and enter `e` there. */
    method GrowDirectory(last: nat, e: Raw) returns (r: Result<()>)
      requires Valid() && Shape(View()) && last < g.total + 2 && |e| == 32
      modifies `disk
      ensures Valid()
      ensures match Allocate(old(View()), Some(last))
        case (None, _) => r == Err(Full) && View() == old(View())
        case (Some(c), v1) =>
          && r == Ok(()) && c < |v1.data| && |v1.data[c]| >= 32
          && View() == v1.(data := v1.data[c := Splice(v1.data[c], 0, e)])
    {
      hide GeoOk, Mirrored, Lba, ViewOf, Shape, FirstFree;
      ghost var v0 := View();
      LimitSmall(v0);
      SomeCopies(g, disk);
      var c := AllocateCluster(Some(last));
      if c == None { return Err(Full); }
      var sector := e + Zeros(480);
      SectorWrite(g, disk, c.value, 0, sector);
      assert Splice(Zeros(512 * g.spc), 0, sector) == Splice(Zeros(512 * g.spc), 0, e);
      disk := disk[Lba(g, c.value) := sector];
      r := Ok(());
    }

    /** `insert_dir_entry`. */
    method InsertDirEntry(first: nat, e: Raw, ghost chs: Chains) returns (r: Result<()>)
      requires Valid() && WellFormed(View(), chs) && |e| == 32 && (first in chs.dirs || !Chained(first))
      modifies `disk
      ensures Valid() && (r, View()) == InsertIn(old(View()), chs, first, e)
    {
      hide GeoOk, Mirrored, ViewOf, Cut, WellFormed, Shape, Linked, ZeroTail, UniqueNames, SlotsAt, InsertIn, Unused,
        Allocate, SlotsOf, FreeSlot, Splice;
      ghost var v0, ch := View(), ChainOf(chs, OfDir(first));
      ghost var data := v0.data;
      DirOrNothing(v0, chs, first);
      var cluster := first;
      ghost var p := 0;
      assert ch[0..] == ch;
      while 2 <= cluster < END
        invariant cluster >= 0 && disk == old(disk)
        invariant if Chained(first) then 0 <= p < |ch| && cluster == ch[p] && Chained(cluster) else cluster == first
        invariant Chained(first) ==>
          && InBounds(data, ch[p..])
          && FreeSlot(SlotsOf(data, ch), 0) == Base(data, ch, p) + FreeSlot(SlotsOf(data, ch[p..]), 0)
        decreases |ch| - p
      {
        ChainWalk(v0, first, ch, p);
        FreeNext(data, ch, p);
        BaseNext(data, ch, p);
        BaseSplits(data, ch, p);
        CutLength(v0, cluster);
        var j := FreeInCluster(cluster);
        if j < 16 * g.spc {
          PatchAt(data, ch, p, j, e);
          PatchEntry(cluster, j, e);
          InsertSlot(v0, chs, first, e, Base(data, ch, p) + j);
          return Ok(());
        }
        var next := ReadFatEntry(cluster);
        if next >= END {
          AllFull(data, ch, p);
          r := GrowDirectory(cluster, e);
          InsertLast(v0, chs, first, e);
          return;
        }
        cluster := next;
        p := p + 1;
      }
      InsertNowhere(v0, chs, first, e);
      r := Err(NoSlot);
    }

    /** Allocate a chain of `k` clusters, or as many as there are. */
    method AllocateChain(k: nat) returns (first: nat, count: nat, ghost l: seq<nat>)
      requires Valid() && Shape(View())
      modifies `disk
      ensures Valid() && (l, View()) == AllocateMany(old(View()), k, None) && count == |l|
      ensures count > 0 ==> first == l[0]
    {
      hide GeoOk, Mirrored, ViewOf, Allocate, Shape, AllocateMany;
      ghost var v0 := View();
      LimitSmall(v0);
      var prev: Option<nat> := None;
      first, count, l := 0, 0, [];
      assert l + AllocateMany(v0, k, None).0 == AllocateMany(v0, k, None).0;
      while count < k
        invariant 0 <= count == |l| <= k && Valid() && Shape(View())
        invariant (prev.Some? ==> prev.value < g.total + 2 && View().fat[prev.value] != 0)
        invariant (count > 0 ==> first == l[0])
        invariant l + AllocateMany(View(), k - count, prev).0 == AllocateMany(v0, k, None).0
        invariant AllocateMany(View(), k - count, prev).1 == AllocateMany(v0, k, None).1
        decreases k - count
      {
        ghost var v := View();
        ManyStep(v, k - count, prev);
        AllocatedShape(v, prev);
        var c := AllocateCluster(prev);
        if c == None {
          assert l + [] == l;
          return;
        }
        if count == 0 { first := c.value; }
        LimitSmall(View());
        ghost var rest := AllocateMany(View(), k - count - 1, c).0;
        assert l + ([c.value] + rest) == (l + [c.value]) + rest;
        l := l + [c.value];
        count := count + 1;
        prev := c;
      }
      LimitSmall(View());
      ManyNone(View(), prev);
      assert l + [] == l;
    }

    /** `resolve_path` for a directory. */
    method ResolveDirectory(path: Path, ghost chs: Chains) returns (r: Result<nat>)
      requires Valid() && WellFormed(View(), chs) && FilesOk(Meaning(View(), chs))
      ensures r == DirectoryFrom(Meaning(View(), chs), g.root, path)
      ensures r.Ok? ==> r.value in chs.dirs || !Chained(r.value)
    {
      hide GeoOk, Mirrored, ViewOf, WellFormed, FilesOk, Find, IsDir, ClusterOf, SlotsAt, Shape, Linked, Cut, BytesAt,
        SlotsOf;
      ghost var v, fs := View(), Meaning(View(), chs);
      RootKnown(v, chs);
      var curr, i := g.root, 0;
      assert path[0..] == path;
      while i < |path|
        invariant 0 <= i <= |path| && curr >= 0 && (curr in chs.dirs || !Chained(curr))
        invariant DirectoryFrom(fs, curr, path[i..]) == DirectoryFrom(fs, g.root, path)
        decreases |path| - i
      {
        assert path[i..][0] == path[i] && path[i..][1..] == path[i + 1..];
        SlotsMean(v, chs, curr);
        DirTable(fs, curr);
        var found, e, _, _ := Lookup(curr, path[i], chs);
        if !found { return Err(DirectoryMissing); }
        if !IsDir(e) { return Err(NotADirectory); }
        EntryKnown(v, chs, curr, path[i]);
        curr := ClusterOf(e);
        i := i + 1;
      }
      r := Ok(curr);
    }

    /** Search a directory by its first cluster and read the entry found. */
    method Lookup(dir: nat, name: seq<nat>, ghost chs: Chains) returns (found: bool, e: Raw, at: (nat, nat),
        ghost p: nat)
      requires Valid() && WellFormed(View(), chs) && (dir in chs.dirs || !Chained(dir))
      ensures found <==> Find(SlotsAt(View(), chs, dir), name).Some?
      ensures found ==>
        e == SlotsAt(View(), chs, dir)[Find(SlotsAt(View(), chs, dir), name).value] && |e| == 32 && dir in chs.dirs
      ensures found ==> Located(View(), chs, dir, Find(SlotsAt(View(), chs, dir), name).value, at, p)
    {
      hide GeoOk, Mirrored, ViewOf, WellFormed, Shape, Linked, Cut, Lba, SlotsOf, Find;
      ghost var v := View();
      ShapeOf(v, chs);
      e, at, p := [], (0, 0), 0;
      if !(2 <= dir < END) {
        NothingThere(v, chs, dir, name);
        return false, e, at, p;
      }
      DirAtOk(v, chs, dir);
      ghost var ch := chs.dirs[dir];
      var r;
      r, p := FindEntryInDir(dir, name, ch);
      if r == None { return false, e, at, p; }
      at := r.value;
      found := true;
      CutLength(v, at.0);
      var s, k := at.1 / 16, at.1 % 16;
      SectorRead(g, disk, at.0, s);
      SectorSlot(v.data[at.0], s, k);
      e := disk[Lba(g, at.0) + s][32 * k..32 * k + 32];
      PatchAt(v.data, ch, p, at.1, Zeros(32));
    }

    /** Release the chain of an entry, then overwrite the entry. */
    method ReplaceEntry(cluster: nat, at: (nat, nat), e: Raw, ghost dir: nat, ghost i: nat, ghost p: nat,
        ghost chs: Chains)
      requires Valid() && Replaceable(View(), chs, dir, i, e) && Located(View(), chs, dir, i, at, p)
      requires cluster == ClusterOf(SlotsAt(View(), chs, dir)[i])
      modifies `disk
      ensures Valid() && View() == Replace(old(View()), chs, dir, i, e)
    {
      hide GeoOk, Mirrored, ViewOf, FileAt, ClusterOf, SlotsAt, FreeChain, Splice;
      ghost var v := View();
      CutLength(v, at.0);
      PatchAt(v.data, chs.dirs[dir], p, at.1, e);
      FreeClusterChain(cluster);
      PatchEntry(at.0, at.1, e);
    }

    /** `read_file`. */
    method ReadFile(path: Path, ghost chs: Chains) returns (r: Result<seq<nat>>)
      requires Valid() && WellFormed(View(), chs) && FilesOk(Meaning(View(), chs))
      ensures r == FatRuns.ReadFile(View(), chs, path)
    {
      hide GeoOk, Mirrored, ViewOf, WellFormed, FilesOk, Find, IsDir, ClusterOf, SizeOf, SlotsAt, Shape, Linked,
        Content, DirectoryFrom, ReadFrom, PatchSlot, BytesAt;
      ghost var v, fs := View(), Meaning(View(), chs);
      if path == [] {
        ReadNothing(fs, g.root);
        return Err(IsADirectory);
      }
      var home := ResolveDirectory(FatRuns.Parent(path), chs);
      ReadThrough(fs, g.root, path);
      if home.Err? { return Err(home.error); }
      SlotsMean(v, chs, home.value);
      DirTable(fs, home.value);
      ReadHere(fs, home.value, FatRuns.Last(path));
      var found, e, _, _ := Lookup(home.value, FatRuns.Last(path), chs);
      if !found { return Err(NotFound); }
      if IsDir(e) { return Err(IsADirectory); }
      ghost var k := (home.value, Find(SlotsAt(v, chs, home.value), FatRuns.Last(path)).value);
      FileChain(v, chs, home.value, FatRuns.Last(path));
      var bytes := ReadChain(ClusterOf(e), SizeOf(e), chs.files[k]);
      r := Ok(bytes);
    }

    /** Allocate a chain and store the bytes in it. */
    method StageBytes(bytes: seq<nat>) returns (first: nat, ok: bool, ghost l: seq<nat>)
      requires Valid() && Shape(View())
      modifies `disk
      ensures Valid() && (l, View()) == Stage(old(View()), bytes) && (ok <==> l != []) && (ok ==> first == l[0])
    {
      hide GeoOk, Mirrored, ViewOf, AllocateMany, Shape, Fill, Allocated;
      SomeCopies(g, disk);
      ghost var v0 := View();
      var size := g.spc * 512;
      var needed := (|bytes| + size - 1) / size;
      if needed == 0 { needed := 1; }
      assert needed == Needed(v0, |bytes|);
      AllocateManyOk(v0, needed, None);
      AllocatedHead(v0, needed);
      var count;
      first, count, l := AllocateChain(needed);
      if count < needed { return first, false, []; }
      FillChain(first, bytes);
      ok := true;
    }

    /** `write_file`. */
    method WriteFile(path: Path, bytes: seq<nat>, ghost chs: Chains) returns (r: Result<()>)
      requires Valid() && FatRuns.MayWrite(View(), chs, path) && FilesOk(Meaning(View(), chs))
      modifies `disk
      ensures Valid() && r == FatRuns.WriteFile(old(View()), chs, path, bytes).0
      ensures View() == FatRuns.WriteFile(old(View()), chs, path, bytes).1
    {
      hide GeoOk, Mirrored, ViewOf, WellFormed, FilesOk, DirectoryFrom, Meaning, FatTheorems.WriteAt,
        FatTheorems.ChainsAfter, FatTheorems.Writable;
      if path == [] { return Err(BadName); }
      var home := ResolveDirectory(FatRuns.Parent(path), chs);
      if home.Err? { return Err(home.error); }
      r := WriteIn(home.value, FatRuns.Last(path), bytes, chs);
    }

    method WriteIn(dir: nat, name: seq<nat>, bytes: seq<nat>, ghost chs: Chains) returns (r: Result<()>)
      requires Valid() && FatTheorems.Writable(View(), chs, dir, name) && (dir in chs.dirs || !Chained(dir))
      modifies `disk
      ensures Valid() && (r, View()) == FatTheorems.WriteAt(old(View()), chs, dir, name, bytes)
    {
      hide GeoOk, Mirrored, ViewOf, WellFormed, Find, IsDir, ClusterOf, SlotsAt, Shape, PatchSlot, Stage, EightThree,
        Meaning, Spare, Content, FreeChain, InsertIn, Linked, Splice, Retarget;
      ghost var v0 := View();
      ShapeOf(v0, chs);
      StageOk(v0, chs, bytes);
      StageForm(v0, bytes);
      var found, e, at, p := Lookup(dir, name, chs);
      var first, ok, l := StageBytes(bytes);
      if !ok { return Err(Full); }
      ghost var v2 := View();
      FatTheorems.SameSlots(v0, v2, chs, dir);
      if found {
        FatTheorems.FoundFile(v0, v2, chs, dir, name);
        ghost var i := Find(SlotsAt(v0, chs, dir), name).value;
        var e' := Retarget(e, first, |bytes| % 0x1_0000_0000);
        ReplaceableOk(v2, chs, dir, i, e');
        LocatedSame(v0, v2, chs, dir, i, at, p);
        ReplaceEntry(ClusterOf(e), at, e', dir, i, p, chs);
        r := Ok(());
      } else {
        r := InsertDirEntry(dir, NewEntry(ShortName(name), ARCHIVE, first, |bytes| % 0x1_0000_0000), chs);
      }
    }

    /** `delete_entry`, for files. */
    method DeleteEntry(path: Path, ghost chs: Chains) returns (r: Result<()>)
      requires Valid() && FatRuns.MayDelete(View(), chs, path) && FilesOk(Meaning(View(), chs))
      modifies `disk
      ensures Valid() && r == FatRuns.DeleteFile(old(View()), chs, path).0
      ensures View() == FatRuns.DeleteFile(old(View()), chs, path).1
    {
      hide GeoOk, Mirrored, ViewOf, WellFormed, FilesOk, DirectoryFrom, Meaning, SlotsAt, Find, IsDir, ClusterOf,
        Replace, Replaceable, FileAt, Located, Deleted;
      if path == [] { return Err(BadName); }
      var home := ResolveDirectory(FatRuns.Parent(path), chs);
      if home.Err? { return Err(home.error); }
      ghost var v := View();
      var name := FatRuns.Last(path);
      var found, e, at, p := Lookup(home.value, name, chs);
      if !found { return Err(NotFound); }
      FatRuns.DeleteTarget(v, chs, home.value, name);
      ReplaceEntry(ClusterOf(e), at, Deleted(e), home.value, Find(SlotsAt(v, chs, home.value), name).value, p, chs);
      r := Ok(());
    }

    /** Allocate the cluster of a new directory and write its dot entries. */
    method MakeCluster(dir: nat) returns (r: Option<nat>)
      requires Valid() && Shape(View())
      modifies `disk
      ensures Valid() && (r, View()) == FatMakeDir.NewDir(old(View()), dir)
    {
      hide GeoOk, Mirrored, Lba, ViewOf, Shape, FirstFree, FatMakeDir.DotEntry, FatMakeDir.DotDotEntry;
      ghost var v0 := View();
      LimitSmall(v0);
      SomeCopies(g, disk);
      r := AllocateCluster(None);
      if r == None { return; }
      var dots := FatMakeDir.DotEntry(r.value) + FatMakeDir.DotDotEntry(if dir == g.root then 0 else dir);
      var sector := dots + Zeros(448);
      SectorWrite(g, disk, r.value, 0, sector);
      assert Splice(Zeros(512 * g.spc), 0, sector) == Splice(Zeros(512 * g.spc), 0, dots);
      disk := disk[Lba(g, r.value) := sector];
    }

    /** `create_dir`. */
    method CreateDir(path: Path, ghost chs: Chains) returns (r: Result<nat>)
      requires Valid() && FatRuns.MayMkdir(View(), chs, path) && FilesOk(Meaning(View(), chs))
      modifies `disk
      ensures Valid() && r == FatRuns.CreateDir(old(View()), chs, path).0
      ensures View() == FatRuns.CreateDir(old(View()), chs, path).1
    {
      hide GeoOk, Mirrored, ViewOf, WellFormed, FilesOk, DirectoryFrom, Meaning, SlotsAt, Find, Located, Shape,
        FatMakeDir.NewDir, EightThree, NewEntry, FatMakeDir.Fledgling, InsertIn, Agrees, FatMakeDir.MkdirChains;
      if path == [] { return Err(BadName); }
      var home := ResolveDirectory(FatRuns.Parent(path), chs);
      if home.Err? { return Err(home.error); }
      ghost var v := View();
      var dir, name := home.value, FatRuns.Last(path);
      var found, _, _, _ := Lookup(dir, name, chs);
      if found { return Err(AlreadyExists); }
      ShapeOf(v, chs);
      FatMakeDir.NewDirOk(v, chs, dir);
      var c := MakeCluster(dir);
      if c == None { return Err(Full); }
      Frame(v, View(), chs);
      var inserted := InsertDirEntry(dir, NewEntry(ShortName(name), DIRECTORY, c.value, 0), chs);
      r := if inserted.Ok? then Ok(c.value) else Err(inserted.error);
    }
  }

  /** Slot `i` of a directory is slot `at.1` of cluster `at.0`, the `p`-th of its chain. */
  ghost predicate Located(v: Vol, chs: Chains, dir: nat, i: nat, at: (nat, nat), p: nat) {
    && dir in chs.dirs && InBounds(v.data, chs.dirs[dir]) && p < |chs.dirs[dir]|
    && at.0 == chs.dirs[dir][p] && 2 <= at.0 < |v.fat| && at.1 < 16 * v.spc
    && i == Base(v.data, chs.dirs[dir], p) + at.1
  }

  lemma {:induction false} BaseSame(v: Vol, v': Vol, ch: seq<nat>, p: nat)
    requires Shape(v) && Shape(v') && SameForm(v, v') && p <= |ch| && forall i | 0 <= i < |ch| :: 2 <= ch[i] < |v.fat|
    ensures InBounds(v.data, ch) && InBounds(v'.data, ch) && Base(v'.data, ch, p) == Base(v.data, ch, p)
    decreases ch
  {
    if p > 0 {
      CutLength(v, ch[0]);
      CutLength(v', ch[0]);
      BaseSame(v, v', ch[1..], p - 1);
    }
  }

  lemma LocatedSame(v: Vol, v': Vol, chs: Chains, dir: nat, i: nat, at: (nat, nat), p: nat)
    requires WellFormed(v, chs) && WellFormed(v', chs) && SameForm(v, v') && Located(v, chs, dir, i, at, p)
    ensures Located(v', chs, dir, i, at, p)
  {
    hide WellFormed;
    ShapeOf(v, chs);
    ShapeOf(v', chs);
    var ch := chs.dirs[dir];
    forall j | 0 <= j < |ch| ensures 2 <= ch[j] < |v.fat| { Taken(v, chs, OfDir(dir), j); }
    BaseSame(v, v', ch, p);
  }

  lemma StageForm(v: Vol, bytes: seq<nat>)
    requires Shape(v)
    ensures SameForm(v, Stage(v, bytes).1)
  {
    hide AllocateMany;
    AllocateManyOk(v, Needed(v, |bytes|), None);
  }

  lemma AllocatedHead(v: Vol, k: nat)
    requires Shape(v)
    ensures var (l, v') := AllocateMany(v, k, None); Shape(v') && (l != [] ==> InTable(v'.fat, l[0]))
  {
    hide AllocateMany;
    AllocateManyOk(v, k, None);
    var (l, v') := AllocateMany(v, k, None);
    if l != [] { assert Fresh(v, v', l, 0); }
  }

  lemma ReadNothing(fs: Files, d: nat)
    requires FilesOk(fs)
    ensures ReadFrom(fs, d, []) == Err(IsADirectory)
  {
  }

  /** Reading goes to the parent directory and then looks there. */
  lemma {:induction false} ReadThrough(fs: Files, d: nat, path: Path)
    requires FilesOk(fs) && path != []
    ensures match DirectoryFrom(fs, d, FatRuns.Parent(path))
      case Err(e) => ReadFrom(fs, d, path) == Err(e)
      case Ok(c) => ReadFrom(fs, d, path) == ReadFrom(fs, c, [FatRuns.Last(path)])
    decreases path
  {
    hide FilesOk, IsDir, ClusterOf, Find;
    DirTable(fs, d);
    if |path| == 1 {
      assert path == [FatRuns.Last(path)] && FatRuns.Parent(path) == [];
    } else {
      var up := FatRuns.Parent(path);
      assert up[0] == path[0] && up[1..] == FatRuns.Parent(path[1..]) && FatRuns.Last(path) == FatRuns.Last(path[1..]);
      var r := Find(Slots(fs, d), path[0]);
      if r.Some? && IsDir(Slots(fs, d)[r.value]) { ReadThrough(fs, ClusterOf(Slots(fs, d)[r.value]), path[1..]); }
    }
  }

  lemma ReadHere(fs: Files, d: nat, name: seq<nat>)
    requires FilesOk(fs) && DirOk(fs, d)
    ensures match Find(Slots(fs, d), name)
      case None => ReadFrom(fs, d, [name]) == Err(NotFound)
      case Some(i) => if IsDir(Slots(fs, d)[i]) then ReadFrom(fs, d, [name]) == Err(IsADirectory)
        else (d, i) in fs.contents && ReadFrom(fs, d, [name]) == Ok(fs.contents[(d, i)])
  {
    hide FilesOk, IsDir, Find;
    if Find(Slots(fs, d), name).Some? { FindVisible(Slots(fs, d), name); }
  }

  lemma FileChain(v: Vol, chs: Chains, dir: nat, name: seq<nat>)
    requires WellFormed(v, chs) && dir in chs.dirs && Find(SlotsAt(v, chs, dir), name).Some?
    requires !IsDir(SlotsAt(v, chs, dir)[Find(SlotsAt(v, chs, dir), name).value])
    ensures var i := Find(SlotsAt(v, chs, dir), name).value; var e := SlotsAt(v, chs, dir)[i];
      && Shape(v) && (dir, i) in chs.files && Linked(v.fat, ClusterOf(e), chs.files[(dir, i)])
      && InBounds(v.data, chs.files[(dir, i)])
      && Meaning(v, chs).contents[(dir, i)] == Content(v.data, chs.files[(dir, i)], SizeOf(e))
  {
    hide Find, IsDir, ClusterOf, SizeOf, Content, Shape, Apart, ZeroTail, UniqueNames, FullName, Upper, Visible, Linked;
    DirAtOk(v, chs, dir);
    FindVisible(SlotsAt(v, chs, dir), name);
    var i := Find(SlotsAt(v, chs, dir), name).value;
    FileAtOk(v, chs, dir, i);
    ChainInBounds(v, chs, OfFile((dir, i)));
  }

  lemma DirOrNothing(v: Vol, chs: Chains, dir: nat)
    requires WellFormed(v, chs) && (dir in chs.dirs || !Chained(dir))
    ensures Shape(v) && InBounds(v.data, ChainOf(chs, OfDir(dir)))
    ensures Chained(dir) ==>
      dir in chs.dirs && chs.dirs[dir] != [] && chs.dirs[dir][0] == dir && Linked(v.fat, dir, chs.dirs[dir])
  {
    ShapeOf(v, chs);
    ChainInBounds(v, chs, OfDir(dir));
    if dir in chs.dirs { DirAtOk(v, chs, dir); }
  }

  lemma InsertNowhere(v: Vol, chs: Chains, dir: nat, e: Raw)
    requires WellFormed(v, chs) && |e| == 32 && !Chained(dir)
    ensures InsertIn(v, chs, dir, e) == (Err(NoSlot), v)
  {
  }

  lemma NothingThere(v: Vol, chs: Chains, dir: nat, name: seq<nat>)
    requires WellFormed(v, chs) && !Chained(dir)
    ensures Find(SlotsAt(v, chs, dir), name) == None
  {
  }

  lemma FreeNext(data: seq<seq<nat>>, ch: seq<nat>, p: nat)
    requires InBounds(data, ch) && p < |ch| && InBounds(data, ch[p..]) && InBounds(data, ch[p + 1..])
    ensures var n := |Cut(data[ch[p]])|;
      FreeSlot(SlotsOf(data, ch[p..]), 0) == if FreeSlot(Cut(data[ch[p]]), 0) < n then FreeSlot(Cut(data[ch[p]]), 0)
        else n + FreeSlot(SlotsOf(data, ch[p + 1..]), 0)
  {
    hide Cut, Unused;
    assert ch[p..][1..] == ch[p + 1..];
    FreeSplit(Cut(data[ch[p]]), SlotsOf(data, ch[p + 1..]), 0);
  }

  lemma CutLength(v: Vol, c: nat)
    requires 2 <= c < |v.data| && Shape(v)
    ensures |Cut(v.data[c])| == 16 * v.spc && |v.data[c]| == 512 * v.spc
  {
  }

  lemma InsertSlot(v: Vol, chs: Chains, dir: nat, e: Raw, k: nat)
    requires WellFormed(v, chs) && dir in chs.dirs && |e| == 32 && InBounds(v.data, chs.dirs[dir])
    requires k == FreeSlot(SlotsOf(v.data, chs.dirs[dir]), 0) < |SlotsOf(v.data, chs.dirs[dir])|
    ensures InsertIn(v, chs, dir, e) == (Ok(()), v.(data := PatchSlot(v.data, chs.dirs[dir], k, e)))
  {
  }

  lemma AllFull(data: seq<seq<nat>>, ch: seq<nat>, p: nat)
    requires InBounds(data, ch) && p + 1 == |ch| && InBounds(data, ch[p..])
    requires FreeSlot(Cut(data[ch[p]]), 0) == |Cut(data[ch[p]])|
    requires FreeSlot(SlotsOf(data, ch), 0) == Base(data, ch, p) + FreeSlot(SlotsOf(data, ch[p..]), 0)
    ensures FreeSlot(SlotsOf(data, ch), 0) == |SlotsOf(data, ch)|
  {
    hide Cut, Unused;
    BaseSplits(data, ch, p);
    assert ch[p..] == [ch[p]] && ch[p..][1..] == [];
    assert SlotsOf(data, ch[p..]) == Cut(data[ch[p]]);
  }

  lemma InsertLast(v: Vol, chs: Chains, dir: nat, e: Raw)
    requires WellFormed(v, chs) && dir in chs.dirs && |e| == 32 && InBounds(v.data, chs.dirs[dir])
    requires chs.dirs[dir] != [] && Shape(v)
    requires FreeSlot(SlotsOf(v.data, chs.dirs[dir]), 0) == |SlotsOf(v.data, chs.dirs[dir])|
    ensures var last := chs.dirs[dir][|chs.dirs[dir]| - 1];
      last < |v.fat| && match Allocate(v, Some(last))
        case (None, _) => InsertIn(v, chs, dir, e) == (Err(Full), v)
        case (Some(c), v1) =>
          && c < |v1.data| && |v1.data[c]| >= 32
          && InsertIn(v, chs, dir, e) == (Ok(()), v1.(data := v1.data[c := Splice(v1.data[c], 0, e)]))
  {
    hide WellFormed, Shape, Allocate, Splice;
    DirAtOk(v, chs, dir);
    LimitSmall(v);
    AllocateSize(v, Some(chs.dirs[dir][|chs.dirs[dir]| - 1]));
  }

  lemma ManyStep(v: Vol, k: nat, prev: Option<nat>)
    requires Shape(v) && 2 <= |v.fat| == |v.data| && k > 0
    requires (prev.Some? ==> prev.value < |v.fat| && v.fat[prev.value] != 0)
    ensures match Allocate(v, prev)
      case (None, v1) => v1 == v && AllocateMany(v, k, prev) == ([], v)
      case (Some(c), v1) =>
        && 2 <= |v1.fat| == |v1.data| && c < |v1.fat|
        && AllocateMany(v, k, prev) == ([c] + AllocateMany(v1, k - 1, Some(c)).0, AllocateMany(v1, k - 1, Some(c)).1)
  {
    hide Shape;
    AllocateOk(v, prev);
  }

  lemma ManyNone(v: Vol, prev: Option<nat>)
    requires 2 <= |v.fat| == |v.data| && (prev.Some? ==> prev.value < |v.fat|)
    ensures AllocateMany(v, 0, prev) == ([], v)
  {
  }

  lemma AllocatedShape(v: Vol, prev: Option<nat>)
    requires Shape(v) && (prev.Some? ==> prev.value < |v.fat| && v.fat[prev.value] != 0)
    ensures var (r, v') := Allocate(v, prev); Shape(v') && (r.Some? ==> r.value < |v'.fat| && v'.fat[r.value] != 0)
  {
  }

  lemma RootKnown(v: Vol, chs: Chains)
    requires WellFormed(v, chs)
    ensures v.root in chs.dirs
  {
  }

  lemma EntryKnown(v: Vol, chs: Chains, dir: nat, name: seq<nat>)
    requires WellFormed(v, chs) && Find(SlotsAt(v, chs, dir), name).Some?
    requires IsDir(SlotsAt(v, chs, dir)[Find(SlotsAt(v, chs, dir), name).value])
    ensures var c := ClusterOf(SlotsAt(v, chs, dir)[Find(SlotsAt(v, chs, dir), name).value]);
      c in chs.dirs || !Chained(c)
  {
    hide Find, ClusterOf, IsDir, Shape, Apart, FullName, Upper, Visible, Linked;
    assert dir in chs.dirs && DirWell(v, chs, dir);
    FindVisible(SlotsAt(v, chs, dir), name);
    assert SlotWell(v, chs, dir, Find(SlotsAt(v, chs, dir), name).value);
  }

  lemma LinkedHead(fat: seq<nat>, head: nat, ch: seq<nat>)
    requires Linked(fat, head, ch)
    ensures if ch == [] then !Chained(head) else head == ch[0] && Chained(head)
  {
  }

  lemma FindNothing(data: seq<seq<nat>>, ch: seq<nat>, name: seq<nat>)
    requires ch == []
    ensures Find(SlotsOf(data, ch), name) == None
  {
  }

  lemma ContentEnd(data: seq<seq<nat>>, ch: seq<nat>, left: nat)
    requires InBounds(data, ch) && (ch == [] || left == 0)
    ensures Content(data, ch, left) == []
  {
  }

  lemma FindNext(data: seq<seq<nat>>, ch: seq<nat>, p: nat, name: seq<nat>)
    requires InBounds(data, ch) && p < |ch| && InBounds(data, ch[p..]) && InBounds(data, ch[p + 1..])
    ensures Find(SlotsOf(data, ch[p..]), name) == match ScanFrom(Cut(data[ch[p]]), name, 0)
      case Hit(j) => Some(j)
      case Mark => None
      case More => Shift(Find(SlotsOf(data, ch[p + 1..]), name), |Cut(data[ch[p]])|)
  {
    hide Cut, Matches, FindFrom, ScanFrom;
    assert ch[p..][1..] == ch[p + 1..];
    FindSplit(Cut(data[ch[p]]), SlotsOf(data, ch[p + 1..]), name, 0);
  }

  lemma CopyRead(g: Geo, disk: seq<Sector>, k: nat, j: nat)
    requires GeoOk(g, disk) && Mirrored(g, disk) && k < g.nfats && j < g.spf
    ensures Copy(g, k) + j < |disk| && g.fatStart + j < |disk| && disk[Copy(g, k) + j] == disk[g.fatStart + j]
    ensures |disk[g.fatStart + j]| == 512
  {
    assert SameSector(g, disk, k, j);
    CopyBelow(g, k, j);
    CopyBelow(g, 0, j);
    TableOnDisk(g, disk);
  }

  lemma ClusterLength(g: Geo, disk: seq<Sector>, c: nat)
    requires GeoOk(g, disk) && 2 <= c < g.total + 2
    ensures |ViewOf(g, disk).data[c]| == 512 * g.spc
  {
  }

  lemma LimitSmall(v: Vol)
    requires Shape(v)
    ensures 2 <= |v.fat| == |v.data|
  {
  }
}
