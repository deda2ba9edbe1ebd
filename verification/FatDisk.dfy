/** A FAT32 volume as sectors on a disk. */
module FatDisk {
  import opened FatEntries
  import opened FatChains
  import opened FatVolume

  type Sector = seq<nat>

  /** Where the copies of the table start, their size and number, the cluster size, the root cluster and the number of
      clusters. */
  datatype Geo = Geo(fatStart: nat, spf: nat, nfats: nat, spc: nat, root: nat, total: nat)

  function Copy(g: Geo, k: nat): nat {
    g.fatStart + k * g.spf
  }

  function DataStart(g: Geo): nat {
    Copy(g, g.nfats)
  }

  /** `cluster_to_lba`. */
  function Lba(g: Geo, c: nat): nat {
    DataStart(g) + (if c < 2 then 0 else c - 2) * g.spc
  }

  /** The table has an entry for every cluster and the disk has its sectors. */
  ghost predicate GeoOk(g: Geo, disk: seq<Sector>) {
    && g.spc > 0 && g.nfats > 0 && g.total + 2 <= 128 * g.spf && g.total + 2 <= END
    && Lba(g, g.total + 2) <= |disk| && (forall x | 0 <= x < |disk| :: |disk[x]| == 512)
  }

  lemma {:induction false} Step(a: nat, b: nat, n: nat)
    requires a < b
    ensures a * n + n <= b * n
    decreases b
  {
    assert b * n == (b - 1) * n + n;
    if a < b - 1 { Step(a, b - 1, n); }
  }

  lemma Multiple(a: nat, n: nat)
    ensures a * n >= 0
  {
  }

  /** A sector of a table copy lies below the data. */
  lemma CopyBelow(g: Geo, k: nat, j: nat)
    requires k < g.nfats && j < g.spf
    ensures Copy(g, k) + j < DataStart(g)
  {
    Step(k, g.nfats, g.spf);
  }

  lemma CopiesApart(g: Geo, k1: nat, j1: nat, k2: nat, j2: nat)
    requires j1 < g.spf && j2 < g.spf && Copy(g, k1) + j1 == Copy(g, k2) + j2
    ensures k1 == k2 && j1 == j2
  {
    if k1 < k2 { Step(k1, k2, g.spf); }
    if k2 < k1 { Step(k2, k1, g.spf); }
  }

  /** A sector of a cluster lies on the disk, above the table. */
  lemma LbaRange(g: Geo, disk: seq<Sector>, c: nat, s: nat)
    requires GeoOk(g, disk) && 2 <= c < g.total + 2 && s < g.spc
    ensures DataStart(g) <= Lba(g, c) + s < |disk|
  {
    hide DataStart;
    Step(c - 2, g.total, g.spc);
    assert Lba(g, c) == DataStart(g) + (c - 2) * g.spc;
    assert Lba(g, g.total + 2) == DataStart(g) + g.total * g.spc;
    Multiple(c - 2, g.spc);
  }

  lemma LbaApart(g: Geo, c1: nat, s1: nat, c2: nat, s2: nat)
    requires 2 <= c1 && 2 <= c2 && s1 < g.spc && s2 < g.spc && Lba(g, c1) + s1 == Lba(g, c2) + s2
    ensures c1 == c2 && s1 == s2
  {
    if c1 < c2 { Step(c1 - 2, c2 - 2, g.spc); }
    if c2 < c1 { Step(c2 - 2, c1 - 2, g.spc); }
  }

  lemma TableOnDisk(g: Geo, disk: seq<Sector>)
    requires GeoOk(g, disk)
    ensures DataStart(g) <= |disk|
  {
  }

  // ----- Reading the disk as a volume -----

  /** Four bytes, least significant first. */
  function Word(b: seq<nat>, o: nat): nat
    requires o + 4 <= |b|
  {
    b[o] + 256 * b[o + 1] + 65536 * b[o + 2] + 16777216 * b[o + 3]
  }

  /** `read_fat_entry`: the low 28 bits. */
  function Entry(g: Geo, disk: seq<Sector>, c: nat): nat
    requires GeoOk(g, disk) && c < g.total + 2
  {
    EntryOnDisk(g, disk, c);
    Word(disk[g.fatStart + c / 128], 4 * (c % 128)) % 0x1000_0000
  }

  lemma EntryOnDisk(g: Geo, disk: seq<Sector>, c: nat)
    requires GeoOk(g, disk) && c < g.total + 2
    ensures c / 128 < g.spf && g.fatStart + c / 128 < DataStart(g) <= |disk| && |disk[g.fatStart + c / 128]| == 512
    ensures forall k | 0 <= k < g.nfats :: Copy(g, k) + c / 128 < DataStart(g)
    ensures Copy(g, 0) == g.fatStart
  {
    TableOnDisk(g, disk);
    forall k | 0 <= k < g.nfats ensures Copy(g, k) + c / 128 < DataStart(g) { CopyBelow(g, k, c / 128); }
    CopyBelow(g, 0, c / 128);
  }

  /** The bytes of a cluster, sector after sector. */
  function Cluster(g: Geo, disk: seq<Sector>, c: nat): (r: seq<nat>)
    requires GeoOk(g, disk) && c < g.total + 2
    ensures 2 <= c ==> |r| == 512 * g.spc
  {
    if c < 2 then []
    else
      ClusterOnDisk(g, disk, c);
      seq(512 * g.spc, i requires 0 <= i < 512 * g.spc => disk[Lba(g, c) + i / 512][i % 512])
  }

  lemma ClusterOnDisk(g: Geo, disk: seq<Sector>, c: nat)
    requires GeoOk(g, disk) && 2 <= c < g.total + 2
    ensures forall i | 0 <= i < 512 * g.spc :: Lba(g, c) + i / 512 < |disk| && |disk[Lba(g, c) + i / 512]| == 512
  {
    forall i | 0 <= i < 512 * g.spc ensures Lba(g, c) + i / 512 < |disk| { LbaRange(g, disk, c, i / 512); }
  }

  function ViewOf(g: Geo, disk: seq<Sector>): (v: Vol)
    requires GeoOk(g, disk)
    ensures |v.fat| == |v.data| == g.total + 2 && v.spc == g.spc && v.root == g.root
  {
    Vol(seq(g.total + 2, c requires 0 <= c < g.total + 2 => Entry(g, disk, c)),
        seq(g.total + 2, c requires 0 <= c < g.total + 2 => Cluster(g, disk, c)), g.spc, g.root)
  }

  /** All copies of the table are equal. */
  ghost predicate Mirrored(g: Geo, disk: seq<Sector>)
    requires GeoOk(g, disk)
  {
    forall k, j | 0 <= k < g.nfats && 0 <= j < g.spf :: SameSector(g, disk, k, j)
  }

  ghost predicate SameSector(g: Geo, disk: seq<Sector>, k: nat, j: nat)
    requires GeoOk(g, disk) && k < g.nfats && j < g.spf
  {
    CopyBelow(g, k, j); CopyBelow(g, 0, j); TableOnDisk(g, disk);
    disk[Copy(g, k) + j] == disk[g.fatStart + j]
  }

  // ----- Writing a sector of a cluster -----

  lemma GeoSame(g: Geo, disk: seq<Sector>, x: nat, buf: Sector)
    requires GeoOk(g, disk) && x < |disk| && |buf| == 512
    ensures GeoOk(g, disk[x := buf])
  {
  }

  lemma DataWriteEntry(g: Geo, disk: seq<Sector>, x: nat, buf: Sector, c: nat)
    requires GeoOk(g, disk) && DataStart(g) <= x < |disk| && |buf| == 512 && GeoOk(g, disk[x := buf]) && c < g.total + 2
    ensures Entry(g, disk[x := buf], c) == Entry(g, disk, c)
  {
    EntryOnDisk(g, disk, c);
  }

  lemma DataWriteCluster(g: Geo, disk: seq<Sector>, c: nat, s: nat, buf: Sector, d: nat)
    requires GeoOk(g, disk) && 2 <= c < g.total + 2 && s < g.spc && |buf| == 512 && d < g.total + 2
    requires Lba(g, c) + s < |disk|
    requires GeoOk(g, disk[Lba(g, c) + s := buf])
    ensures Cluster(g, disk[Lba(g, c) + s := buf], d) ==
      if d == c then Splice(Cluster(g, disk, c), 512 * s, buf) else Cluster(g, disk, d)
  {
    hide Lba, GeoOk;
    SpcPositive(g, disk);
    if d >= 2 {
      ClusterOnDisk(g, disk, d);
      var disk' := disk[Lba(g, c) + s := buf];
      ClusterOnDisk(g, disk', d);
      var a, b := Cluster(g, disk', d), if d == c then Splice(Cluster(g, disk, c), 512 * s, buf)
        else Cluster(g, disk, d);
      forall i | 0 <= i < 512 * g.spc ensures a[i] == b[i] {
        if Lba(g, d) + i / 512 == Lba(g, c) + s { LbaApart(g, d, i / 512, c, s); }
        if d == c { SpliceAt(Cluster(g, disk, c), s, buf, i); }
      }
    }
  }

  lemma SpcPositive(g: Geo, disk: seq<Sector>)
    requires GeoOk(g, disk)
    ensures g.spc > 0
  {
  }

  lemma SpliceAt(bytes: seq<nat>, s: nat, buf: Sector, i: nat)
    requires 512 * s + 512 <= |bytes| && |buf| == 512 && i < |bytes|
    ensures Splice(bytes, 512 * s, buf)[i] == if i / 512 == s then buf[i % 512] else bytes[i]
  {
  }

  lemma DataWriteMirror(g: Geo, disk: seq<Sector>, x: nat, buf: Sector)
    requires GeoOk(g, disk) && Mirrored(g, disk) && DataStart(g) <= x < |disk| && |buf| == 512
    requires GeoOk(g, disk[x := buf])
    ensures Mirrored(g, disk[x := buf])
  {
    hide GeoOk;
    var disk' := disk[x := buf];
    forall k, j | 0 <= k < g.nfats && 0 <= j < g.spf ensures SameSector(g, disk', k, j) {
      assert SameSector(g, disk, k, j);
      CopyBelow(g, k, j);
      CopyBelow(g, 0, j);
    }
  }

  /** Writing a sector of a cluster changes those bytes of the volume and nothing else. */
  lemma SectorWrite(g: Geo, disk: seq<Sector>, c: nat, s: nat, buf: Sector)
    requires GeoOk(g, disk) && Mirrored(g, disk) && 2 <= c < g.total + 2 && s < g.spc && |buf| == 512
    ensures Lba(g, c) + s < |disk| && |Cluster(g, disk, c)| == 512 * g.spc
    ensures var disk' := disk[Lba(g, c) + s := buf]; var v := ViewOf(g, disk);
      && GeoOk(g, disk') && Mirrored(g, disk')
      && ViewOf(g, disk') == v.(data := v.data[c := Splice(v.data[c], 512 * s, buf)])
  {
    hide Lba, GeoOk, Mirrored, Entry, Cluster;
    LbaRange(g, disk, c, s);
    GeoSame(g, disk, Lba(g, c) + s, buf);
    var disk' := disk[Lba(g, c) + s := buf];
    DataWriteMirror(g, disk, Lba(g, c) + s, buf);
    var v, v' := ViewOf(g, disk), ViewOf(g, disk');
    forall d | 0 <= d < g.total + 2
      ensures v'.fat[d] == v.fat[d] && v'.data[d] == v.data[c := Splice(v.data[c], 512 * s, buf)][d]
    {
      DataWriteEntry(g, disk, Lba(g, c) + s, buf, d);
      DataWriteCluster(g, disk, c, s, buf, d);
    }
    assert v'.fat == v.fat;
  }

  /** Reading a sector of a cluster gives those bytes of the volume. */
  lemma SectorRead(g: Geo, disk: seq<Sector>, c: nat, s: nat)
    requires GeoOk(g, disk) && 2 <= c < g.total + 2 && s < g.spc
    ensures Lba(g, c) + s < |disk| && disk[Lba(g, c) + s] == ViewOf(g, disk).data[c][512 * s..512 * s + 512]
  {
    hide Lba;
    LbaRange(g, disk, c, s);
    ClusterOnDisk(g, disk, c);
    var b := Cluster(g, disk, c);
    assert b == ViewOf(g, disk).data[c];
    var part := b[512 * s..512 * s + 512];
    forall t | 0 <= t < 512 ensures part[t] == disk[Lba(g, c) + s][t] {
      assert (512 * s + t) / 512 == s && (512 * s + t) % 512 == t;
    }
  }

  // ----- Writing a table entry -----

  /** The four bytes of an entry; the top four bits of the last one stay. */
  function PutWord(b: Sector, o: nat, value: nat): (r: Sector)
    requires o + 4 <= |b|
    ensures |r| == |b|
  {
    b[o := value % 256][o + 1 := value / 256 % 256][o + 2 := value / 65536 % 256]
     [o + 3 := value / 16777216 % 16 + b[o + 3] / 16 * 16]
  }

  lemma PutWordReads(b: Sector, c: nat, value: nat, d: nat)
    requires |b| == 512 && c < 128 && d < 128
    ensures Word(PutWord(b, 4 * c, value), 4 * d) % 0x1000_0000 ==
      if d == c then value % 0x1000_0000 else Word(b, 4 * d) % 0x1000_0000
  {
    if d == c {
      var r, o := PutWord(b, 4 * c, value), 4 * c;
      assert r[o] == value % 256 && r[o + 1] == value / 256 % 256 && r[o + 2] == value / 65536 % 256;
      assert r[o + 3] == value / 16777216 % 16 + b[o + 3] / 16 * 16;
      LowBits(value, b[o + 3] / 16);
    }
  }

  lemma LowBits(value: nat, top: nat)
    ensures (value % 256 + 256 * (value / 256 % 256) + 65536 * (value / 65536 % 256) +
             16777216 * (value / 16777216 % 16 + top * 16)) % 0x1000_0000
      == value % 0x1000_0000
  {
    var a, b, c, d := value % 256, value / 256 % 256, value / 65536 % 256, value / 16777216 % 16;
    assert value / 256 == (value / 65536) * 256 + b;
    assert value / 65536 == (value / 16777216) * 256 + c;
    assert value / 16777216 == (value / 0x1000_0000) * 16 + d;
    var low := a + 256 * b + 65536 * c + 16777216 * d;
    assert value == low + 0x1000_0000 * (value / 0x1000_0000);
    assert low < 0x1000_0000;
    assert a + 256 * b + 65536 * c + 16777216 * (d + top * 16) == low + 0x1000_0000 * top;
    ModShift(low, top);
    ModShift(low, value / 0x1000_0000);
  }

  lemma ModShift(low: nat, k: nat)
    requires low < 0x1000_0000
    ensures (low + 0x1000_0000 * k) % 0x1000_0000 == low
  {
  }

  /** Sector `j` of every copy is `buf`; everything else is as before. */
  ghost predicate TableWritten(g: Geo, disk: seq<Sector>, disk': seq<Sector>, j: nat, buf: Sector)
    requires GeoOk(g, disk) && j < g.spf
  {
    && |disk'| == |disk| && GeoOk(g, disk')
    && (forall k | 0 <= k < g.nfats :: Copy(g, k) + j < |disk'| && disk'[Copy(g, k) + j] == buf)
    && (forall x | 0 <= x < |disk| && (forall k | 0 <= k < g.nfats :: x != Copy(g, k) + j) :: disk'[x] == disk[x])
  }

  lemma TableWriteOther(g: Geo, disk: seq<Sector>, disk': seq<Sector>, j: nat, buf: Sector, k: nat, i: nat)
    requires GeoOk(g, disk) && j < g.spf && TableWritten(g, disk, disk', j, buf) && k < g.nfats && i < g.spf && i != j
    ensures Copy(g, k) + i < |disk| && disk'[Copy(g, k) + i] == disk[Copy(g, k) + i]
  {
    hide Copy, GeoOk;
    TableOnDisk(g, disk);
    CopyBelow(g, k, i);
    forall m | 0 <= m < g.nfats ensures Copy(g, k) + i != Copy(g, m) + j {
      if Copy(g, k) + i == Copy(g, m) + j { CopiesApart(g, k, i, m, j); }
    }
  }

  lemma TableWriteData(g: Geo, disk: seq<Sector>, disk': seq<Sector>, j: nat, buf: Sector, c: nat)
    requires GeoOk(g, disk) && j < g.spf && TableWritten(g, disk, disk', j, buf) && c < g.total + 2
    ensures Cluster(g, disk', c) == Cluster(g, disk, c)
  {
    hide GeoOk, Lba, Copy;
    if c >= 2 {
      ClusterOnDisk(g, disk, c);
      forall i | 0 <= i < 512 * g.spc ensures disk'[Lba(g, c) + i / 512] == disk[Lba(g, c) + i / 512] {
        LbaRange(g, disk, c, i / 512);
        forall k | 0 <= k < g.nfats ensures Lba(g, c) + i / 512 != Copy(g, k) + j { CopyBelow(g, k, j); }
      }
    }
  }

  lemma TableWriteMirror(g: Geo, disk: seq<Sector>, disk': seq<Sector>, j: nat, buf: Sector)
    requires GeoOk(g, disk) && Mirrored(g, disk) && j < g.spf && TableWritten(g, disk, disk', j, buf) && g.nfats > 0
    ensures Mirrored(g, disk')
  {
    hide GeoOk;
    assert Copy(g, 0) == g.fatStart;
    forall k, i | 0 <= k < g.nfats && 0 <= i < g.spf ensures SameSector(g, disk', k, i) {
      assert SameSector(g, disk, k, i);
      if i != j {
        TableWriteOther(g, disk, disk', j, buf, k, i);
        TableWriteOther(g, disk, disk', j, buf, 0, i);
      }
    }
  }

  lemma TableWriteEntry(g: Geo, disk: seq<Sector>, disk': seq<Sector>, c: nat, value: nat, d: nat)
    requires GeoOk(g, disk) && c < g.total + 2 && d < g.total + 2 && c / 128 < g.spf && g.nfats > 0
    requires g.fatStart + c / 128 < |disk| && |disk[g.fatStart + c / 128]| == 512
    requires TableWritten(g, disk, disk', c / 128, PutWord(disk[g.fatStart + c / 128], 4 * (c % 128), value))
    ensures Entry(g, disk', d) == if d == c then value % 0x1000_0000 else Entry(g, disk, d)
  {
    hide GeoOk, Word, PutWord, Lba;
    assert Copy(g, 0) == g.fatStart;
    EntryOnDisk(g, disk, d);
    EntryOnDisk(g, disk', d);
    var b := disk[g.fatStart + c / 128];
    if d / 128 == c / 128 {
      assert disk'[Copy(g, 0) + c / 128] == PutWord(b, 4 * (c % 128), value);
      PutWordReads(b, c % 128, value, d % 128);
    } else {
      TableWriteOther(g, disk, disk', c / 128, PutWord(b, 4 * (c % 128), value), 0, d / 128);
    }
  }

  /** Writing an entry into every copy sets that entry of the volume and keeps the copies equal. */
  lemma TableWrite(g: Geo, disk: seq<Sector>, disk': seq<Sector>, c: nat, value: nat)
    requires GeoOk(g, disk) && Mirrored(g, disk) && c < g.total + 2 && c / 128 < g.spf
    requires g.fatStart + c / 128 < |disk| && |disk[g.fatStart + c / 128]| == 512
    requires TableWritten(g, disk, disk', c / 128, PutWord(disk[g.fatStart + c / 128], 4 * (c % 128), value))
    ensures GeoOk(g, disk') && Mirrored(g, disk')
    ensures ViewOf(g, disk') == ViewOf(g, disk).(fat := ViewOf(g, disk).fat[c := value % 0x1000_0000])
  {
    hide GeoOk, Mirrored, Entry, Cluster, PutWord;
    SomeCopies(g, disk);
    var buf := PutWord(disk[g.fatStart + c / 128], 4 * (c % 128), value);
    TableWriteMirror(g, disk, disk', c / 128, buf);
    var v, v' := ViewOf(g, disk), ViewOf(g, disk');
    forall d | 0 <= d < g.total + 2
      ensures v'.fat[d] == v.fat[c := value % 0x1000_0000][d] && v'.data[d] == v.data[d]
    {
      TableWriteEntry(g, disk, disk', c, value, d);
      TableWriteData(g, disk, disk', c / 128, buf, d);
    }
    assert v'.data == v.data && v'.fat == v.fat[c := value % 0x1000_0000];
  }

  lemma SomeCopies(g: Geo, disk: seq<Sector>)
    requires GeoOk(g, disk)
    ensures g.nfats > 0 && g.spc > 0 && g.total + 2 <= END
  {
  }
}
