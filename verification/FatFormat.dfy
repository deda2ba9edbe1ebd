/** Formatting a disk with FAT32 and mounting it again. */
module FatFormat {
  import opened Wrappers
  import opened FatEntries
  import opened FatDisk
  import FatChains
  import FatFiles
  import FatRuns
  import opened FatObject

  function Le32(x: nat): (r: seq<nat>)
    ensures |r| == 4
  {
    [x % 256, x / 256 % 256, x / 65536 % 256, x / 16777216 % 256]
  }

  lemma Le32Reads(x: nat)
    requires x < 0x1_0000_0000
    ensures Word(Le32(x), 0) == x
  {
    assert x / 256 == (x / 65536) * 256 + x / 256 % 256;
    assert x / 65536 == (x / 16777216) * 256 + x / 65536 % 256;
    assert x / 16777216 < 256;
  }

  lemma WordOf(b: seq<nat>, o: nat, x: nat)
    requires o + 4 <= |b| && b[o..o + 4] == Le32(x) && x < 0x1_0000_0000
    ensures Word(b, o) == x
  {
    Le32Reads(x);
    assert b[o] == b[o..o + 4][0] && b[o + 1] == b[o..o + 4][1] &&
      b[o + 2] == b[o..o + 4][2] && b[o + 3] == b[o..o + 4][3];
  }

  // ----- Geometry -----

  /** The sectors of one table copy: four bytes a cluster, at least 16. */
  function TableSectors(sectors: nat): nat
    requires sectors >= 1024
  {
    var n := ((sectors - 32 + 2) * 4 + 511) / 512;
    if n < 16 then 16 else n
  }

  /** Too small, or nothing left for data. */
  predicate Refused(sectors: nat) {
    sectors < 1024 || 32 + 2 * TableSectors(sectors) >= sectors
  }

  /** A table copy is the least number of sectors, sixteen or more, with four bytes for every cluster the volume could
      have; and only volumes below 1024 sectors are refused, since from there on the tables always fit. */
  lemma TablesFit(sectors: nat)
    ensures Refused(sectors) <==> sectors < 1024
    ensures sectors >= 1024 ==>
      var n := TableSectors(sectors);
      n >= 16 && 512 * n >= 4 * (sectors - 30) && (n > 16 ==> 512 * (n - 1) < 4 * (sectors - 30))
  {
  }

  function NewGeo(start: nat, sectors: nat): Geo
    requires !Refused(sectors)
  {
    Geo(start + 32, TableSectors(sectors), 2, 1, 2, sectors - 32 - 2 * TableSectors(sectors))
  }

  // ----- The boot sector -----

  function BootSector(start: nat, sectors: nat, spf: nat, mark: seq<nat>): (r: Sector)
    requires |mark| == 11
    ensures |r| == 512
  {
    BootHead(start, sectors, spf) + Zeros(12) + [0x80, 0, 0x29] + Le32(0x2026_0909) + mark
    + [0x46, 0x41, 0x54, 0x33, 0x32, 0x20, 0x20, 0x20] + Zeros(420) + [0x55, 0xAA]
  }

  /** The first 52 bytes. */
  function BootHead(start: nat, sectors: nat, spf: nat): (r: seq<nat>)
    ensures |r| == 52
  {
    [0xEB, 0x58, 0x90, 0x41, 0x55, 0x52, 0x41, 0x5F, 0x4F, 0x53, 0x20]
    + [0, 2, 1, 32, 0, 2, 0, 0, 0, 0, 0xF8, 0, 0, 63, 0, 255, 0]
    + Le32(start) + Le32(sectors) + Le32(spf) + [0, 0, 0, 0] + Le32(2) + [1, 0, 6, 0]
  }

  function FsInfo(total: nat): (r: Sector)
    ensures |r| == 512
  {
    Le32(0x4161_5252) + Zeros(480) + Le32(0x6141_7272) + Le32(if total == 0 then 0 else total - 1) +
      Le32(3) + Zeros(12) + Le32(0xAA55_0000)
  }

  datatype MountError = BadSignature | NotFat32 | BadSectorSize | BadClusterSize

  /** The information sector of a new volume tells the truth: as many free clusters as the table has zero entries, and
      the first of them. */
  lemma FsInfoTrue(mark: seq<nat>, data: seq<seq<nat>>)
    requires |mark| == 11 && 4 <= |data| < 0x1_0000_0000
    ensures var b, fat := FsInfo(|data| - 2), FatRuns.Formatted(mark, data).fat;
      && Word(b, 488) == |fat| - FatChains.NonZero(fat)
      && Word(b, 492) < |fat| && fat[Word(b, 492)] == 0 && forall c | 0 <= c < Word(b, 492) :: fat[c] != 0
  {
    hide FatChains.NonZero, Le32, Word;
    var b, fat, n := FsInfo(|data| - 2), FatRuns.Formatted(mark, data).fat, |data| - 3;
    UsedAfter(0x0FFF_FFF8, [EOC, EOC] + Zeros(n));
    UsedAfter(EOC, [EOC] + Zeros(n));
    UsedAfter(EOC, Zeros(n));
    NoneUsed(n);
    assert fat == [0x0FFF_FFF8] + ([EOC, EOC] + Zeros(n)) && [EOC, EOC] + Zeros(n) == [EOC] + ([EOC] + Zeros(n));
    assert fat[3] == Zeros(n)[0];
    WordOf(b, 488, n);
    WordOf(b, 492, 3);
  }

  /** The second sector counts the free entries of the table and points to the first. */
  ghost predicate Counted(disk: seq<Sector>, start: nat, fat: seq<nat>) {
    && start + 1 < |disk| && |disk[start + 1]| == 512
    && (|fat| >= 4 ==>
          && Word(disk[start + 1], 488) == |fat| - FatChains.NonZero(fat)
          && Word(disk[start + 1], 492) < |fat| && fat[Word(disk[start + 1], 492)] == 0)
  }

  lemma UsedAfter(x: nat, fat: seq<nat>)
    requires x != 0
    ensures FatChains.NonZero([x] + fat) == 1 + FatChains.NonZero(fat)
  {
    assert ([x] + fat)[1..] == fat;
  }

  lemma {:induction false} NoneUsed(n: nat)
    ensures FatChains.NonZero(Zeros(n)) == 0
  {
    if n > 0 {
      NoneUsed(n - 1);
      assert Zeros(n)[1..] == Zeros(n - 1);
    }
  }

  /** `mount`: the geometry read from the boot sector. */
  function Mount(b: Sector, start: nat): (Option<Geo>, Option<MountError>)
    requires |b| == 512
  {
    if b[510] != 0x55 || b[511] != 0xAA then (None, Some(BadSignature))
    else if b[82..87] != [0x46, 0x41, 0x54, 0x33, 0x32] then (None, Some(NotFat32))
    else if b[11] + 256 * b[12] != 512 then (None, Some(BadSectorSize))
    else if b[13] == 0 then (None, Some(BadClusterSize))
    else
      var fatStart := start + b[14] + 256 * b[15];
      var dataStart := fatStart + b[16] * Word(b, 36);
      var used := dataStart - start;
      var sectors := if used <= Word(b, 32) then Word(b, 32) - used else 0;
      (Some(Geo(fatStart, Word(b, 36), b[16], b[13], Word(b, 44), sectors / b[13])), None)
  }

  lemma BootFields(start: nat, sectors: nat, spf: nat, mark: seq<nat>)
    requires |mark| == 11 && start < 0x1_0000_0000 && sectors < 0x1_0000_0000 && spf < 0x1_0000_0000
    ensures var b := BootSector(start, sectors, spf, mark);
      && b[510] == 0x55 && b[511] == 0xAA && b[82..87] == [0x46, 0x41, 0x54, 0x33, 0x32]
      && b[11] == 0 && b[12] == 2 && b[13] == 1 && b[14] == 32 && b[15] == 0 && b[16] == 2
      && Word(b, 32) == sectors && Word(b, 36) == spf && Word(b, 44) == 2
  {
    hide Le32, Word;
    var h, b := BootHead(start, sectors, spf), BootSector(start, sectors, spf, mark);
    assert b[..52] == h;
    assert b[82..87] == [0x46, 0x41, 0x54, 0x33, 0x32];
    assert h[32..36] == Le32(sectors) && h[36..40] == Le32(spf) && h[44..48] == Le32(2);
    assert b[32..36] == b[..52][32..36] && b[36..40] == b[..52][36..40] && b[44..48] == b[..52][44..48];
    WordOf(b, 32, sectors);
    WordOf(b, 36, spf);
    WordOf(b, 44, 2);
    assert h[11] == 0 && h[12] == 2 && h[13] == 1 && h[14] == 32 && h[15] == 0 && h[16] == 2;
  }

  /** Mounting what `format` wrote gives back the geometry it formatted with. */
  lemma MountAfterFormat(start: nat, sectors: nat, mark: seq<nat>)
    requires !Refused(sectors) && |mark| == 11 && start < 0x1_0000_0000 && sectors < 0x1_0000_0000
    ensures Mount(BootSector(start, sectors, TableSectors(sectors), mark), start) ==
      (Some(NewGeo(start, sectors)), None)
  {
    hide Word, BootSector;
    BootFields(start, sectors, TableSectors(sectors), mark);
  }

  // ----- The disk after formatting -----

  function FirstTableSector(): (r: Sector)
    ensures |r| == 512
  {
    Le32(0x0FFF_FFF8) + Le32(EOC) + Le32(EOC) + Zeros(500)
  }

  function RootSector(mark: seq<nat>): (r: Sector)
    requires |mark| == 11
    ensures |r| == 512
  {
    mark + [0x08] + Zeros(500)
  }

  ghost predicate Laid(g: Geo, was: seq<Sector>, disk: seq<Sector>, mark: seq<nat>)
    requires |mark| == 11
  {
    && GeoOk(g, disk) && |disk| == |was| && g.nfats == 2 && g.spc == 1 && g.root == 2 && 0 < g.total && 0 < g.spf
    && (forall k, j | 0 <= k < 2 && 0 <= j < g.spf :: TableSector(g, disk, k, j))
    && DataStart(g) < |disk| && disk[DataStart(g)] == RootSector(mark)
    && forall x | DataStart(g) < x < |disk| :: disk[x] == was[x]
  }

  ghost predicate TableSector(g: Geo, disk: seq<Sector>, k: nat, j: nat) {
    Copy(g, k) + j < |disk| && disk[Copy(g, k) + j] == if j == 0 then FirstTableSector() else Zeros(512)
  }

  lemma FirstWords(c: nat)
    requires c < 128
    ensures Word(FirstTableSector(), 4 * c) % 0x1000_0000 == (if c == 0 then 0x0FFF_FFF8 else if c <= 2 then EOC else 0)
  {
  }

  lemma LaidEntry(g: Geo, was: seq<Sector>, disk: seq<Sector>, mark: seq<nat>, c: nat)
    requires |mark| == 11 && Laid(g, was, disk, mark) && c < g.total + 2
    ensures Entry(g, disk, c) == if c == 0 then 0x0FFF_FFF8 else if c <= 2 then EOC else 0
  {
    hide FirstTableSector, RootSector, GeoOk, Lba, DataStart;
    EntryOnDisk(g, disk, c);
    assert TableSector(g, disk, 0, c / 128);
    if c / 128 == 0 { FirstWords(c); }
  }

  lemma LaidCluster(g: Geo, was: seq<Sector>, disk: seq<Sector>, mark: seq<nat>, c: nat)
    requires |mark| == 11 && Laid(g, was, disk, mark) && 2 <= c < g.total + 2
    ensures DataStart(g) + c - 2 < |was|
    ensures Cluster(g, disk, c) == if c == 2 then RootSector(mark) else was[DataStart(g) + c - 2]
  {
    hide RootSector, FirstTableSector, Cluster, TableSector, Copy, GeoOk;
    LbaRange(g, disk, c, 0);
    SectorRead(g, disk, c, 0);
    assert ViewOf(g, disk).data[c] == Cluster(g, disk, c);
    assert Cluster(g, disk, c)[0..512] == Cluster(g, disk, c);
    assert Lba(g, c) == DataStart(g) + c - 2;
  }

  lemma LaidMirrored(g: Geo, was: seq<Sector>, disk: seq<Sector>, mark: seq<nat>)
    requires |mark| == 11 && Laid(g, was, disk, mark)
    ensures Mirrored(g, disk)
  {
    hide RootSector, FirstTableSector, GeoOk;
    forall k, j | 0 <= k < g.nfats && 0 <= j < g.spf ensures SameSector(g, disk, k, j) {
      assert TableSector(g, disk, k, j) && TableSector(g, disk, 0, j);
    }
  }

  /** A formatted disk reads as the formatted volume. */
  lemma LaidView(g: Geo, was: seq<Sector>, disk: seq<Sector>, mark: seq<nat>)
    requires |mark| == 11 && Laid(g, was, disk, mark)
    ensures ViewOf(g, disk) == FatRuns.Formatted(mark, ViewOf(g, disk).data)
  {
    hide Entry, Cluster, GeoOk, FirstTableSector, Copy, DataStart, TableSector;
    var v := ViewOf(g, disk);
    forall c | 0 <= c < g.total + 2
      ensures v.fat[c] == ([0x0FFF_FFF8, EOC, EOC] + Zeros(g.total - 1))[c]
    {
      LaidEntry(g, was, disk, mark, c);
    }
    LaidCluster(g, was, disk, mark, 2);
    assert v.fat == [0x0FFF_FFF8, EOC, EOC] + Zeros(g.total - 1);
    assert v.data[2 := RootSector(mark)] == v.data;
  }

  // ----- format -----

  /** Write the boot sector, the information sector, both table copies and the root directory. */
  method Format(was: seq<Sector>, start: nat, sectors: nat, volumeName: seq<nat>) returns (r: Option<Fat32Fs>)
    requires start + sectors <= |was| && sectors <= END && start < 0x1_0000_0000
    requires forall x | 0 <= x < |was| :: |was[x]| == 512
    ensures r == None <==> sectors < 1024
    ensures r.Some? ==> fresh(r.value) && r.value.Valid() && r.value.g == NewGeo(start, sectors)
    ensures r.Some? ==> r.value.View() == FatRuns.Formatted(Padded(volumeName, 11), r.value.View().data)
    ensures r.Some? ==> FatFiles.WellFormed(r.value.View(), FatRuns.RootOnly())
    ensures r.Some? ==>
      && start < |r.value.disk| && |r.value.disk[start]| == 512
      && Mount(r.value.disk[start], start) == (Some(r.value.g), None)
    ensures r.Some? ==> Counted(r.value.disk, start, r.value.View().fat)
    ensures r.Some? ==>
      && |r.value.disk| == |was|
      && forall x | 0 <= x < |was| && !(start <= x < start + sectors) :: r.value.disk[x] == was[x]
  {
    hide BootSector, FsInfo, FirstTableSector, RootSector, Laid, Padded, Mount, FatFiles.WellFormed, FatRuns.Formatted,
      Mirrored, GeoOk, Word, FatChains.NonZero;
    TablesFit(sectors);
    if sectors < 1024 { return None; }
    var spf := TableSectors(sectors);
    if 32 + 2 * spf >= sectors { return None; }
    var g, mark := NewGeo(start, sectors), Padded(volumeName, 11);
    var total := sectors - 32 - 2 * spf;
    var disk := was[start := BootSector(start, sectors, spf, mark)];
    disk := disk[start + 1 := FsInfo(total)];
    disk := WriteTables(disk, start + 32, spf);
    disk := disk[start + 32 + 2 * spf := RootSector(mark)];
    FormatLays(g, was, disk, mark, start, sectors);
    LaidParts(g, was, disk, mark);
    LaidMirrored(g, was, disk, mark);
    LaidView(g, was, disk, mark);
    FatRuns.FormattedOk(mark, ViewOf(g, disk).data);
    MountAfterFormat(start, sectors, mark);
    if total >= 2 { FsInfoTrue(mark, ViewOf(g, disk).data); }
    var fs := new Fat32Fs(g, disk);
    r := Some(fs);
  }

  method WriteTables(before: seq<Sector>, fat: nat, spf: nat) returns (disk: seq<Sector>)
    requires fat + 2 * spf <= |before| && spf >= 1
    ensures |disk| == |before|
    ensures forall x | 0 <= x < |disk| ::
      disk[x] == if x == fat || x == fat + spf then FirstTableSector()
        else if fat < x < fat + 2 * spf then Zeros(512) else before[x]
  {
    hide FirstTableSector;
    disk := before[fat := FirstTableSector()];
    disk := disk[fat + spf := FirstTableSector()];
    var s := 1;
    while s < spf
      invariant 1 <= s <= spf && |disk| == |before|
      invariant forall x | 0 <= x < |disk| ::
        disk[x] == if x == fat || x == fat + spf then FirstTableSector()
          else if fat < x < fat + s || fat + spf < x < fat + spf + s then Zeros(512) else before[x]
    {
      disk := disk[fat + s := Zeros(512)];
      disk := disk[fat + spf + s := Zeros(512)];
      s := s + 1;
    }
  }

  lemma LaidParts(g: Geo, was: seq<Sector>, disk: seq<Sector>, mark: seq<nat>)
    requires |mark| == 11 && Laid(g, was, disk, mark)
    ensures GeoOk(g, disk) && 3 <= g.total + 2 <= END
    ensures (forall c | 2 <= c < g.total + 2 :: |ViewOf(g, disk).data[c]| == 512)
  {
  }

  lemma FormatLays(g: Geo, was: seq<Sector>, disk: seq<Sector>, mark: seq<nat>, start: nat, sectors: nat)
    requires !Refused(sectors) && g == NewGeo(start, sectors) && |mark| == 11 && sectors <= END
    requires start + sectors <= |was| == |disk|
    requires (forall x | 0 <= x < |was| :: |was[x]| == 512) && |disk[start]| == 512 && |disk[start + 1]| == 512
    requires forall x | 0 <= x < |disk| && x != start && x != start + 1 ::
      disk[x] == if x == g.fatStart || x == g.fatStart + g.spf then FirstTableSector()
                 else if g.fatStart < x < g.fatStart + 2 * g.spf then Zeros(512)
                 else if x == g.fatStart + 2 * g.spf then RootSector(mark) else was[x]
    ensures Laid(g, was, disk, mark)
  {
    hide FirstTableSector, RootSector;
    forall k, j | 0 <= k < 2 && 0 <= j < g.spf ensures TableSector(g, disk, k, j) {
      assert Copy(g, k) == if k == 0 then g.fatStart else g.fatStart + g.spf;
    }
    assert DataStart(g) == g.fatStart + 2 * g.spf;
    assert Lba(g, g.total + 2) == DataStart(g) + g.total;
  }
}
