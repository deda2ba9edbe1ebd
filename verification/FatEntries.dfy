/** FAT32 directory entries: 32 raw bytes, 8.3 names, and directories as lists of slots. */
module FatEntries {
  type Raw = seq<nat>

  const END: nat := 0x0FFF_FFF7
  const EOC: nat := 0x0FFF_FFFF
  const DELETED: nat := 0xE5
  const ARCHIVE: nat := 0x20
  const DIRECTORY: nat := 0x10

  /** A value the chain loops go on with. */
  predicate Chained(c: nat) {
    2 <= c < END
  }

  function Zeros(n: nat): (r: seq<nat>)
    ensures |r| == n && forall i | 0 <= i < n :: r[i] == 0
  {
    seq(n, i => 0)
  }

  function Low(x: nat): nat { x % 256 }
  function High(x: nat): nat { x / 256 % 256 }

  /** Bytes 20-21 and 26-27. */
  function ClusterOf(e: Raw): nat
    requires |e| == 32
  {
    (e[20] + 256 * e[21]) * 65536 + e[26] + 256 * e[27]
  }

  /** Bytes 28-31. */
  function SizeOf(e: Raw): nat
    requires |e| == 32
  {
    e[28] + 256 * e[29] + 65536 * e[30] + 16777216 * e[31]
  }

  predicate Unused(e: Raw)
    requires |e| == 32
  {
    e[0] == 0 || e[0] == DELETED
  }

  predicate IsDir(e: Raw)
    requires |e| == 32
  {
    e[11] / 16 % 2 == 1
  }

  /** In use, and neither a long-name piece nor a volume label. */
  predicate Visible(e: Raw)
    requires |e| == 32
  {
    !Unused(e) && e[11] != 0x0F && (e[11] / 8 % 2 == 1 ==> IsDir(e))
  }

  lemma DirectoryBit(a: nat)
    ensures a / 16 % 2 == 1 <==> a % 32 >= 16
  {
    var p, t := a / 16, a % 16;
    var h, b := p / 2, p % 2;
    assert p == 2 * h + b && a == 16 * p + t;
    assert a == 32 * h + (16 * b + t);
    assert a % 32 == 16 * b + t;
  }

  lemma LabelBit(a: nat)
    ensures a / 8 % 2 == 1 <==> a % 16 >= 8
  {
    var p, t := a / 8, a % 8;
    var h, b := p / 2, p % 2;
    assert p == 2 * h + b && a == 8 * p + t;
    assert a == 16 * h + (8 * b + t);
    assert a % 16 == 8 * b + t;
  }

  /** The attribute bits: 0x10 makes a directory; an entry in use is hidden exactly when 0x08 is set and 0x10 is not,
      which covers the long-name pieces too. */
  lemma KindBits(e: Raw)
    requires |e| == 32
    ensures IsDir(e) <==> e[11] % 32 >= 16
    ensures Visible(e) <==> e[0] != 0 && e[0] != 0xE5 && (e[11] % 16 < 8 || e[11] % 32 >= 16)
  {
    DirectoryBit(e[11]);
    LabelBit(e[11]);
  }

  /** Patch the cluster and the size, as overwriting a file does. */
  function Retarget(e: Raw, cluster: nat, size: nat): (r: Raw)
    requires |e| == 32
    ensures |r| == 32
  {
    e[..20] + [Low(cluster / 65536), High(cluster / 65536)] + e[22..26]
    + [Low(cluster), High(cluster), Low(size), High(size), Low(size / 65536), High(size / 65536)]
  }

  /** The bytes of a new entry. */
  function NewEntry(name: seq<nat>, attr: nat, cluster: nat, size: nat): (r: Raw)
    requires |name| == 11
    ensures |r| == 32
  {
    Retarget(name + [attr] + seq(20, i => 0), cluster, size)
  }

  lemma TwoBytes(x: nat)
    ensures Low(x) < 256 && High(x) < 256 && Low(x) + 256 * High(x) == x % 65536
  {
    var q := x / 256;
    assert x == 256 * q + x % 256 && q == 256 * (q / 256) + q % 256;
    assert x == 65536 * (q / 256) + (256 * (q % 256) + x % 256);
  }

  lemma FourBytes(x: nat)
    requires x < 0x1_0000_0000
    ensures Low(x) + 256 * High(x) + 65536 * Low(x / 65536) + 16777216 * High(x / 65536) == x
  {
    hide Low, High;
    TwoBytes(x);
    TwoBytes(x / 65536);
  }

  /** A patched entry gives back its cluster and size and keeps its name and attributes. */
  lemma RetargetOk(e: Raw, cluster: nat, size: nat)
    requires |e| == 32 && cluster < 0x1_0000_0000 && size < 0x1_0000_0000
    ensures var r := Retarget(e, cluster, size);
      ClusterOf(r) == cluster && SizeOf(r) == size && r[..12] == e[..12]
  {
    hide Low, High;
    FourBytes(cluster);
    FourBytes(size);
    var r := Retarget(e, cluster, size);
    assert r[20] == Low(cluster / 65536) && r[21] == High(cluster / 65536);
    assert r[26] == Low(cluster) && r[27] == High(cluster);
    assert r[28] == Low(size) && r[29] == High(size) && r[30] == Low(size / 65536) && r[31] == High(size / 65536);
  }

  /** The layout on disk: the high half of the cluster in bytes 20 and 21, the low half in bytes 26 and 27, the size in
      bytes 28 to 31, each low byte first; every other byte stays. */
  lemma RetargetBytes(e: Raw, cluster: nat, size: nat)
    requires |e| == 32 && cluster < 0x1_0000_0000 && size < 0x1_0000_0000
    ensures var r := Retarget(e, cluster, size);
      && r[20] < 256 && r[21] < 256 && r[20] + 256 * r[21] == cluster / 65536
      && r[26] < 256 && r[27] < 256 && r[26] + 256 * r[27] == cluster % 65536
      && r[28] < 256 && r[29] < 256 && r[28] + 256 * r[29] == size % 65536
      && r[30] < 256 && r[31] < 256 && r[30] + 256 * r[31] == size / 65536
      && forall i | 0 <= i < 26 && i != 20 && i != 21 :: r[i] == e[i]
  {
    hide Low, High;
    TwoBytes(cluster);
    TwoBytes(cluster / 65536);
    TwoBytes(size);
    TwoBytes(size / 65536);
    var r := Retarget(e, cluster, size);
    assert r[20] == Low(cluster / 65536) && r[21] == High(cluster / 65536);
    assert r[26] == Low(cluster) && r[27] == High(cluster);
    assert r[28] == Low(size) && r[29] == High(size) && r[30] == Low(size / 65536) && r[31] == High(size / 65536);
  }

  /** Entries with the same first twelve bytes have the same name, kind and state. */
  lemma SameFace(e: Raw, r: Raw)
    requires |e| == 32 == |r| && r[..12] == e[..12]
    ensures Unused(r) == Unused(e) && Visible(r) == Visible(e) && IsDir(r) == IsDir(e) && FullName(r) == FullName(e)
    ensures r[0] == e[0]
  {
    assert r[0] == r[..12][0] && r[11] == r[..12][11] && e[0] == e[..12][0] && e[11] == e[..12][11];
    assert r[..8] == r[..12][..8] && r[8..11] == r[..12][8..11];
    assert e[..8] == e[..12][..8] && e[8..11] == e[..12][8..11];
  }

  // ----- 8.3 names -----

  const DOT: nat := 0x2E
  const SPACE: nat := 0x20

  function UpperByte(b: nat): nat {
    if 97 <= b <= 122 then b - 32 else b
  }

  /** `to_ascii_uppercase`. */
  function Upper(s: seq<nat>): (r: seq<nat>)
    ensures |r| == |s| && forall i | 0 <= i < |s| :: r[i] == UpperByte(s[i])
  {
    if s == [] then [] else [UpperByte(s[0])] + Upper(s[1..])
  }

  /** ASCII white space, as `trim_end` sees it. */
  predicate Blank(b: nat) {
    b == SPACE || 9 <= b <= 13
  }

  function TrimEnd(s: seq<nat>): (r: seq<nat>)
    ensures r <= s && (r != [] ==> !Blank(r[|r| - 1]))
  {
    if s != [] && Blank(s[|s| - 1]) then TrimEnd(s[..|s| - 1]) else s
  }

  /** `NAME` or `NAME.EXT`. */
  function FullName(e: Raw): seq<nat>
    requires |e| == 32
  {
    var ext := TrimEnd(e[8..11]);
    if ext == [] then TrimEnd(e[..8]) else TrimEnd(e[..8]) + [DOT] + ext
  }

  function Padded(s: seq<nat>, n: nat): (r: seq<nat>)
    ensures |r| == n
  {
    if |s| >= n then s[..n] else s + seq(n - |s|, i => SPACE)
  }

  /** The position of the first dot, or the length. */
  function DotAt(s: seq<nat>): (k: nat)
    ensures k <= |s| && DOT !in s[..k] && (k < |s| ==> s[k] == DOT)
  {
    if s == [] || s[0] == DOT then 0
    else
      var k := 1 + DotAt(s[1..]);
      assert s[..k] == [s[0]] + s[1..][..k - 1];
      k
  }

  /** The part between the first dot and the second, or nothing. */
  function Extension(s: seq<nat>): seq<nat> {
    var k := DotAt(s);
    if k == |s| then [] else var t := s[k + 1..]; t[..DotAt(t)]
  }

  /** `to_short_name`: eight bytes of name and three of extension. */
  function ShortName(name: seq<nat>): (r: seq<nat>)
    ensures |r| == 11
  {
    var u := Upper(name);
    Padded(u[..DotAt(u)], 8) + Padded(Extension(u), 3)
  }

  /** Names that fit: not empty, ASCII, up to eight bytes, then nothing or a dot and one to three bytes without a dot;
      neither part ends in white space. */
  predicate EightThree(name: seq<nat>) {
    var k := DotAt(name);
    && name != [] && (forall i | 0 <= i < |name| :: 0 < name[i] < 128)
    && k <= 8 && (k > 0 ==> !Blank(name[k - 1]))
    && (k < |name| ==> 2 <= |name| - k <= 4 && DOT !in name[k + 1..] && !Blank(name[|name| - 1]))
  }

  lemma {:induction false} TrimPadded(s: seq<nat>, n: nat)
    requires |s| <= n && (s == [] || !Blank(s[|s| - 1]))
    ensures TrimEnd(Padded(s, n)) == s
    decreases n
  {
    if n > |s| {
      TrimPadded(s, n - 1);
      assert Padded(s, n)[..n - 1] == Padded(s, n - 1);
    }
  }

  lemma {:induction false} DotAtUpper(s: seq<nat>)
    ensures DotAt(Upper(s)) == DotAt(s)
  {
  }

  lemma DotAtPlain(s: seq<nat>)
    requires DOT !in s
    ensures DotAt(s) == |s|
  {
  }

  lemma UpperOf(name: seq<nat>)
    ensures DOT in Upper(name) <==> DOT in name
  {
  }

  lemma ShortBase(name: seq<nat>)
    requires EightThree(name)
    ensures TrimEnd(ShortName(name)[..8]) == Upper(name)[..DotAt(name)]
  {
    hide Upper, DotAt, TrimEnd, Padded, Extension;
    var u, k := Upper(name), DotAt(name);
    DotAtUpper(name);
    TrimPadded(u[..k], 8);
    assert ShortName(name)[..8] == Padded(u[..k], 8);
  }

  lemma ExtensionIs(name: seq<nat>)
    requires EightThree(name)
    ensures Extension(Upper(name)) == if DotAt(name) == |name| then [] else Upper(name)[DotAt(name) + 1..]
  {
    hide Upper, DotAt;
    var u, k := Upper(name), DotAt(name);
    DotAtUpper(name);
    if k < |name| {
      var t := u[k + 1..];
      assert t == Upper(name[k + 1..]);
      UpperOf(name[k + 1..]);
      DotAtPlain(t);
    }
  }

  lemma ShortExtension(name: seq<nat>)
    requires EightThree(name)
    ensures TrimEnd(ShortName(name)[8..11]) == Extension(Upper(name))
  {
    hide Upper, DotAt, TrimEnd, Padded, Extension;
    var x := Extension(Upper(name));
    ExtensionIs(name);
    if x != [] { assert x[|x| - 1] == UpperByte(name[|name| - 1]); }
    TrimPadded(x, 3);
    assert ShortName(name)[8..11] == Padded(x, 3);
  }

  lemma NewEntryFace(name: seq<nat>, attr: nat, cluster: nat, size: nat)
    requires |name| == 11 && cluster < 0x1_0000_0000 && size < 0x1_0000_0000
    ensures var e := NewEntry(name, attr, cluster, size);
      e[..11] == name && e[11] == attr && ClusterOf(e) == cluster && SizeOf(e) == size
  {
    hide ClusterOf, SizeOf;
    var base: Raw := name + [attr] + seq(20, i => 0);
    RetargetOk(base, cluster, size);
    assert base[..12] == name + [attr];
    var e := NewEntry(name, attr, cluster, size);
    assert e[..11] == e[..12][..11] && e[11] == e[..12][11];
  }

  lemma NameParts(name: seq<nat>)
    requires EightThree(name)
    ensures var u, k := Upper(name), DotAt(name);
      if k == |name| then u == u[..k] else u == u[..k] + [DOT] + u[k + 1..] && u[k + 1..] != []
  {
    hide Upper, DotAt;
    var u, k := Upper(name), DotAt(name);
    if k < |name| {
      CutAt(u, k);
      assert u[k] == UpperByte(name[k]) == DOT;
    }
  }

  lemma CutAt(u: seq<nat>, k: nat)
    requires k < |u|
    ensures u == u[..k] + [u[k]] + u[k + 1..]
  {
  }

  /** An entry made from a name that fits is in use and is found under that name. */
  lemma ShortNameFits(name: seq<nat>, attr: nat, cluster: nat, size: nat)
    requires EightThree(name) && cluster < 0x1_0000_0000 && size < 0x1_0000_0000
    ensures var e := NewEntry(ShortName(name), attr, cluster, size); FullName(e) == Upper(name) && !Unused(e)
  {
    hide Upper, DotAt, TrimEnd, Padded, Extension, NewEntry, ShortName, EightThree;
    var e, n := NewEntry(ShortName(name), attr, cluster, size), ShortName(name);
    NewEntryFace(n, attr, cluster, size);
    assert e[..8] == e[..11][..8] == n[..8] && e[8..11] == e[..11][8..11] == n[8..11];
    ShortBase(name);
    ShortExtension(name);
    ExtensionIs(name);
    NameParts(name);
    ShortFirst(name);
    assert e[0] == e[..11][0];
  }

  lemma ShortFirst(name: seq<nat>)
    requires EightThree(name)
    ensures 0 < ShortName(name)[0] < 128
  {
  }
}
