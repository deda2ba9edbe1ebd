/** UDP in IPv4 in Ethernet: building, serializing and parsing. */
module Packets {
  import opened InternetChecksum

  /** Parsing gives a value, refuses the bytes, or hits a slice out of range. */
  datatype Outcome<+T> = Parsed(value: T) | Rejected | Panics

  // ----- IPv4 -----

  datatype Ipv4Header = Ipv4Header(
    versionIhl: Byte, tos: Byte, totalLength: nat, identification: nat, flags: nat, ttl: Byte, protocol: Byte,
    checksum: nat, source: seq<Byte>, dest: seq<Byte>)

  datatype Ipv4Packet = Ipv4Packet(header: Ipv4Header, payload: seq<Byte>)

  predicate HeaderFits(h: Ipv4Header) {
    && h.totalLength < 65536 && h.identification < 65536 && h.flags < 65536 && h.checksum < 65536
    && |h.source| == 4 && |h.dest| == 4
  }

  /** The ten bytes before the checksum field. */
  function HeaderFront(h: Ipv4Header): (r: seq<Byte>)
    requires HeaderFits(h)
    ensures |r| == 10
  {
    [h.versionIhl, h.tos] + Be16(h.totalLength) + Be16(h.identification) + Be16(h.flags) + [h.ttl, h.protocol]
  }

  function HeaderBytes(h: Ipv4Header): (r: seq<Byte>)
    requires HeaderFits(h)
    ensures |r| == 20
  {
    HeaderFront(h) + Be16(h.checksum) + (h.source + h.dest)
  }

  function Serialize4(p: Ipv4Packet): seq<Byte>
    requires HeaderFits(p.header)
  {
    HeaderBytes(p.header) + p.payload
  }

  function Blank(source: seq<Byte>, dest: seq<Byte>, protocol: Byte, n: nat): Ipv4Header {
    Ipv4Header(0x45, 0, (20 + n) % 65536, 0x1337, 0x4000, 64, protocol, 0, source, dest)
  }

  /** `Ipv4Packet::new`; the length field is truncated to 16 bits. */
  function New4(source: seq<Byte>, dest: seq<Byte>, protocol: Byte, payload: seq<Byte>): (p: Ipv4Packet)
    requires |source| == 4 && |dest| == 4
    ensures HeaderFits(p.header)
  {
    var h := Blank(source, dest, protocol, |payload|);
    Ipv4Packet(h.(checksum := Checksum(HeaderBytes(h))), payload)
  }

  function Parse4(data: seq<Byte>): Outcome<Ipv4Packet> {
    if |data| < 20 then Rejected
    else
      var ihl := 4 * (data[0] % 16);
      if |data| < ihl || ihl < 20 then Rejected
      else
        var total := Word16(data, 2);
        if |data| < total then Rejected
        else if Checksum(data[..ihl]) != 0 then Rejected
        else if total < ihl then Panics
        else Parsed(Ipv4Packet(
          Ipv4Header(data[0], data[1], total, Word16(data, 4), Word16(data, 6),
            data[8], data[9], Word16(data, 10), data[12..16], data[16..20]),
          data[ihl..total]))
  }

  /** Every header from `new` re-checks to zero. */
  lemma HeaderChecks(source: seq<Byte>, dest: seq<Byte>, protocol: Byte, payload: seq<Byte>)
    requires |source| == 4 && |dest| == 4
    ensures Checksum(HeaderBytes(New4(source, dest, protocol, payload).header)) == 0
  {
    hide Checksum;
    HeaderCompletes(Blank(source, dest, protocol, |payload|));
  }

  /** On received bytes the parser slices out of range exactly when a header of 20 to 60 bytes is there, its words sum
      to a positive multiple of 65535, and its total length is below its own length. */
  lemma PanicsIff(data: seq<Byte>)
    ensures Parse4(data) == Panics <==>
      && |data| >= 20
      && var ihl := 4 * (data[0] % 16);
         && 20 <= ihl <= |data| && Word16(data, 2) < ihl
         && WordSum(data[..ihl]) > 0 && WordSum(data[..ihl]) % ONES == 0
  {
    hide Checksum, WordSum, Word16;
    if |data| >= 20 && 20 <= 4 * (data[0] % 16) <= |data| { ChecksToZero(data[..4 * (data[0] % 16)]); }
  }

  /** Any ten bytes and any options that announce such a length make such a header, once the checksum is filled in. */
  lemma ShortTotalPanics(front: seq<Byte>, after: seq<Byte>, rest: seq<Byte>)
    requires |front| == 10 && 12 + |after| == 4 * (front[0] % 16) >= 20 && Word16(front, 2) < 12 + |after|
    ensures var c := Checksum(front + Be16(0) + after); Parse4(front + Be16(c) + after + rest) == Panics
  {
    hide Checksum, WordSum, Be16;
    var c := Checksum(front + Be16(0) + after);
    var header := front + Be16(c) + after;
    var data := header + rest;
    Completes(front, after, c);
    assert data[..|header|] == header;
    assert data[0] == front[0] && data[2] == front[2] && data[3] == front[3];
  }

  lemma HeaderCompletes(h: Ipv4Header)
    requires HeaderFits(h)
    ensures Checksum(HeaderBytes(h.(checksum := Checksum(HeaderBytes(h.(checksum := 0)))))) == 0
  {
    hide Checksum, WordSum, Be16;
    var blank := h.(checksum := 0);
    assert HeaderFront(blank) == HeaderFront(h.(checksum := Checksum(HeaderBytes(blank))));
    Completes(HeaderFront(blank), h.source + h.dest, Checksum(HeaderBytes(blank)));
  }

  /** Such a header: twenty bytes, total length zero. */
  lemma EmptyTotalPanics()
    ensures Parse4([0x45, 0, 0, 0, 0, 0, 0, 0, 0, 0, 0xBA, 0xFF, 0, 0, 0, 0, 0, 0, 0, 0]) == Panics
  {
    hide WordSum, Parse4;
    var front: seq<Byte>, after: seq<Byte> := [0x45, 0, 0, 0, 0, 0, 0, 0, 0, 0], [0, 0, 0, 0, 0, 0, 0, 0];
    var bytes := front + Be16(0) + after;
    assert bytes == [0x45, 0] + bytes[2..] && [0x45, 0] == Be16(0x4500);
    SumJoin([0x45, 0], bytes[2..]);
    ZeroSum(bytes[2..]);
    SumWord(0x4500);
    assert Checksum(bytes) == 0xBAFF;
    ShortTotalPanics(front, after, []);
    assert front + Be16(0xBAFF) + after + []
        == [0x45, 0, 0, 0, 0, 0, 0, 0, 0, 0, 0xBA, 0xFF, 0, 0, 0, 0, 0, 0, 0, 0];
  }

  lemma {:induction false} ZeroSum(s: seq<Byte>)
    requires forall i | 0 <= i < |s| :: s[i] == 0
    ensures WordSum(s) == 0
  {
    if |s| > 1 { ZeroSum(s[2..]); }
  }

  lemma HeaderFields(h: Ipv4Header, rest: seq<Byte>)
    requires HeaderFits(h)
    ensures var d := HeaderBytes(h) + rest;
      && d[..20] == HeaderBytes(h) && d[0] == h.versionIhl && d[1] == h.tos && Word16(d, 2) == h.totalLength
      && Word16(d, 4) == h.identification
      && Word16(d, 6) == h.flags && d[8] == h.ttl && d[9] == h.protocol && Word16(d, 10) == h.checksum
      && d[12..16] == h.source && d[16..20] == h.dest
  {
  }

  /** What the parser makes of a packet from `new`, with any bytes after it. */
  lemma Parse4Of(source: seq<Byte>, dest: seq<Byte>, protocol: Byte, payload: seq<Byte>, rest: seq<Byte>)
    requires |source| == 4 && |dest| == 4
    ensures var p := New4(source, dest, protocol, payload); var t := (20 + |payload|) % 65536;
      Parse4(Serialize4(p) + rest) ==
        if t < 20 then Panics else Parsed(p.(payload := (payload + rest)[..t - 20]))
  {
    hide Checksum, Be16, Word16, HeaderBytes;
    var p := New4(source, dest, protocol, payload);
    var d, t := Serialize4(p) + rest, (20 + |payload|) % 65536;
    assert d == HeaderBytes(p.header) + (payload + rest);
    HeaderFields(p.header, payload + rest);
    HeaderChecks(source, dest, protocol, payload);
    if t >= 20 { assert d[20..t] == (payload + rest)[..t - 20]; }
  }

  /** A packet parses back to itself, whatever follows it, exactly when its length fits sixteen bits. */
  lemma RoundTrip4(source: seq<Byte>, dest: seq<Byte>, protocol: Byte, payload: seq<Byte>, rest: seq<Byte>)
    requires |source| == 4 && |dest| == 4
    ensures var p := New4(source, dest, protocol, payload);
      Parse4(Serialize4(p) + rest) == Parsed(p) <==> |payload| <= 65515
  {
    hide Checksum;
    Parse4Of(source, dest, protocol, payload, rest);
    var t := (20 + |payload|) % 65536;
    if |payload| <= 65515 {
      assert (payload + rest)[..|payload|] == payload;
    } else if t >= 20 {
      assert |(payload + rest)[..t - 20]| != |payload|;
    }
  }

  /** The parser accepts exactly a header of 20 to 60 bytes that is there, checks, and announces a packet that is there;
      and then reads each field at its place. */
  lemma Parsed4Iff(data: seq<Byte>)
    ensures Parse4(data).Parsed? <==>
      && |data| >= 20
      && var ihl := 4 * (data[0] % 16);
         && 20 <= ihl <= Word16(data, 2) <= |data|
         && WordSum(data[..ihl]) > 0 && WordSum(data[..ihl]) % ONES == 0
    ensures Parse4(data).Parsed? ==>
      var p, ihl := Parse4(data).value, 4 * (data[0] % 16);
      && HeaderFits(p.header) && HeaderBytes(p.header) == data[..20] && p.payload == data[ihl..p.header.totalLength]
  {
    hide Checksum, WordSum, Word16, Be16;
    if |data| >= 20 && 20 <= 4 * (data[0] % 16) <= |data| { ChecksToZero(data[..4 * (data[0] % 16)]); }
    if Parse4(data).Parsed? {
      var h := Parse4(data).value.header;
      WordsBack(data, 2);
      WordsBack(data, 4);
      WordsBack(data, 6);
      WordsBack(data, 10);
      assert HeaderBytes(h) == data[..20];
    }
  }

  lemma WordsBack(s: seq<Byte>, o: nat)
    requires o + 2 <= |s|
    ensures Word16(s, o) < 65536 && Be16(Word16(s, o)) == s[o..o + 2]
  {
    assert s[o..o + 2] == [s[o], s[o + 1]];
  }

  /** What was parsed without options serializes back to the bytes it was parsed from. */
  lemma Reserialize4(data: seq<Byte>)
    requires Parse4(data).Parsed? && data[0] % 16 == 5
    ensures var p := Parse4(data).value; HeaderFits(p.header) && Serialize4(p) == data[..p.header.totalLength]
  {
    hide HeaderBytes, Word16, Checksum;
    Parsed4Iff(data);
    var n := Parse4(data).value.header.totalLength;
    assert data[..n] == data[..20] + data[20..n];
  }

  // ----- UDP -----

  datatype UdpPacket = UdpPacket(srcPort: nat, destPort: nat, length: nat, checksum: nat, payload: seq<Byte>)

  predicate UdpFits(p: UdpPacket) {
    p.srcPort < 65536 && p.destPort < 65536 && p.length < 65536 && p.checksum < 65536
  }

  function UdpFront(p: UdpPacket): (r: seq<Byte>)
    requires UdpFits(p)
    ensures |r| == 6
  {
    Be16(p.srcPort) + Be16(p.destPort) + Be16(p.length)
  }

  function SerializeUdp(p: UdpPacket): seq<Byte>
    requires UdpFits(p)
  {
    UdpFront(p) + Be16(p.checksum) + p.payload
  }

  function Pseudo(source: seq<Byte>, dest: seq<Byte>, length: nat): (r: seq<Byte>)
    requires |source| == 4 && |dest| == 4 && length < 65536
    ensures |r| == 12
  {
    source + dest + [0, 17] + Be16(length)
  }

  /** `UdpPacket::new`: a computed zero is sent as all ones, as RFC 768 asks. */
  function NewUdp(source: seq<Byte>, dest: seq<Byte>, srcPort: nat, destPort: nat, payload: seq<Byte>): (p: UdpPacket)
    requires |source| == 4 && |dest| == 4 && srcPort < 65536 && destPort < 65536
    ensures UdpFits(p)
  {
    var p := UdpPacket(srcPort, destPort, (8 + |payload|) % 65536, 0, payload);
    var c := Checksum(Pseudo(source, dest, p.length) + SerializeUdp(p));
    p.(checksum := if c == 0 then ONES else c)
  }

  function ParseUdp(data: seq<Byte>): Outcome<UdpPacket> {
    if |data| < 8 then Rejected
    else
      var length := Word16(data, 4);
      if |data| < length || length < 8 then Rejected
      else Parsed(UdpPacket(Word16(data, 0), Word16(data, 2), length, Word16(data, 6), data[8..length]))
  }

  /** Every datagram from `new` has a checksum field that is not zero, and checks to zero with its pseudo-header exactly
      when the 32-bit sum does not wrap; it does not on anything up to 131052 bytes. */
  lemma UdpChecks(source: seq<Byte>, dest: seq<Byte>, srcPort: nat, destPort: nat, payload: seq<Byte>)
    requires |source| == 4 && |dest| == 4 && srcPort < 65536 && destPort < 65536
    ensures var p := NewUdp(source, dest, srcPort, destPort, payload); var pseudo := Pseudo(source, dest, p.length);
      && p.checksum != 0
      && (Checksum(pseudo + SerializeUdp(p)) == 0 <==>
            WordSum(pseudo + SerializeUdp(p.(checksum := 0))) % WRAP + p.checksum < WRAP)
      && (|payload| <= 131052 ==> Checksum(pseudo + SerializeUdp(p)) == 0)
  {
    hide Checksum, WordSum, Be16;
    var p := NewUdp(source, dest, srcPort, destPort, payload);
    var b, pseudo := p.(checksum := 0), Pseudo(source, dest, p.length);
    var front := pseudo + UdpFront(b);
    assert pseudo + SerializeUdp(b) == front + Be16(0) + payload;
    assert pseudo + SerializeUdp(p) == front + Be16(p.checksum) + payload;
    CompletesIff(front, payload, p.checksum);
    if |payload| <= 131052 { Completes(front, payload, p.checksum); }
  }

  lemma ParseUdpOf(p: UdpPacket, rest: seq<Byte>)
    requires UdpFits(p) && p.length == (8 + |p.payload|) % 65536
    ensures ParseUdp(SerializeUdp(p) + rest) ==
      if p.length < 8 then Rejected else Parsed(p.(payload := (p.payload + rest)[..p.length - 8]))
  {
    hide Be16, Word16;
    var d := SerializeUdp(p) + rest;
    assert d[0..2] == Be16(p.srcPort) && d[2..4] == Be16(p.destPort) &&
      d[4..6] == Be16(p.length) && d[6..8] == Be16(p.checksum);
    Word16Of(d, 0, p.srcPort);
    Word16Of(d, 2, p.destPort);
    Word16Of(d, 4, p.length);
    Word16Of(d, 6, p.checksum);
    if p.length >= 8 { assert d[8..p.length] == (p.payload + rest)[..p.length - 8]; }
  }

  /** A datagram parses back to itself exactly when its length fits sixteen bits. */
  lemma RoundTripUdp(source: seq<Byte>, dest: seq<Byte>, srcPort: nat, destPort: nat, payload: seq<Byte>,
      rest: seq<Byte>)
    requires |source| == 4 && |dest| == 4 && srcPort < 65536 && destPort < 65536
    ensures var p := NewUdp(source, dest, srcPort, destPort, payload);
      ParseUdp(SerializeUdp(p) + rest) == Parsed(p) <==> |payload| <= 65527
  {
    hide Checksum, Be16, Word16, ParseUdp, SerializeUdp;
    var p := NewUdp(source, dest, srcPort, destPort, payload);
    ParseUdpOf(p, rest);
    if |payload| <= 65527 {
      assert (payload + rest)[..|payload|] == payload;
    } else if p.length >= 8 {
      assert |(payload + rest)[..p.length - 8]| != |payload|;
    }
  }

  /** The parser accepts exactly a datagram whose announced length, eight bytes at least, is there; and what it gives
      serializes back to those bytes. */
  lemma ParsedUdpIff(data: seq<Byte>)
    ensures ParseUdp(data).Parsed? <==> |data| >= 8 && 8 <= Word16(data, 4) <= |data|
    ensures ParseUdp(data).Parsed? ==>
      var u := ParseUdp(data).value; UdpFits(u) && u.length == Word16(data, 4) && SerializeUdp(u) == data[..u.length]
  {
    hide Word16, Be16;
    if ParseUdp(data).Parsed? {
      WordsBack(data, 0);
      WordsBack(data, 2);
      WordsBack(data, 4);
      WordsBack(data, 6);
    }
  }

  // ----- Ethernet -----

  datatype Frame = Frame(destMac: seq<Byte>, srcMac: seq<Byte>, ethertype: nat, payload: seq<Byte>)

  predicate FrameFits(f: Frame) {
    |f.destMac| == 6 && |f.srcMac| == 6 && f.ethertype < 65536
  }

  function Padding(n: nat): (r: seq<Byte>)
    ensures |r| == (if n < 60 then 60 - n else 0) && forall i | 0 <= i < |r| :: r[i] == 0
  {
    seq(if n < 60 then 60 - n else 0, i => 0)
  }

  /** Padded with zeros to 60 bytes. */
  function SerializeFrame(f: Frame): seq<Byte>
    requires FrameFits(f)
  {
    var b := f.destMac + f.srcMac + Be16(f.ethertype) + f.payload;
    b + Padding(|b|)
  }

  function ParseFrame(data: seq<Byte>): Outcome<Frame> {
    if |data| < 14 then Rejected
    else Parsed(Frame(data[0..6], data[6..12], Word16(data, 12), data[14..]))
  }

  /** A frame parses back to itself with the padding at the end of its payload. */
  lemma RoundTripFrame(f: Frame)
    requires FrameFits(f)
    ensures ParseFrame(SerializeFrame(f)) == Parsed(f.(payload := f.payload + Padding(14 + |f.payload|)))
  {
    hide Be16, Word16, Padding;
    var d := SerializeFrame(f);
    assert d[0..6] == f.destMac && d[6..12] == f.srcMac && d[12..14] == Be16(f.ethertype);
    Word16Of(d, 12, f.ethertype);
    assert d[14..] == f.payload + Padding(14 + |f.payload|);
  }

  /** The parser accepts exactly the header length, and what it gives serializes back to the bytes, padded. */
  lemma ParsedFrameIff(data: seq<Byte>)
    ensures ParseFrame(data).Parsed? <==> |data| >= 14
    ensures ParseFrame(data).Parsed? ==>
      var f := ParseFrame(data).value; FrameFits(f) && SerializeFrame(f) == data + Padding(|data|)
  {
    hide Word16, Be16, Padding;
    if |data| >= 14 {
      var f := ParseFrame(data).value;
      WordsBack(data, 12);
      assert f.destMac + f.srcMac + Be16(f.ethertype) + f.payload == data;
    }
  }

  /** The append and the pad loop of `EthernetFrame::serialize`. */
  method WriteFrame(f: Frame) returns (buf: seq<Byte>)
    requires FrameFits(f)
    ensures buf == SerializeFrame(f) && |buf| >= 60
  {
    buf := f.destMac + f.srcMac;
    buf := buf + Be16(f.ethertype);
    buf := buf + f.payload;
    ghost var b := buf;
    while |buf| < 60
      invariant |buf| >= |b| && buf[..|b|] == b && (|buf| == |b| || |buf| <= 60)
      invariant forall i | |b| <= i < |buf| :: buf[i] == 0
      decreases 60 - |buf|
    {
      buf := buf + [0];
    }
    assert buf == b + Padding(|b|);
  }

  // ----- The layers together -----

  datatype Route = Route(srcMac: seq<Byte>, destMac: seq<Byte>, source: seq<Byte>,
    dest: seq<Byte>, srcPort: nat, destPort: nat)

  predicate RouteFits(r: Route) {
    |r.srcMac| == 6 && |r.destMac| == 6 && |r.source| == 4 && |r.dest| == 4 && r.srcPort < 65536 && r.destPort < 65536
  }

  /** A datagram in a packet in a frame. */
  function Send(r: Route, payload: seq<Byte>): seq<Byte>
    requires RouteFits(r)
  {
    var u := NewUdp(r.source, r.dest, r.srcPort, r.destPort, payload);
    var p := New4(r.source, r.dest, 17, SerializeUdp(u));
    SerializeFrame(Frame(r.destMac, r.srcMac, 0x0800, Serialize4(p)))
  }

  function Receive(data: seq<Byte>): Outcome<(Frame, Ipv4Packet, UdpPacket)> {
    match ParseFrame(data)
    case Rejected => Rejected
    case Panics => Panics
    case Parsed(f) =>
      match Parse4(f.payload)
      case Rejected => Rejected
      case Panics => Panics
      case Parsed(p) =>
        match ParseUdp(p.payload)
        case Rejected => Rejected
        case Panics => Panics
        case Parsed(u) => Parsed((f, p, u))
  }

  /** The receiver gets the addresses, the ports and the bytes of the sender, in headers that check, with the frame
      padding gone. */
  ghost predicate Delivered(r: Route, payload: seq<Byte>, o: Outcome<(Frame, Ipv4Packet, UdpPacket)>)
    requires RouteFits(r)
  {
    && o.Parsed?
    && var (f, p, u) := o.value;
       && f.srcMac == r.srcMac && f.destMac == r.destMac && f.ethertype == 0x0800
       && IsHeader(p.header, r, 28 + |payload|)
       && UdpFits(u) && p.payload == SerializeUdp(u)
       && u.srcPort == r.srcPort && u.destPort == r.destPort && u.length == 8 + |payload| && u.payload == payload
       && u.checksum != 0 && Checksum(Pseudo(r.source, r.dest, u.length) + SerializeUdp(u)) == 0
  }

  /** The header of a UDP packet of `n` bytes on this route, as section 3.1 of RFC 791 lays it out: version 4, five
      words, not to be fragmented. */
  ghost predicate IsHeader(h: Ipv4Header, r: Route, n: nat) {
    && h.versionIhl == 0x45 && h.tos == 0 && h.totalLength == n && h.identification == 0x1337 && h.flags == 0x4000
    && h.ttl == 64 && h.protocol == 17 && h.source == r.source && h.dest == r.dest
    && HeaderFits(h) && Checksum(HeaderBytes(h)) == 0
  }

  lemma ParsedShort(data: seq<Byte>)
    requires Receive(data).Parsed?
    ensures |Receive(data).value.2.payload| <= 65507
  {
  }

  /** UDP over IPv4 over Ethernet delivers a payload exactly when it fits the 16-bit lengths: up to 65507 bytes. */
  lemma Layered(r: Route, payload: seq<Byte>)
    requires RouteFits(r)
    ensures Delivered(r, payload, Receive(Send(r, payload))) <==> |payload| <= 65507
  {
    hide Checksum, Parse4, ParseUdp, ParseFrame, SerializeFrame, Serialize4, New4, NewUdp, Padding, IsHeader,
      SerializeUdp;
    var u := NewUdp(r.source, r.dest, r.srcPort, r.destPort, payload);
    if |payload| <= 65507 {
      var p := New4(r.source, r.dest, 17, SerializeUdp(u));
      var f := Frame(r.destMac, r.srcMac, 0x0800, Serialize4(p));
      RoundTripFrame(f);
      RoundTrip4(r.source, r.dest, 17, SerializeUdp(u), Padding(14 + |f.payload|));
      RoundTripUdp(r.source, r.dest, r.srcPort, r.destPort, payload, []);
      assert SerializeUdp(u) + [] == SerializeUdp(u);
      SentFields(r, payload);
      UdpChecks(r.source, r.dest, r.srcPort, r.destPort, payload);
    } else if Receive(Send(r, payload)).Parsed? {
      ParsedShort(Send(r, payload));
    }
  }

  lemma SentFields(r: Route, payload: seq<Byte>)
    requires RouteFits(r) && |payload| <= 65507
    ensures var u := NewUdp(r.source, r.dest, r.srcPort, r.destPort, payload);
      var p := New4(r.source, r.dest, 17, SerializeUdp(u));
      && u.srcPort == r.srcPort && u.destPort == r.destPort && u.length == 8 + |payload| && u.payload == payload
      && p.payload == SerializeUdp(u) && |SerializeUdp(u)| == 8 + |payload| && IsHeader(p.header, r, 28 + |payload|)
  {
    hide Checksum, Be16;
    var u := NewUdp(r.source, r.dest, r.srcPort, r.destPort, payload);
    HeaderChecks(r.source, r.dest, 17, SerializeUdp(u));
  }

  /** The bytes that go out: where each field stands, zeros after the payload, and never fewer than sixty bytes. */
  lemma OnTheWire(r: Route, payload: seq<Byte>)
    requires RouteFits(r)
    ensures var d, n := Send(r, payload), |payload|;
      && |d| == (if 42 + n < 60 then 60 else 42 + n)
      && d[0..6] == r.destMac && d[6..12] == r.srcMac && d[12] == 0x08 && d[13] == 0x00
      && d[14] == 0x45 && Word16(d, 16) == (28 + n) % 65536 && d[22] == 64 && d[23] == 17
      && d[26..30] == r.source && d[30..34] == r.dest
      && Word16(d, 34) == r.srcPort && Word16(d, 36) == r.destPort && Word16(d, 38) == (8 + n) % 65536
      && d[42..42 + n] == payload
      && forall i | 42 + n <= i < |d| :: d[i] == 0
  {
    hide Checksum, Padding, Pseudo;
    var u := NewUdp(r.source, r.dest, r.srcPort, r.destPort, payload);
    var p := New4(r.source, r.dest, 17, SerializeUdp(u));
    var b := r.destMac + r.srcMac + Be16(0x0800) + Serialize4(p);
    assert Send(r, payload) == b + Padding(|b|);
    assert b[42..] == payload;
  }
}
