/** The ring as an object: pushing, popping, writing text and flushing, each under its lock. */
module SerialObject {
  import opened Wrappers
  import opened SerialRing

  /** A ring nobody is inside of. */
  function Still(data: seq<nat>, head: nat, tail: nat): Ring {
    Ring(data, head, tail, 0, Idle, Waiting, [], [], 0, 0)
  }

  lemma Appended(data: seq<nat>, head: nat, tail: nat, byte: nat)
    requires Bounded(Still(data, head, tail)) && Slot(tail, 1) != head
    ensures Buffered(Still(data[tail := byte], head, Slot(tail, 1))) == Buffered(Still(data, head, tail)) + [byte]
  {
  }

  /** What `push_byte` leaves, as contents and drop count. */
  function PushOne(held: seq<nat>, dropped: nat, byte: nat): (seq<nat>, nat) {
    if |held| < N - 1 then (held + [byte], dropped) else (held, dropped + 1)
  }

  function PushAll(held: seq<nat>, dropped: nat, bytes: seq<nat>): (seq<nat>, nat)
    decreases bytes
  {
    if bytes == [] then (held, dropped)
    else var (h, d) := PushOne(held, dropped, bytes[0]); PushAll(h, d, bytes[1..])
  }

  /** A full ring keeps the oldest bytes: pushing stores the longest prefix that fits and counts the rest as dropped. */
  lemma {:induction false} PushAllIs(held: seq<nat>, dropped: nat, bytes: seq<nat>)
    requires |held| <= N - 1
    ensures var room := if |held| + |bytes| <= N - 1 then |bytes| else N - 1 - |held|;
      PushAll(held, dropped, bytes) == (held + bytes[..room], dropped + |bytes| - room)
    decreases bytes
  {
    assert held + bytes[..0] == held;
    if bytes != [] {
      var (h, d) := PushOne(held, dropped, bytes[0]);
      PushAllIs(h, d, bytes[1..]);
      assert held + bytes[1..][..0] == held;
      var room := if |held| + |bytes| <= N - 1 then |bytes| else N - 1 - |held|;
      if room > 0 {
        assert held + bytes[..room] == held + [bytes[0]] + bytes[1..][..room - 1];
      }
    }
  }

  const CR: nat := 13
  const LF: nat := 10

  /** Text as it goes into the ring: a carriage return before every line feed. */
  function Expanded(s: seq<nat>): seq<nat> {
    if s == [] then [] else (if s[0] == LF then [CR, LF] else [s[0]]) + Expanded(s[1..])
  }

  /** "[DROPPED]" and a line end. */
  function Notice(): seq<nat> {
    [0x5B, 0x44, 0x52, 0x4F, 0x50, 0x50, 0x45, 0x44, 0x5D, CR, LF]
  }

  /** What flushing one ring sends. */
  function Output(held: seq<nat>, dropped: nat): seq<nat> {
    (if dropped > 0 then Notice() else []) + held
  }

  class PerCpuSerialBuffer {
    const data: array<nat>
    var head: nat
    var tail: nat
    var dropped: nat

    ghost predicate Valid()
      reads this, data
    {
      data.Length == N && head < N && tail < N
    }

    ghost function Contents(): (s: seq<nat>)
      requires Valid()
      reads this, data
      ensures |s| <= N - 1
    {
      Buffered(Still(data[..], head, tail))
    }

    constructor ()
      ensures Valid() && fresh(data) && Contents() == [] && dropped == 0
    {
      data := new nat[N](i => 0);
      head, tail, dropped := 0, 0, 0;
    }

    /** Append the byte, or count it as dropped when 8191 are held. */
    method PushByte(byte: nat)
      requires Valid()
      modifies this, data
      ensures Valid() && (Contents(), dropped) == PushOne(old(Contents()), old(dropped), byte)
    {
      var t := tail;
      var next := (t + 1) % N;
      SlotIsMod(t, 1);
      if next == head {
        dropped := dropped + 1;
        return;
      }
      Appended(data[..], head, t, byte);
      ghost var was := data[..];
      data[t] := byte;
      assert data[..] == was[t := byte];
      tail := next;
    }

    /** The oldest byte, or nothing. */
    method PopByte() returns (r: Option<nat>)
      requires Valid()
      modifies `head
      ensures Valid()
      ensures if old(Contents()) == [] then r == None && Contents() == []
              else r == Some(old(Contents())[0]) && Contents() == old(Contents())[1..]
    {
      var h := head;
      if h == tail { return None; }
      BufferedPop(Still(data[..], h, tail), Still(data[..], Slot(h, 1), tail));
      var byte := data[h];
      SlotIsMod(h, 1);
      head := (h + 1) % N;
      r := Some(byte);
    }

    method Len() returns (n: nat)
      requires Valid()
      ensures n == |Contents()|
    {
      n := if tail >= head then tail - head else N - head + tail;
    }

    method TakeDropped() returns (n: nat)
      requires Valid()
      modifies `dropped
      ensures Valid() && Contents() == old(Contents()) && n == old(dropped) && dropped == 0
    {
      n := dropped;
      dropped := 0;
    }

    /** `write_str`. */
    method WriteStr(s: seq<nat>)
      requires Valid()
      modifies this, data
      ensures Valid() && (Contents(), dropped) == PushAll(old(Contents()), old(dropped), Expanded(s))
    {
      hide Buffered, PushOne, Valid;
      var i := 0;
      assert s[0..] == s;
      while i < |s|
        invariant 0 <= i <= |s| && Valid()
        invariant PushAll(Contents(), dropped, Expanded(s[i..])) == PushAll(old(Contents()), old(dropped), Expanded(s))
      {
        assert s[i..][1..] == s[i + 1..];
        ghost var rest := Expanded(s[i + 1..]);
        if s[i] == LF {
          assert ([CR, LF] + rest)[1..] == [LF] + rest && ([LF] + rest)[1..] == rest;
          PushByte(CR);
        } else {
          assert ([s[i]] + rest)[1..] == rest;
        }
        PushByte(s[i]);
        i := i + 1;
      }
    }

    /** Flush one ring: the notice if bytes were dropped, then everything held, oldest first. */
    method Drain() returns (sent: seq<nat>)
      requires Valid()
      modifies this
      ensures Valid() && Contents() == [] && dropped == 0
      ensures sent == Output(old(Contents()), old(dropped))
    {
      hide Buffered, Notice, Contents, Valid;
      ghost var goal := Output(Contents(), dropped);
      var lost := TakeDropped();
      sent := if lost > 0 then Notice() else [];
      assert sent + Contents() == goal;
      PopJoin(sent, Contents(), goal);
      var byte := PopByte();
      while byte.Some?
        invariant Valid() && dropped == 0 && (byte == None ==> Contents() == [])
        invariant sent + Pending(byte) + Contents() == goal
        decreases |Contents()|, byte.Some?
      {
        sent := sent + [byte.value];
        PopJoin(sent, Contents(), goal);
        byte := PopByte();
      }
      assert sent + [] + [] == sent;
    }
  }

  function Pending(b: Option<nat>): seq<nat> {
    if b.Some? then [b.value] else []
  }

  lemma PopJoin(sent: seq<nat>, held: seq<nat>, goal: seq<nat>)
    requires sent + held == goal
    ensures held != [] ==> sent + [held[0]] + held[1..] == goal
    ensures held == [] ==> sent + [] + [] == goal
  {
  }

  function AllOutput(views: seq<(seq<nat>, nat)>): seq<nat> {
    if views == [] then [] else Output(views[0].0, views[0].1) + AllOutput(views[1..])
  }

  lemma {:induction false} AllOutputJoin(views: seq<(seq<nat>, nat)>, k: nat)
    requires k < |views|
    ensures AllOutput(views[..k + 1]) == AllOutput(views[..k]) + Output(views[k].0, views[k].1)
  {
    if k == 0 {
      assert views[..1][1..] == [] && views[..0] == [];
    } else {
      AllOutputJoin(views[1..], k - 1);
      assert views[..k + 1][1..] == views[1..][..k] && views[..k][1..] == views[1..][..k - 1];
    }
  }

  /** The views describe the rings. */
  ghost predicate Describes(views: seq<(seq<nat>, nat)>, rings: seq<PerCpuSerialBuffer>)
    reads rings, set i | 0 <= i < |rings| :: rings[i].data
  {
    && |views| == |rings|
    && forall i | 0 <= i < |rings| :: rings[i].Valid() && views[i] == (rings[i].Contents(), rings[i].dropped)
  }

  /** The quick check of `serial_flush_all`: some ring holds a byte. Counted drops alone do not show. */
  method AnyPending(rings: seq<PerCpuSerialBuffer>) returns (any: bool)
    requires forall i | 0 <= i < |rings| :: rings[i].Valid()
    ensures any <==> exists i :: 0 <= i < |rings| && rings[i].Contents() != []
  {
    hide Buffered, PerCpuSerialBuffer.Contents;
    var i := 0;
    while i < |rings|
      invariant 0 <= i <= |rings| && forall j | 0 <= j < i :: rings[j].Contents() == []
    {
      var n := rings[i].Len();
      if n > 0 { return true; }
      i := i + 1;
    }
    any := false;
  }

  /** The drain loop of `serial_flush_all`. */
  method DrainAll(rings: seq<PerCpuSerialBuffer>, ghost views: seq<(seq<nat>, nat)>) returns (sent: seq<nat>)
    requires Describes(views, rings)
    requires forall i, j | 0 <= i < j < |rings| :: rings[i] != rings[j]
    modifies rings
    ensures sent == AllOutput(views)
    ensures forall i | 0 <= i < |rings| :: rings[i].Valid() && rings[i].Contents() == [] && rings[i].dropped == 0
  {
    hide Buffered, AllOutput;
    sent := [];
    var k := 0;
    AllOutputNone(views[..0]);
    while k < |rings|
      invariant 0 <= k <= |rings| && sent == AllOutput(views[..k])
      invariant forall i | 0 <= i < k :: rings[i].Valid() && rings[i].Contents() == [] && rings[i].dropped == 0
      invariant forall i | k <= i < |rings| :: rings[i].Valid() && views[i] == (rings[i].Contents(), rings[i].dropped)
    {
      var out := rings[k].Drain();
      AllOutputJoin(views, k);
      sent := sent + out;
      k := k + 1;
    }
    assert views[..k] == views;
  }

  /** `serial_flush_all`: with buffering active, the port free and a byte in some ring, every ring is sent in turn, a
      notice first where bytes were dropped, and left empty; otherwise nothing happens. */
  method FlushAll(active: bool, portFree: bool, rings: seq<PerCpuSerialBuffer>, ghost views: seq<(seq<nat>, nat)>)
      returns (sent: seq<nat>)
    requires Describes(views, rings)
    requires forall i, j | 0 <= i < j < |rings| :: rings[i] != rings[j]
    modifies rings
    ensures
      if active && portFree && exists i :: 0 <= i < |views| && views[i].0 != [] then
        && sent == AllOutput(views)
        && forall i | 0 <= i < |rings| :: rings[i].Valid() && rings[i].Contents() == [] && rings[i].dropped == 0
      else sent == [] && Describes(views, rings)
  {
    hide AllOutput, PerCpuSerialBuffer.Contents;
    if !active { return []; }
    var any := AnyPending(rings);
    if !any || !portFree { return []; }
    sent := DrainAll(rings, views);
  }

  lemma AllOutputNone(views: seq<(seq<nat>, nat)>)
    requires views == []
    ensures AllOutput(views) == []
  {
  }
}
