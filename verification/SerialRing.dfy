/** The per-CPU serial ring under every interleaving of its producer's and its consumer's memory accesses. */
module SerialRing {
  const N: nat := 8192

  /** `(i + k) % SERIAL_BUF_SIZE`. */
  function Slot(i: nat, k: nat): nat
    requires i < N && k <= N
  {
    if i + k >= N then i + k - N else i + k
  }

  lemma SlotIsMod(i: nat, k: nat)
    requires i < N && k <= N
    ensures Slot(i, k) == (i + k) % N
  {
  }

  /** Where the owning CPU is in `push_byte`. */
  datatype Producer =
    | Idle
    | Loaded(byte: nat, tail: nat)
    | Dropping
    | Checked(byte: nat, tail: nat)
    | Written(byte: nat, tail: nat)

  /** Where the flusher is in `pop_byte`. */
  datatype Consumer =
    | Waiting
    | AtHead(head: nat)
    | Nonempty(head: nat)
    | Took(head: nat, byte: nat)

  /** The shared words, the two program counters, and the history: bytes accepted, popped and tried, and drops
      reported. */
  datatype Ring = Ring(
    data: seq<nat>, head: nat, tail: nat, dropped: nat, producer: Producer, consumer: Consumer,
    accepted: seq<nat>, popped: seq<nat>, attempts: nat, reported: nat)

  /** One atomic access each. */
  datatype Access = LoadTail(byte: nat) | CompareHead | CountDrop | WriteByte | StoreTail
    | LoadHead | CompareTail | ReadByte | StoreHead | TakeDropped

  function Start(): Ring {
    Ring(seq(N, i => 0), 0, 0, 0, Idle, Waiting, [], [], 0, 0)
  }

  predicate Bounded(r: Ring) {
    |r.data| == N && r.head < N && r.tail < N
  }

  /** Bytes between head and tail: what `len` returns. */
  function Held(r: Ring): (n: nat)
    requires Bounded(r)
    ensures n < N && Slot(r.head, n) == r.tail
  {
    if r.tail >= r.head then r.tail - r.head else N - r.head + r.tail
  }

  function Buffered(r: Ring): (s: seq<nat>)
    requires Bounded(r)
    ensures |s| == Held(r)
  {
    seq(Held(r), i requires 0 <= i < Held(r) => r.data[Slot(r.head, i)])
  }

  /** The access the program counters allow; any other leaves the state. */
  function Next(r: Ring, a: Access): Ring
    requires Good(r)
  {
    match a
    case LoadTail(byte) =>
      if r.producer.Idle? then r.(producer := Loaded(byte, r.tail), attempts := r.attempts + 1) else r
    case CompareHead =>
      if r.producer.Loaded? then
        r.(producer := if Slot(r.producer.tail, 1) == r.head then Dropping
          else Checked(r.producer.byte, r.producer.tail))
      else r
    case CountDrop => if r.producer.Dropping? then r.(producer := Idle, dropped := r.dropped + 1) else r
    case WriteByte =>
      if r.producer.Checked? then
        r.(producer := Written(r.producer.byte, r.producer.tail), data := r.data[r.producer.tail := r.producer.byte])
      else r
    case StoreTail =>
      if r.producer.Written? then
        r.(producer := Idle, tail := Slot(r.producer.tail, 1), accepted := r.accepted + [r.producer.byte])
      else r
    case LoadHead => if r.consumer.Waiting? then r.(consumer := AtHead(r.head)) else r
    case CompareTail =>
      if r.consumer.AtHead? then
        r.(consumer := if r.consumer.head == r.tail then Waiting else Nonempty(r.consumer.head))
      else r
    case ReadByte =>
      if r.consumer.Nonempty? then r.(consumer := Took(r.consumer.head, r.data[r.consumer.head])) else r
    case StoreHead =>
      if r.consumer.Took? then
        r.(consumer := Waiting, head := Slot(r.consumer.head, 1), popped := r.popped + [r.consumer.byte])
      else r
    case TakeDropped => r.(dropped := 0, reported := r.reported + r.dropped)
  }

  /** The producer's copy of the tail is current; past its check there is room. */
  predicate ProducerOk(r: Ring)
    requires Bounded(r)
  {
    match r.producer
    case Loaded(_, t) => t == r.tail
    case Checked(_, t) => t == r.tail && Held(r) < N - 1
    case Written(b, t) => t == r.tail && Held(r) < N - 1 && r.data[r.tail] == b
    case _ => true
  }

  /** The consumer's copy of the head is current; past its check there is a byte, and it holds the oldest one. */
  predicate ConsumerOk(r: Ring)
    requires Bounded(r)
  {
    match r.consumer
    case AtHead(h) => h == r.head
    case Nonempty(h) => h == r.head && Held(r) > 0
    case Took(h, b) => h == r.head && Held(r) > 0 && r.data[r.head] == b
    case Waiting => true
  }

  function Busy(r: Ring): nat {
    if r.producer.Idle? then 0 else 1
  }

  /** A bounded FIFO: what was accepted is what was popped followed by what is held, and every attempt is accounted
      for. */
  predicate Good(r: Ring) {
    && Bounded(r) && ProducerOk(r) && ConsumerOk(r)
    && r.accepted == r.popped + Buffered(r)
    && r.attempts == |r.accepted| + r.dropped + r.reported + Busy(r)
  }

  /** The slot about to be written is never one the consumer may still read, in particular not the one it is reading. */
  lemma SlotsApart(r: Ring)
    requires Good(r) && r.producer.Checked?
    ensures forall i | 0 <= i < Held(r) :: Slot(r.head, i) != r.producer.tail
    ensures r.consumer.Nonempty? ==> r.consumer.head != r.producer.tail
  {
  }

  lemma WriteKeeps(r: Ring)
    requires Good(r) && r.producer.Checked?
    ensures Good(Next(r, WriteByte))
  {
  }

  lemma StoreTailKeeps(r: Ring)
    requires Good(r) && r.producer.Written?
    ensures Good(Next(r, StoreTail))
  {
  }

  lemma BufferedPop(r: Ring, r': Ring)
    requires Bounded(r) && Held(r) > 0 && r'.data == r.data && r'.tail == r.tail && r'.head == Slot(r.head, 1)
    ensures Bounded(r') && Held(r') == Held(r) - 1 && Buffered(r) == [r.data[r.head]] + Buffered(r')
  {
  }

  lemma StoreHeadKeeps(r: Ring)
    requires Good(r) && r.consumer.Took?
    ensures Good(Next(r, StoreHead))
  {
  }

  /** Every access by either side keeps the ring good. */
  lemma NextKeeps(r: Ring, a: Access)
    requires Good(r)
    ensures Good(Next(r, a))
  {
    if a.WriteByte? && r.producer.Checked? {
      WriteKeeps(r);
    } else if a.StoreTail? && r.producer.Written? {
      StoreTailKeeps(r);
    } else if a.StoreHead? && r.consumer.Took? {
      StoreHeadKeeps(r);
    } else {
      var r' := Next(r, a);
      assert Buffered(r') == Buffered(r);
    }
  }

  /** A byte is dropped only when 8191 are held, and a pop finds nothing only when none is. */
  lemma VerdictsExact(r: Ring)
    requires Good(r)
    ensures r.producer.Loaded? ==> (Next(r, CompareHead).producer.Dropping? <==> |Buffered(r)| == N - 1)
    ensures r.consumer.AtHead? ==> (Next(r, CompareTail).consumer.Waiting? <==> Buffered(r) == [])
  {
  }

  /** Any interleaving, as a list of accesses. */
  function Run(r: Ring, accesses: seq<Access>): Ring
    requires Good(r)
    decreases accesses
  {
    if accesses == [] then r else NextKeeps(r, accesses[0]); Run(Next(r, accesses[0]), accesses[1..])
  }

  lemma StartGood()
    ensures Good(Start())
  {
  }

  /** After every interleaving: popped bytes are a prefix of the accepted ones in order, the rest is in the ring, at
      most 8191 bytes are held, and attempts are accepted, dropped or still under way. */
  lemma {:induction false} RunGood(r: Ring, accesses: seq<Access>)
    requires Good(r)
    ensures var r' := Run(r, accesses);
      && Good(r') && r'.popped <= r'.accepted && |r'.accepted| - |r'.popped| <= N - 1
      && r'.accepted[|r'.popped|..] == Buffered(r')
      && r.popped <= r'.popped && r.accepted <= r'.accepted
    decreases accesses
  {
    hide Good, Next, Buffered;
    GoodParts(r);
    if accesses != [] {
      NextKeeps(r, accesses[0]);
      NextGrows(r, accesses[0]);
      RunGood(Next(r, accesses[0]), accesses[1..]);
    }
  }

  /** From an empty ring, after every interleaving the accepted bytes are those popped, in order, and then those
      held. */
  lemma FromStart(accesses: seq<Access>)
    ensures Good(Start())
    ensures var r := Run(Start(), accesses);
      Good(r) && r.accepted == r.popped + Buffered(r) && |Buffered(r)| <= N - 1
  {
    hide Good, Next, Buffered;
    StartGood();
    RunGood(Start(), accesses);
  }

  lemma NextGrows(r: Ring, a: Access)
    requires Good(r)
    ensures r.popped <= Next(r, a).popped && r.accepted <= Next(r, a).accepted
  {
  }

  /** An undisturbed push appends the byte, or drops it when the ring is full. */
  function Push(r: Ring, byte: nat): Ring
    requires Good(r) && r.producer.Idle?
  {
    Run(r, [LoadTail(byte), CompareHead, CountDrop, WriteByte, StoreTail])
  }

  lemma PushIs(r: Ring, byte: nat)
    requires Good(r) && r.producer.Idle?
    ensures var r' := Push(r, byte);
      && Good(r') && r'.producer.Idle? && r'.popped == r.popped
      && if |Buffered(r)| < N - 1 then Buffered(r') == Buffered(r) + [byte] && r'.dropped == r.dropped
         else Buffered(r') == Buffered(r) && r'.dropped == r.dropped + 1
  {
    hide Good;
    var s := [LoadTail(byte), CompareHead, CountDrop, WriteByte, StoreTail];
    NextKeeps(r, s[0]);
    var r1 := Next(r, s[0]);
    NextKeeps(r1, s[1]);
    var r2 := Next(r1, s[1]);
    NextKeeps(r2, s[2]);
    var r3 := Next(r2, s[2]);
    NextKeeps(r3, s[3]);
    var r4 := Next(r3, s[3]);
    NextKeeps(r4, s[4]);
    var r5 := Next(r4, s[4]);
    Unrolled(r, s);
    GoodParts(r);
    GoodParts(r1);
    GoodParts(r5);
    assert r1.producer.Loaded?;
    VerdictsExact(r1);
    assert Buffered(r1) == Buffered(r);
    if |Buffered(r)| < N - 1 {
      assert r5.accepted == r.accepted + [byte];
      assert (r.accepted + [byte])[|r.popped|..] == r.accepted[|r.popped|..] + [byte];
    } else {
      assert r5.accepted == r.accepted;
    }
  }

  lemma GoodParts(r: Ring)
    requires Good(r)
    ensures Bounded(r) && ProducerOk(r) && ConsumerOk(r) && r.accepted == r.popped + Buffered(r)
    ensures |r.accepted| == |r.popped| + Held(r)
    ensures r.accepted[|r.popped|..] == Buffered(r)
  {
  }

  lemma Unrolled(r: Ring, s: seq<Access>)
    requires Good(r) && |s| == 5 && Good(Next(r, s[0])) && Good(Next(Next(r, s[0]), s[1]))
    requires Good(Next(Next(Next(r, s[0]), s[1]), s[2]))
    requires Good(Next(Next(Next(Next(r, s[0]), s[1]), s[2]), s[3]))
    ensures Run(r, s) == Next(Next(Next(Next(Next(r, s[0]), s[1]), s[2]), s[3]), s[4])
  {
    hide Good, Next;
    NextKeeps(Next(Next(Next(Next(r, s[0]), s[1]), s[2]), s[3]), s[4]);
    var r1 := Next(r, s[0]);
    var r2 := Next(r1, s[1]);
    var r3 := Next(r2, s[2]);
    var r4 := Next(r3, s[3]);
    assert Run(r4, s[4..]) == Next(r4, s[4]) by { assert s[4..][1..] == []; }
    assert Run(r3, s[3..]) == Run(r4, s[4..]) by { assert s[3..][1..] == s[4..]; }
    assert Run(r2, s[2..]) == Run(r3, s[3..]) by { assert s[2..][1..] == s[3..]; }
    assert Run(r1, s[1..]) == Run(r2, s[2..]) by { assert s[1..][1..] == s[2..]; }
  }
}
