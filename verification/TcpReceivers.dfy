/** The receiving half (src/tcp_receiver.cc). */
module TcpReceivers {
  import opened Words
  import Wrap32
  import opened ByteStreams
  import opened Reassembly
  import opened Reassemblers
  import R = ReassemblyRuns
  import opened TcpMessages

  /** Receiver, reassembler and inbound stream as one value; `first` is the cached index. */
  datatype Receiver = Receiver(isn: Option<U32>, first: nat, metFin: bool, finished: bool, assembly: Assembly) {
    ghost predicate Valid() {
      && assembly.Valid()
      && first == (if isn.Some? then assembly.First() else 0)
      && (isn.None? ==> assembly.First() == 0)
    }
  }

  function NewReceiver(capacity: nat): Receiver {
    Receiver(None, 0, false, false, Start(capacity))
  }

  /** The initial sequence number after a segment. */
  function Isn(r: Receiver, m: Segment): Option<U32> {
    if m.syn then Some(m.seqno) else r.isn
  }

  /** The stream index of a segment's payload; 64-bit, so a segment at the initial sequence number
      that is not a SYN lands on the highest index. */
  function StreamIndex(r: Receiver, m: Segment): U64
    requires Isn(r, m).Some?
  {
    var seqno := if m.syn then Low32(m.seqno + 1) else m.seqno;
    Low64(Wrap32.Unwrap(seqno, Isn(r, m).value, Low64(r.assembly.First())) - 1)
  }

  ghost function Received(r: Receiver, m: Segment): (s: Receiver)
    requires r.Valid()
    ensures s.Valid()
  {
    var isn := Isn(r, m);
    if isn.None? then r
    else
      var metFin := r.metFin || m.fin;
      var assembly := Insert(r.assembly, StreamIndex(r, m), m.payload, m.fin);
      Receiver(isn, assembly.First(), metFin, r.finished || (metFin && assembly.out.closed), assembly)
  }

  function Acknowledge(r: Receiver): Ack
    requires r.Valid()
  {
    Ack(if r.isn.Some? then Some(Wrap32.Wrap(Low64(r.first + 1 + Count(r.finished)), r.isn.value)) else None,
        Min(r.assembly.out.Available(), 0xFFFF))
  }

  /** The reader of the inbound stream takes bytes. */
  function Read(r: Receiver, len: nat): (s: Receiver)
    requires r.Valid()
    ensures s.Valid()
  {
    r.(assembly := r.assembly.(out := r.assembly.out.Pop(len)))
  }

  /** The absolute sequence number the receiver needs next, and the right edge of its window. */
  function NextNeeded(r: Receiver): nat {
    1 + |r.assembly.out.pushed| + Count(r.finished)
  }

  function RightEdge(r: Receiver): nat
    requires r.Valid()
  {
    NextNeeded(r) + Acknowledge(r).windowSize
  }

  datatype Event = Arrives(m: Segment) | Reads(len: nat)

  ghost function Step(r: Receiver, e: Event): (s: Receiver)
    requires r.Valid()
    ensures s.Valid()
  {
    match e
    case Arrives(m) => Received(r, m)
    case Reads(len) => Read(r, len)
  }

  ghost function Run(r: Receiver, events: seq<Event>): (s: Receiver)
    requires r.Valid()
    ensures s.Valid()
    decreases |events|
  {
    if events == [] then r else Run(Step(r, events[0]), events[1..])
  }

  /** The receiver may be given the segment: its payload is no range that the bitmap leaves uncleared. */
  ghost predicate Handled(r: Receiver, e: Event)
    requires r.Valid()
  {
    e.Arrives? && Isn(r, e.m).Some? ==> Manageable(r.assembly, StreamIndex(r, e.m), e.m.payload)
  }

  ghost predicate AllHandled(r: Receiver, events: seq<Event>)
    requires r.Valid()
    decreases |events|
  {
    events == [] || (Handled(r, events[0]) && AllHandled(Step(r, events[0]), events[1..]))
  }

  lemma StepAdvances(r: Receiver, e: Event)
    requires r.Valid()
    ensures var s := Step(r, e);
      && r.assembly.out.pushed <= s.assembly.out.pushed && (r.finished ==> s.finished)
      && r.assembly.out.popped <= s.assembly.out.popped && s.assembly.out.capacity == r.assembly.out.capacity
      && (r.isn.Some? ==> s.isn.Some?)
  {
    hide Insert;
  }

  lemma RightEdgeIs(r: Receiver)
    requires r.Valid()
    ensures RightEdge(r) == 1 + Count(r.finished)
      + Min(r.assembly.out.popped + r.assembly.out.capacity, r.assembly.First() + 0xFFFF)
  {
  }

  /** Over every run the acknowledgement number never decreases and the window's right edge never moves
      left (RFC 9293 section 3.8.6); on the wire the acknowledgement is the wrapped `NextNeeded`. */
  lemma {:induction false} AcknowledgementsAdvance(r: Receiver, events: seq<Event>)
    requires r.Valid() && AllHandled(r, events)
    ensures var s := Run(r, events);
      && NextNeeded(r) <= NextNeeded(s)
      && RightEdge(r) <= RightEdge(s)
      && (s.isn.Some? ==> Acknowledge(s).ackno == Some(Wrap32.Wrap(Low64(NextNeeded(s)), s.isn.value)))
      && (s.isn.None? ==> Acknowledge(s).ackno == None)
    decreases |events|
  {
    if events != [] {
      var t := Step(r, events[0]);
      StepAdvances(r, events[0]);
      RightEdgeIs(r);
      RightEdgeIs(t);
      hide Step, RightEdge;
      AcknowledgementsAdvance(t, events[1..]);
    }
  }

  // ----- where a segment goes, however long the stream already is -----

  /** A segment whose absolute number lies within 2^31 of the first unassembled index is placed at that number
      less one: the 32-bit number is unwrapped around what has been assembled. */
  lemma IndexFollows(r: Receiver, m: Segment, lo: U64, isn: U32)
    requires r.Valid() && r.assembly.First() < TWO64 - TWO32
    requires Isn(r, m) == Some(isn) && !m.syn && lo >= 1 && m.seqno == Wrap32.Wrap(lo, isn)
    requires Wrap32.Distance(lo, r.assembly.First()) < TWO31
    ensures StreamIndex(r, m) == lo - 1
  {
    hide Wrap32.Wrap, Wrap32.Unwrap, Low64;
    Wrap32.RoundTrip(lo, isn, r.assembly.First());
    Wrap32.Low64Of(r.assembly.First());
    Wrap32.Low64Of(lo - 1);
  }

  /** A segment with SYN starts the stream over at index 0, and its number is the initial one. */
  lemma SynIndexIsZero(r: Receiver, m: Segment)
    requires r.Valid() && m.syn && r.assembly.First() < TWO31
    ensures Isn(r, m) == Some(m.seqno) && StreamIndex(r, m) == 0
  {
    hide Wrap32.Wrap, Wrap32.Unwrap, Low32, Low64;
    WrapOfOne(m.seqno);
    Wrap32.RoundTrip(1, m.seqno, r.assembly.First());
    Wrap32.Low64Of(r.assembly.First());
    Wrap32.Low64Of(0);
  }

  lemma WrapOfOne(isn: U32)
    ensures Wrap32.Wrap(1, isn) == Low32(isn + 1)
  {
  }

  /** In order means written: at every first unassembled index, the segment numbered right behind what has been
      assembled has its whole payload written, if it fits the window. */
  lemma InOrderIsWritten(r: Receiver, m: Segment, isn: U32)
    requires r.Valid() && r.assembly.First() < TWO64 - TWO32 - 1
    requires Isn(r, m) == Some(isn) && !m.syn && m.seqno == Wrap32.Wrap(r.assembly.First() + 1, isn)
    requires m.payload != [] && r.assembly.First() + |m.payload| < TWO64
    requires r.assembly.First() + |m.payload| <= r.assembly.out.popped + r.assembly.out.capacity
    ensures r.assembly.out.pushed + m.payload <= Received(r, m).assembly.out.pushed
  {
    hide Wrap32.Wrap, Wrap32.Unwrap, Wrap32.Distance, StreamIndex, Insert, Assembly.Valid, Low64;
    NearItself(r.assembly.First());
    IndexFollows(r, m, r.assembly.First() + 1, isn);
    R.InOrderIsWritten(r.assembly, m.payload, m.fin);
  }

  lemma NearItself(n: nat)
    ensures Wrap32.Distance(n + 1, n) < TWO31
  {
  }

  /** However long the stream already is, a genuine segment numbered within 2^31 of what has been assembled keeps
      the relation between written stream, held bytes and delivered indices. */
  lemma ReceivedTracks(r: Receiver, m: Segment, lo: U64, isn: U32, got: set<nat>, source: seq<Byte>)
    requires r.Valid() && r.assembly.First() < TWO64 - TWO32 && R.Tracks(r.assembly, got, source)
    requires Isn(r, m) == Some(isn) && !m.syn && lo >= 1 && m.seqno == Wrap32.Wrap(lo, isn)
    requires Wrap32.Distance(lo, r.assembly.First()) < TWO31 && R.Consistent(source, lo - 1, m.payload, m.fin)
    ensures R.Tracks(Received(r, m).assembly, got + R.Delivered(r.assembly, lo - 1, |m.payload|), source)
  {
    hide Wrap32.Wrap, StreamIndex, Insert, R.Tracks, R.Consistent, R.Delivered;
    IndexFollows(r, m, lo, isn);
    R.InsertTracks(r.assembly, got, source, lo - 1, m.payload, m.fin);
  }

  /** Before any SYN nothing happens; a SYN sets the initial number, and no other segment changes it. */
  lemma SynSetsTheNumber(r: Receiver, m: Segment)
    requires r.Valid()
    ensures !m.syn && r.isn.None? ==> Received(r, m) == r
    ensures Received(r, m).isn == if m.syn then Some(m.seqno) else r.isn
  {
    hide Insert, StreamIndex;
  }

  /** Finished is what the stream's being closed shows on the wire. */
  ghost predicate FinishedWhenClosed(r: Receiver) {
    && r.finished == r.assembly.out.closed
    && (r.assembly.reachEnd ==> r.metFin) && (r.assembly.out.closed ==> r.metFin)
  }

  lemma StepFinishes(r: Receiver, e: Event)
    requires r.Valid() && FinishedWhenClosed(r)
    ensures FinishedWhenClosed(Step(r, e))
  {
    hide Insert, StreamIndex;
    match e
    case Arrives(m) =>
      if Isn(r, m).Some? {
        R.InsertFlags(r.assembly, StreamIndex(r, m), m.payload, m.fin);
      }
    case Reads(_) =>
  }

  lemma {:induction false} StaysFinished(r: Receiver, events: seq<Event>)
    requires r.Valid() && FinishedWhenClosed(r)
    ensures FinishedWhenClosed(Run(r, events))
    decreases |events|
  {
    if events != [] {
      StepFinishes(r, events[0]);
      hide Step, FinishedWhenClosed;
      StaysFinished(Step(r, events[0]), events[1..]);
    }
  }

  /** Over every run from the start, the receiver asks for one number more, for FIN, exactly when the stream is
      closed. */
  lemma FinishedExactly(capacity: nat, events: seq<Event>)
    ensures var r := Run(NewReceiver(capacity), events);
      NextNeeded(r) == 1 + |r.assembly.out.pushed| + if r.assembly.out.closed then 1 else 0
  {
    StaysFinished(NewReceiver(capacity), events);
    hide Run;
  }

  class TCPReceiver {
    var initialSeqNum: Option<U32>
    var firstUnassembledIndex: nat
    var metFin: bool
    var isFinished: bool

    ghost predicate Valid(reassembler: Reassembler, inbound: ByteStream)
      reads this, reassembler, reassembler.bitmap, inbound, inbound.buffer, inbound.buffer.storage
    {
      && reassembler.Valid(inbound)
      && Receiver(initialSeqNum, firstUnassembledIndex, metFin, isFinished, reassembler.Value(inbound)).Valid()
    }

    ghost function Value(reassembler: Reassembler, inbound: ByteStream): (r: Receiver)
      requires Valid(reassembler, inbound)
      reads this, reassembler, reassembler.bitmap, inbound, inbound.buffer, inbound.buffer.storage
      ensures r.Valid()
    {
      Receiver(initialSeqNum, firstUnassembledIndex, metFin, isFinished, reassembler.Value(inbound))
    }

    constructor (reassembler: Reassembler, inbound: ByteStream)
      requires reassembler.Valid(inbound) && reassembler.Value(inbound) == Start(inbound.capacity)
      ensures Valid(reassembler, inbound) && Value(reassembler, inbound) == NewReceiver(inbound.capacity)
    {
      initialSeqNum, firstUnassembledIndex, metFin, isFinished := None, 0, false, false;
    }

    method Receive(message: Segment, reassembler: Reassembler, inbound: ByteStream)
      requires Valid(reassembler, inbound)
      requires Handled(Value(reassembler, inbound), Arrives(message))
      modifies this, reassembler, reassembler.bitmap, inbound, inbound.buffer, inbound.buffer.storage
      ensures Valid(reassembler, inbound) && inbound.buffer.storage == old(inbound.buffer.storage)
      ensures Value(reassembler, inbound) == Received(old(Value(reassembler, inbound)), message)
    {
      hide Insert, Manageable, Wrap32.Unwrap, Reassembler.Valid, Reassembler.Value, Assembly.Valid;
      reassembler.ValueIs(inbound);
      var seqno := message.seqno;
      if message.syn {
        initialSeqNum := Some(message.seqno);
        seqno := Low32(message.seqno + 1);
      }
      if initialSeqNum.None? {
        return;
      }
      metFin := metFin || message.fin;
      var index := Low64(Wrap32.Unwrap(seqno, initialSeqNum.value, Low64(reassembler.firstUnassembled)) - 1);
      reassembler.Insert(index, message.payload, message.fin, inbound);
      reassembler.ValueIs(inbound);
      isFinished := isFinished || (metFin && inbound.closed);
      firstUnassembledIndex := reassembler.firstUnassembled;
    }

    method Send(reassembler: Reassembler, inbound: ByteStream) returns (ack: Ack)
      requires Valid(reassembler, inbound)
      ensures ack == Acknowledge(Value(reassembler, inbound))
    {
      hide Reassembler.RingHolds, Reassembler.Unallocated, ByteStream.Valid, Assembly.Valid, Wrap32.Wrap;
      var ackno := None;
      if initialSeqNum.Some? {
        ackno := Some(Wrap32.Wrap(Low64(firstUnassembledIndex + 1 + Count(isFinished)), initialSeqNum.value));
      }
      ack := Ack(ackno, Min(inbound.AvailableCapacity(), 0xFFFF));
    }
  }

  /** A receiver with its reassembler and stream. */
  method Take(receiver: TCPReceiver, reassembler: Reassembler, inbound: ByteStream, e: Event)
    requires receiver.Valid(reassembler, inbound) && Handled(receiver.Value(reassembler, inbound), e)
    modifies receiver, reassembler, reassembler.bitmap, inbound, inbound.buffer, inbound.buffer.storage
    ensures receiver.Valid(reassembler, inbound) && inbound.buffer.storage == old(inbound.buffer.storage)
    ensures receiver.Value(reassembler, inbound) == Step(old(receiver.Value(reassembler, inbound)), e)
  {
    hide Insert, Manageable, StreamIndex, Reassembler.Valid, Reassembler.Value, Assembly.Valid;
    match e
    case Arrives(m) =>
      receiver.Receive(m, reassembler, inbound);
    case Reads(len) =>
      reassembler.ValueIs(inbound);
      reassembler.LetRead(len, inbound);
  }

  /** The events of a run, one after the other, on the objects; then a message goes out. The acknowledgement
      is the wrapped 1 + bytes written + 1 once finished, no lower than at the start, and the right edge of
      the window has not moved left. */
  method Replay(receiver: TCPReceiver, reassembler: Reassembler, inbound: ByteStream, events: seq<Event>) returns (ack: Ack)
    requires receiver.Valid(reassembler, inbound) && AllHandled(receiver.Value(reassembler, inbound), events)
    modifies receiver, reassembler, reassembler.bitmap, inbound, inbound.buffer, inbound.buffer.storage
    ensures receiver.Valid(reassembler, inbound)
    ensures receiver.Value(reassembler, inbound) == Run(old(receiver.Value(reassembler, inbound)), events)
    ensures var needed := 1 + inbound.bytesPushed + Count(receiver.isFinished);
      && (receiver.initialSeqNum.Some? ==> ack.ackno == Some(Wrap32.Wrap(Low64(needed), receiver.initialSeqNum.value)))
      && (receiver.initialSeqNum.None? ==> ack.ackno == None)
      && needed >= NextNeeded(old(receiver.Value(reassembler, inbound)))
      && needed + ack.windowSize >= RightEdge(old(receiver.Value(reassembler, inbound)))
  {
    hide Run, AllHandled, Assembly.Valid, Reassembler.Valid, Wrap32.Wrap;
    ghost var start := receiver.Value(reassembler, inbound);
    ReplayLoop(receiver, reassembler, inbound, events);
    AcknowledgementsAdvance(start, events);
    ack := receiver.Send(reassembler, inbound);
    PushedIsWritten(reassembler, inbound);
  }

  lemma PushedIsWritten(reassembler: Reassembler, inbound: ByteStream)
    requires reassembler.Valid(inbound)
    ensures |reassembler.Value(inbound).out.pushed| == inbound.bytesPushed
  {
    hide Reassembler.RingHolds, Reassembler.Unallocated;
  }

  method ReplayLoop(receiver: TCPReceiver, reassembler: Reassembler, inbound: ByteStream, events: seq<Event>)
    requires receiver.Valid(reassembler, inbound) && AllHandled(receiver.Value(reassembler, inbound), events)
    modifies receiver, reassembler, reassembler.bitmap, inbound, inbound.buffer, inbound.buffer.storage
    ensures receiver.Valid(reassembler, inbound) && inbound.buffer.storage == old(inbound.buffer.storage)
    ensures receiver.Value(reassembler, inbound) == Run(old(receiver.Value(reassembler, inbound)), events)
  {
    hide TCPReceiver.Valid, TCPReceiver.Value, Step, Handled;
    ghost var storage := inbound.buffer.storage;
    assert events[0..] == events;
    for i := 0 to |events|
      invariant receiver.Valid(reassembler, inbound) && inbound.buffer.storage == storage
      invariant AllHandled(receiver.Value(reassembler, inbound), events[i..])
      invariant Run(receiver.Value(reassembler, inbound), events[i..]) == Run(old(receiver.Value(reassembler, inbound)), events)
    {
      assert events[i..][0] == events[i] && events[i..][1..] == events[i + 1..];
      Take(receiver, reassembler, inbound, events[i]);
    }
  }
}
