/** A sender, a receiver, and a network that loses, duplicates and reorders in both directions. */
module Connection {
  import opened Words
  import Wrap32
  import opened ByteStreams
  import opened Reassembly
  import R = ReassemblyRuns
  import opened TcpMessages
  import opened TcpReceivers
  import opened SenderModel
  import opened SenderQueues
  import opened SenderInvariant
  import S = SenderRuns

  /** `segments` and `acks` are all messages ever sent: the network may deliver any of them at any time,
      again and again, or never. */
  datatype System = System(sender: S.World, receiver: Receiver, segments: set<Segment>, acks: set<Ack>)

  datatype Step =
    | Local(e: S.Event)
    | Transmit
    | DeliverSegment(m: Segment)
    | SendAck
    | DeliverAck(a: Ack)
    | ReadInbound(len: nat)

  /** Which steps can happen; fewer than 2^31 sequence numbers are used in all. */
  ghost predicate Enabled(c: System, step: Step) {
    c.receiver.Valid() &&
    match step
    case Local(e) => (e.Write? || e.Finish? || e.PushAll? || e.Wait?) && S.InOrder(c.sender, e) && Small(S.After(c.sender, e))
    case Transmit => S.InOrder(c.sender, S.SendOne)
    case DeliverSegment(m) => m in c.segments
    case SendAck => true
    case DeliverAck(a) => a in c.acks && S.InOrder(c.sender, S.Hear(a)) && Small(S.After(c.sender, S.Hear(a)))
    case ReadInbound(_) => true
  }

  ghost predicate Small(w: S.World) {
    S.Fits(w) && |w.out.pushed| + 2 < TWO31
  }

  ghost function Next(c: System, step: Step): System
    requires Enabled(c, step)
  {
    match step
    case Local(e) => c.(sender := S.After(c.sender, e))
    case Transmit =>
      var sent := MaybeSend(c.sender.s).1;
      c.(sender := S.After(c.sender, S.SendOne), segments := c.segments + if sent.Some? then {sent.value} else {})
    case DeliverSegment(m) => c.(receiver := Received(c.receiver, m))
    case SendAck => c.(acks := c.acks + {Acknowledge(c.receiver)})
    case DeliverAck(a) => c.(sender := S.After(c.sender, S.Hear(a)))
    case ReadInbound(len) => c.(receiver := Read(c.receiver, len))
  }

  function Begin(isn: U32, initialRto: U64, sendCapacity: nat, receiveCapacity: nat): System {
    System(S.Begin(isn, initialRto, sendCapacity), NewReceiver(receiveCapacity), {}, {})
  }

  // ----- the invariant -----

  /** The segment was cut from the stream at `lo` and has been counted. */
  ghost predicate SentAt(w: S.World, m: Segment, lo: nat) {
    SegmentAt(m, lo, w.s.isn, w.out) && lo + m.Length() <= w.s.nextSeqno
  }

  ghost predicate WasSent(w: S.World, m: Segment) {
    exists lo: nat :: SentAt(w, m, lo)
  }

  /** The indices the receiver has: written or held. */
  ghost function Gathered(a: Assembly): set<nat> {
    Interval(0, a.First()) + a.pending.Keys
  }

  /** The receiver only has bytes the sender has taken, and knows the right initial sequence number. */
  ghost predicate ReceiverInv(w: S.World, r: Receiver) {
    && r.Valid()
    && (r.isn.Some? ==> r.isn == Some(w.s.isn) && !w.s.synUnsent)
    && (r.isn.None? ==> !r.metFin)
    && R.Tracks(r.assembly, Gathered(r.assembly), w.out.pushed)
    && (forall i :: i in Gathered(r.assembly) ==> i < w.out.popped)
    && (r.metFin ==> !w.s.finUnsent) && (r.finished ==> r.metFin)
    && (r.assembly.reachEnd ==> r.metFin)
  }

  /** An acknowledgement asks for no more than the receiver does now. */
  ghost predicate AckInv(w: S.World, r: Receiver, a: Ack) {
    a.ackno.Some? ==> r.isn.Some? && exists n: nat :: n <= NextNeeded(r) && a.ackno == Some(Wrap32.Wrap(Low64(n), w.s.isn))
  }

  /** The sender has let go only of what the receiver has asked beyond. */
  ghost predicate AckedInv(w: S.World, r: Receiver) {
    Oldest(w.s) > 0 ==> r.isn.Some? && Oldest(w.s) <= NextNeeded(r)
  }

  ghost predicate Inv(c: System) {
    && S.Holds(c.sender) && Small(c.sender)
    && ReceiverInv(c.sender, c.receiver)
    && (forall m :: m in c.segments ==> WasSent(c.sender, m))
    && (forall a :: a in c.acks ==> AckInv(c.sender, c.receiver, a))
    && AckedInv(c.sender, c.receiver)
  }

  // ----- a segment arrives -----

  lemma WrapOfSyn(isn: U32)
    ensures Wrap32.Wrap(0, isn) == isn && Wrap32.Wrap(1, isn) == Low32(isn + 1)
  {
  }

  lemma SentFacts(w: S.World, m: Segment, lo: nat)
    requires S.Holds(w) && Small(w) && SentAt(w, m, lo)
    ensures !w.s.synUnsent && lo < TWO31 && (m.fin ==> !w.s.finUnsent)
    ensures m.seqno == Wrap32.Wrap(lo, w.s.isn) && (m.syn <==> lo == 0)
    ensures var index := if m.syn then 0 else lo - 1;
      && R.Consistent(w.out.pushed, index, m.payload, m.fin) && index + |m.payload| <= w.out.popped
  {
    hide Wrap32.Wrap, Tiled, Counted, TimerInv, WindowInv;
  }

  lemma FirstIsTaken(w: S.World, r: Receiver)
    requires ReceiverInv(w, r)
    ensures r.assembly.First() <= w.out.popped
  {
    hide R.Tracks;
    if r.assembly.First() > 0 {
      assert r.assembly.First() - 1 in Gathered(r.assembly);
    }
  }

  lemma IndexOf(r: Receiver, m: Segment, lo: nat, isn: U32)
    requires lo < TWO31 && m.seqno == Wrap32.Wrap(lo, isn) && (m.syn <==> lo == 0) && r.assembly.First() < TWO31 - 1
    requires Isn(r, m) == Some(isn)
    ensures StreamIndex(r, m) == if m.syn then 0 else lo - 1
  {
    hide Wrap32.Wrap, Wrap32.Unwrap;
    WrapOfSyn(isn);
    Wrap32.RoundTrip(if m.syn then 1 else lo, isn, r.assembly.First());
  }

  /** Whatever copy of whatever segment arrives, the receiver places its payload where the sender took it. */
  lemma PlacedRight(w: S.World, r: Receiver, m: Segment, lo: nat)
    requires S.Holds(w) && Small(w) && ReceiverInv(w, r) && SentAt(w, m, lo) && Isn(r, m).Some?
    ensures Isn(r, m) == Some(w.s.isn) && !w.s.synUnsent && (m.fin ==> !w.s.finUnsent)
    ensures StreamIndex(r, m) == if m.syn then 0 else lo - 1
    ensures R.Consistent(w.out.pushed, StreamIndex(r, m), m.payload, m.fin)
    ensures StreamIndex(r, m) + |m.payload| <= w.out.popped
  {
    hide SentAt, S.Holds, R.Tracks, StreamIndex;
    SentFacts(w, m, lo);
    FirstIsTaken(w, r);
    WrapOfSyn(w.s.isn);
    assert r.assembly.First() < TWO31 - 1 by {
      assert w.out.popped <= |w.out.pushed| by { assert S.Holds(w); TakenIsPushed(w); }
    }
    hide ReceiverInv, R.Consistent, Wrap32.Wrap;
    IndexOf(r, m, lo, w.s.isn);
  }

  lemma TakenIsPushed(w: S.World)
    requires S.Holds(w)
    ensures w.out.Valid() && w.out.popped <= |w.out.pushed|
  {
  }

  lemma ReadIsWritten(w: S.World, r: Receiver)
    requires ReceiverInv(w, r)
    ensures r.assembly.Valid() && r.assembly.out.popped <= r.assembly.First()
  {
    hide R.Tracks, Gathered;
  }

  lemma TracksGathered(a: Assembly, got: set<nat>, source: seq<Byte>)
    requires R.Tracks(a, got, source)
    ensures got == Gathered(a)
  {
  }

  /** An insertion adds exactly what it delivers to what the receiver has. */
  lemma InsertGathers(a: Assembly, source: seq<Byte>, index: U64, data: seq<Byte>, last: bool)
    requires R.Tracks(a, Gathered(a), source) && R.Consistent(source, index, data, last)
    ensures var b := Insert(a, index, data, last);
      && R.Tracks(b, Gathered(b), source) && Gathered(b) == Gathered(a) + R.Delivered(a, index, |data|)
      && b.reachEnd == (a.reachEnd || last)
  {
    hide Gathered, Insert, R.Tracks, R.Consistent, R.Delivered;
    IsValid(a, source);
    R.InsertTracks(a, Gathered(a), source, index, data, last);
    TracksGathered(Insert(a, index, data, last), Gathered(a) + R.Delivered(a, index, |data|), source);
    R.InsertFlags(a, index, data, last);
  }

  lemma IsValid(a: Assembly, source: seq<Byte>)
    requires R.Tracks(a, Gathered(a), source)
    ensures a.Valid()
  {
  }

  lemma ArrivalKeepsReceiver(w: S.World, r: Receiver, m: Segment)
    requires S.Holds(w) && Small(w) && ReceiverInv(w, r) && WasSent(w, m)
    ensures ReceiverInv(w, Received(r, m))
  {
    hide SentAt, R.Tracks, StreamIndex, R.Consistent, Insert, S.Holds, Gathered;
    if Isn(r, m).Some? {
      var lo: nat :| SentAt(w, m, lo);
      PlacedRight(w, r, m, lo);
      InsertGathers(r.assembly, w.out.pushed, StreamIndex(r, m), m.payload, m.fin);
    }
  }

  // ----- the sender moves on -----

  ghost predicate Advanced(w: S.World, v: S.World) {
    && MovedOn(w.out, v.out) && v.s.isn == w.s.isn && w.s.nextSeqno <= v.s.nextSeqno
    && (v.s.synUnsent ==> w.s.synUnsent) && (v.s.finUnsent ==> w.s.finUnsent)
  }

  lemma {:induction false} CutAllKeepsFlags(s: Sender, out: Stream)
    requires out.Valid()
    ensures var t := CutAll(s, out).0; t.isn == s.isn && t.synUnsent == s.synUnsent && t.finUnsent == s.finUnsent
    decreases |out.View()|
  {
    hide NextSegment;
    if out.View() != [] && s.MaySend() {
      CutAllKeepsFlags(Cut(s, out).0, Cut(s, out).1);
    }
  }

  lemma FlagsOnlyFall(w: S.World, e: S.Event)
    requires S.Holds(w) && S.InOrder(w, e) && S.Fits(w)
    ensures var v := S.After(w, e); v.s.isn == w.s.isn && (v.s.synUnsent ==> w.s.synUnsent) && (v.s.finUnsent ==> w.s.finUnsent)
  {
    hide Tiled, Counted, TimerInv, WindowInv, Low32, Low64, Wrap32.Wrap, Wrap32.Unwrap, AckedCount, CutAll;
    if e.PushAll? {
      CutAllKeepsFlags(w.s, w.out);
    }
  }

  lemma OutMovesOn(w: S.World, e: S.Event)
    requires S.Holds(w) && S.InOrder(w, e) && S.Fits(w)
    ensures MovedOn(w.out, S.After(w, e).out)
  {
    hide Push, MaybeSend, Receive, Tick;
    if e.PushAll? {
      PushKeeps(w.s, w.out, w.zeros);
    }
    hide SenderInvariant.Inv;
    assert w.out.Valid();
  }

  lemma SenderAdvances(w: S.World, e: S.Event)
    requires S.Holds(w) && S.InOrder(w, e) && S.Fits(w) && S.Fits(S.After(w, e))
    ensures Advanced(w, S.After(w, e)) && S.Holds(S.After(w, e))
  {
    FlagsOnlyFall(w, e);
    OutMovesOn(w, e);
    S.StepKeeps(w, e);
    hide S.After, S.InOrder, Tiled, Counted, TimerInv, WindowInv;
  }

  lemma AdvancedKeepsReceiver(w: S.World, v: S.World, r: Receiver)
    requires ReceiverInv(w, r) && Advanced(w, v)
    ensures ReceiverInv(v, r)
  {
    hide Gathered;
    assert w.out.pushed == v.out.pushed[..|w.out.pushed|];
  }

  lemma AdvancedKeepsSent(w: S.World, v: S.World, m: Segment)
    requires WasSent(w, m) && Advanced(w, v)
    ensures WasSent(v, m)
  {
    var lo: nat :| SentAt(w, m, lo);
    hide SegmentAt, MovedOn;
    SegmentStays(m, lo, w.s.isn, w.out, v.out);
    assert SentAt(v, m, lo);
  }

  /** Every step but an acknowledgement leaves the oldest outstanding number where it is. */
  lemma OldestStays(w: S.World, e: S.Event)
    requires S.Holds(w) && S.InOrder(w, e) && S.Fits(w) && S.Fits(S.After(w, e)) && !e.Hear?
    ensures Oldest(S.After(w, e).s) == Oldest(w.s)
  {
    hide Push, MaybeSend, Receive, Tick, SenderInvariant.Inv, Oldest;
    match e
    case PushAll => PushKeeps(w.s, w.out, w.zeros);
    case SendOne => MaybeSendKeeps(w.s, w.out, w.zeros);
    case Wait(ms) => TickKeeps(w.s, w.out, w.zeros, ms);
    case Write(_) =>
    case Finish =>
    case Hear(_) =>
  }

  // ----- acknowledgements -----

  lemma NeededIsSent(w: S.World, r: Receiver)
    requires S.Holds(w) && ReceiverInv(w, r) && r.isn.Some?
    ensures NextNeeded(r) <= w.s.nextSeqno
  {
    FirstIsTaken(w, r);
    hide R.Tracks, Tiled, Counted, TimerInv, WindowInv;
  }

  lemma NextFits(w: S.World)
    requires S.Holds(w) && Small(w)
    ensures w.s.nextSeqno < TWO31
  {
    hide Tiled, Counted, TimerInv, WindowInv;
  }

  /** Only a receiver that keeps its promise may replace another: it asks for at least as much. */
  ghost predicate AsksOnwards(r: Receiver, t: Receiver) {
    NextNeeded(r) <= NextNeeded(t) && (r.isn.Some? ==> t.isn.Some?)
  }

  lemma AcksStay(w: S.World, v: S.World, r: Receiver, t: Receiver, a: Ack)
    requires AckInv(w, r, a) && AsksOnwards(r, t) && v.s.isn == w.s.isn
    ensures AckInv(v, t, a)
  {
    hide Wrap32.Wrap;
  }

  lemma NewAck(w: S.World, r: Receiver)
    requires ReceiverInv(w, r)
    ensures AckInv(w, r, Acknowledge(r))
  {
    hide Wrap32.Wrap, R.Tracks;
  }

  /** However old the acknowledgement, the sender lets go only of what the receiver has asked beyond. */
  lemma OldAckIsHarmless(w: S.World, r: Receiver, a: Ack)
    requires S.Holds(w) && Small(w) && ReceiverInv(w, r) && AckInv(w, r, a) && AckedInv(w, r)
    requires Again(w.s.unsent) == []
    ensures AckedInv(S.After(w, S.Hear(a)), r)
  {
    hide SenderInvariant.Inv, Receive, Wrap32.Wrap, Wrap32.Unwrap, Oldest, R.Tracks;
    OldestAfterReceive(w.s, a, w.out, w.zeros);
    if a.ackno.Some? {
      var n: nat :| n <= NextNeeded(r) && a.ackno == Some(Wrap32.Wrap(Low64(n), w.s.isn));
      NeededIsSent(w, r);
      NextFits(w);
      assert Low64(n) == n;
      Wrap32.RoundTrip(n, w.s.isn, w.s.nextSeqno);
    }
  }

  // ----- every step keeps the invariant -----

  lemma SenderStepKeeps(c: System, e: S.Event, more: set<Segment>)
    requires Inv(c) && S.InOrder(c.sender, e) && Small(S.After(c.sender, e))
    requires !e.Hear? || (e.ack in c.acks && Again(c.sender.s.unsent) == [])
    requires forall m :: m in more ==> WasSent(S.After(c.sender, e), m)
    ensures Inv(c.(sender := S.After(c.sender, e), segments := c.segments + more))
  {
    var w, v := c.sender, S.After(c.sender, e);
    SenderAdvances(w, e);
    AdvancedKeepsReceiver(w, v, c.receiver);
    forall m | m in c.segments
      ensures WasSent(v, m)
    {
      AdvancedKeepsSent(w, v, m);
    }
    forall a | a in c.acks
      ensures AckInv(v, c.receiver, a)
    {
      AcksStay(w, v, c.receiver, c.receiver, a);
    }
    if e.Hear? {
      OldAckIsHarmless(w, c.receiver, e.ack);
    } else {
      OldestStays(w, e);
    }
  }

  lemma ReceiverStepKeeps(c: System, t: Receiver)
    requires Inv(c) && ReceiverInv(c.sender, t) && AsksOnwards(c.receiver, t)
    ensures Inv(c.(receiver := t))
  {
    hide S.Holds, ReceiverInv, Small, WasSent, AsksOnwards;
    forall a | a in c.acks
      ensures AckInv(c.sender, t, a)
    {
      AcksStay(c.sender, c.sender, c.receiver, t, a);
    }
    hide AckInv;
    OldestStillAsked(c.sender, c.receiver, t);
  }

  lemma OldestStillAsked(w: S.World, r: Receiver, t: Receiver)
    requires AckedInv(w, r) && AsksOnwards(r, t)
    ensures AckedInv(w, t)
  {
    hide Oldest;
  }

  lemma ReadKeepsReceiver(w: S.World, r: Receiver, len: nat)
    requires ReceiverInv(w, r)
    ensures ReceiverInv(w, Read(r, len))
  {
    R.ReadTracks(r.assembly, Gathered(r.assembly), w.out.pushed, len);
    hide R.Tracks;
    assert Gathered(Read(r, len).assembly) == Gathered(r.assembly);
  }

  lemma ReceiverAsksOnwards(r: Receiver, e: TcpReceivers.Event)
    requires r.Valid()
    ensures AsksOnwards(r, TcpReceivers.Step(r, e))
  {
    StepAdvances(r, e);
    hide TcpReceivers.Step;
  }

  /** The segment just transmitted is one of the outstanding ones. */
  lemma TransmittedWasSent(w: S.World)
    requires S.Holds(w) && Small(w) && MaybeSend(w.s).1.Some?
    ensures WasSent(S.After(w, S.SendOne), MaybeSend(w.s).1.value)
  {
    var v, m := S.After(w, S.SendOne), MaybeSend(w.s).1.value;
    SenderAdvances(w, S.SendOne);
    var i := SentIsOutstanding(w);
    hide Outstanding, Oldest, MaybeSend, SegmentAt, S.Holds, Advanced;
    OutstandingWasSent(v, i);
  }

  lemma OutstandingWasSent(v: S.World, i: nat)
    requires S.Holds(v) && i < |Outstanding(v.s)|
    ensures WasSent(v, Outstanding(v.s)[i])
  {
    S.QueueIsWell(v);
    hide Outstanding, SegmentAt, TimerInv, TakenInv, WindowInv, Counted;
    var q, lo := Outstanding(v.s), Oldest(v.s);
    TileAt(q, i, lo, v.s.isn, v.out);
    assert SentAt(v, q[i], lo + Total(q[..i]));
  }

  lemma SentIsOutstanding(w: S.World) returns (i: nat)
    requires S.Holds(w) && Small(w) && MaybeSend(w.s).1.Some?
    ensures var q := Outstanding(MaybeSend(w.s).0); i < |q| && q[i] == MaybeSend(w.s).1.value
  {
    var t := MaybeSend(w.s).0;
    if w.s.unsent == [] {
      SendFlagsKeeps(w.s, w.out, w.zeros);
      hide SenderInvariant.Inv, SendFlags;
      i := |Again(t.unsent)| + |w.s.unacked|;
    } else {
      SendFirstKeeps(w.s, w.out, w.zeros);
      SendFirstShape(w.s);
      i := |Again(t.unsent)| + if w.s.unsent[0].retransmitted then 0 else |w.s.unacked|;
    }
  }

  lemma StepKeeps(c: System, step: Step)
    requires Inv(c) && Enabled(c, step)
    ensures Inv(Next(c, step))
  {
    hide S.Holds, Small, S.After, ReceiverInv, AckInv, AckedInv, WasSent, AsksOnwards, Received, Read, MaybeSend, Acknowledge;
    match step
    case Local(e) =>
      SenderStepKeeps(c, e, {});
      assert c.segments + {} == c.segments;
    case Transmit =>
      TransmitKeeps(c);
    case DeliverSegment(m) =>
      ArrivalKeepsReceiver(c.sender, c.receiver, m);
      ReceiverAsksOnwards(c.receiver, Arrives(m));
      ReceiverStepKeeps(c, Received(c.receiver, m));
    case SendAck =>
      NewAck(c.sender, c.receiver);
    case DeliverAck(a) =>
      SenderStepKeeps(c, S.Hear(a), {});
      assert c.segments + {} == c.segments;
    case ReadInbound(len) =>
      ReadKeepsReceiver(c.sender, c.receiver, len);
      ReceiverAsksOnwards(c.receiver, Reads(len));
      ReceiverStepKeeps(c, Read(c.receiver, len));
  }

  lemma TransmitKeeps(c: System)
    requires Inv(c) && Enabled(c, Transmit)
    ensures Inv(Next(c, Transmit))
  {
    var sent := MaybeSend(c.sender.s).1;
    assert Small(S.After(c.sender, S.SendOne)) by {
      assert S.After(c.sender, S.SendOne).out == c.sender.out;
    }
    hide S.Holds, Small, S.After, ReceiverInv, AckInv, AckedInv, WasSent, MaybeSend;
    if sent.Some? {
      TransmittedWasSent(c.sender);
    }
    SenderStepKeeps(c, S.SendOne, if sent.Some? then {sent.value} else {});
  }

  /** `path` is a run from `c`: at each point a step that can happen. */
  ghost predicate IsRun(c: System, path: seq<Step>, end: System)
    decreases |path|
  {
    if path == [] then end == c else Enabled(c, path[0]) && IsRun(Next(c, path[0]), path[1..], end)
  }

  lemma {:induction false} RunKeeps(c: System, path: seq<Step>, end: System)
    requires Inv(c) && IsRun(c, path, end)
    ensures Inv(end)
    decreases |path|
  {
    if path != [] {
      StepKeeps(c, path[0]);
      hide Inv, Enabled, Next;
      RunKeeps(Next(c, path[0]), path[1..], end);
    }
  }

  lemma BeginsGood(isn: U32, initialRto: U64, sendCapacity: nat, receiveCapacity: nat)
    ensures Inv(Begin(isn, initialRto, sendCapacity, receiveCapacity))
  {
    S.BeginHolds(isn, initialRto, sendCapacity);
    hide S.Holds;
    var r := NewReceiver(receiveCapacity);
    assert Gathered(r.assembly) == {};
    BeginsAtZero(isn, initialRto);
  }

  lemma BeginsAtZero(isn: U32, initialRto: U64)
    ensures Oldest(NewSender(isn, initialRto)) == 0
  {
    assert Outstanding(NewSender(isn, initialRto)) == [];
  }

  // ----- safety -----

  /** End-to-end safety: over every run, whatever the network loses, repeats or reorders, the receiver has
      written a prefix of the bytes the sender has taken from its stream. */
  lemma DeliversPrefix(isn: U32, initialRto: U64, sendCapacity: nat, receiveCapacity: nat, path: seq<Step>, end: System)
    requires IsRun(Begin(isn, initialRto, sendCapacity, receiveCapacity), path, end)
    ensures end.sender.out.popped <= |end.sender.out.pushed|
    ensures end.receiver.assembly.out.pushed <= end.sender.out.pushed[..end.sender.out.popped]
  {
    hide Begin, IsRun;
    BeginsGood(isn, initialRto, sendCapacity, receiveCapacity);
    RunKeeps(Begin(isn, initialRto, sendCapacity, receiveCapacity), path, end);
    FirstIsTaken(end.sender, end.receiver);
    TakenIsPushed(end.sender);
    hide S.Holds, Gathered;
  }

  // ----- nothing is lost -----

  /** Every segment carrying FIN arrives usable: it ends inside the window and brings its last byte, or
      nothing is missing before it. */
  ghost predicate FinUsable(c: System, step: Step) {
    step.DeliverSegment? && step.m.fin && Isn(c.receiver, step.m).Some? && !c.receiver.assembly.reachEnd ==>
      R.LastIsUsable(c.receiver.assembly, c.sender.out.pushed, |step.m.payload|)
  }

  /** The receiver's stream is closed exactly when everything has been written. */
  ghost predicate EndInv(c: System) {
    && R.EndSecured(c.receiver.assembly, c.sender.out.pushed)
    && R.ClosedExactly(c.receiver.assembly, c.sender.out.pushed)
    && (c.receiver.finished ==> c.receiver.assembly.out.closed)
  }

  lemma ArrivalKeepsEnd(c: System, m: Segment)
    requires Inv(c) && EndInv(c) && m in c.segments && FinUsable(c, DeliverSegment(m))
    ensures EndInv(c.(receiver := Received(c.receiver, m)))
  {
    var w, r := c.sender, c.receiver;
    if Isn(r, m).Some? {
      var lo: nat :| SentAt(w, m, lo);
      PlacedRight(w, r, m, lo);
      hide SentAt, R.Tracks, StreamIndex, Insert, S.Holds, WasSent, AckInv, AckedInv, R.Consistent, R.EndSecured, R.ClosedExactly,
        R.LastIsUsable, Gathered;
      R.InsertClosesExactly(r.assembly, Gathered(r.assembly), w.out.pushed, StreamIndex(r, m), m.payload, m.fin);
    }
  }

  lemma EndStays(c: System, v: S.World)
    requires Inv(c) && EndInv(c) && Advanced(c.sender, v)
    ensures EndInv(c.(sender := v))
  {
    hide R.Tracks, Gathered;
    if c.receiver.assembly.reachEnd {
      FinMeansClosed(c.sender);
    }
  }

  lemma FinMeansClosed(w: S.World)
    requires S.Holds(w)
    ensures !w.s.finUnsent ==> w.out.closed && w.out.popped == |w.out.pushed|
  {
    hide Tiled, Counted, TimerInv, WindowInv;
  }

  lemma StepKeepsEnd(c: System, step: Step)
    requires Inv(c) && EndInv(c) && Enabled(c, step) && FinUsable(c, step)
    ensures EndInv(Next(c, step))
  {
    hide Inv, EndInv, FinUsable, S.After;
    match step
    case Local(e) => SenderStepKeepsEnd(c, e);
    case Transmit => SenderStepKeepsEnd(c, S.SendOne); EndIgnoresNetwork(c.(sender := S.After(c.sender, S.SendOne)), Next(c, step));
    case DeliverSegment(m) => ArrivalKeepsEnd(c, m);
    case SendAck => EndIgnoresNetwork(c, Next(c, step));
    case DeliverAck(a) => SenderStepKeepsEnd(c, S.Hear(a));
    case ReadInbound(len) => ReadKeepsEnd(c, len);
  }

  lemma SenderStepKeepsEnd(c: System, e: S.Event)
    requires Inv(c) && EndInv(c) && S.InOrder(c.sender, e) && (e.SendOne? || Small(S.After(c.sender, e)))
    ensures EndInv(c.(sender := S.After(c.sender, e)))
  {
    assert S.Fits(S.After(c.sender, e)) by {
      if e.SendOne? {
        assert S.After(c.sender, e).out == c.sender.out;
      }
    }
    SenderAdvances(c.sender, e);
    EndStays(c, S.After(c.sender, e));
  }

  lemma EndIgnoresNetwork(c: System, d: System)
    requires EndInv(c) && d.sender == c.sender && d.receiver == c.receiver
    ensures EndInv(d)
  {
  }

  lemma ReadKeepsEnd(c: System, len: nat)
    requires EndInv(c) && c.receiver.Valid()
    ensures EndInv(c.(receiver := Read(c.receiver, len)))
  {
  }

  ghost predicate FinsUsable(c: System, path: seq<Step>, end: System)
    requires IsRun(c, path, end)
    decreases |path|
  {
    path == [] || (FinUsable(c, path[0]) && FinsUsable(Next(c, path[0]), path[1..], end))
  }

  lemma {:induction false} RunKeepsEnd(c: System, path: seq<Step>, end: System)
    requires Inv(c) && EndInv(c) && IsRun(c, path, end) && FinsUsable(c, path, end)
    ensures Inv(end) && EndInv(end)
    decreases |path|
  {
    if path != [] {
      StepKeeps(c, path[0]);
      StepKeepsEnd(c, path[0]);
      hide Inv, EndInv, Enabled, Next, FinUsable;
      RunKeepsEnd(Next(c, path[0]), path[1..], end);
    }
  }

  /** Segment `k` of the outstanding ones carries stream byte `i`. */
  ghost predicate Carries(s: Sender, k: nat, i: nat, b: Byte) {
    var q := Outstanding(s);
    && k < |q|
    && var from := Oldest(s) + Total(q[..k]) + Count(q[k].syn) - 1;
       from <= i < from + |q[k].payload| && q[k].payload[i - from] == b
  }

  lemma CarriedPlace(s: Sender, k: nat, i: nat, b: Byte)
    requires Carries(s, k, i, b)
    ensures var q := Outstanding(s);
      && k < |q|
      && var from := Oldest(s) + Total(q[..k]) + Count(q[k].syn) - 1;
         from <= i < from + |q[k].payload|
  {
  }

  /** In a tiling every sequence number in range belongs to a segment. */
  lemma {:induction false} Covering(q: seq<Segment>, lo: nat, x: nat) returns (k: nat)
    requires lo <= x < lo + Total(q)
    ensures k < |q| && lo + Total(q[..k]) <= x < lo + Total(q[..k]) + q[k].Length()
    decreases |q|
  {
    if x < lo + q[0].Length() {
      k := 0;
      assert q[..0] == [];
    } else {
      var j := Covering(q[1..], lo + q[0].Length(), x);
      k := j + 1;
      assert q[..k][1..] == q[1..][..j] && q[..k][0] == q[0];
    }
  }

  lemma TakenIsNumbered(w: S.World, i: nat)
    requires S.Holds(w) && i < w.out.popped
    ensures 1 + i < w.s.nextSeqno && Oldest(w.s) >= 0
  {
    hide Tiles, Counted, TimerInv, WindowInv;
  }

  lemma SegmentOf(w: S.World, k: nat)
    requires S.Holds(w) && k < |Outstanding(w.s)|
    ensures Oldest(w.s) >= 0
    ensures SegmentAt(Outstanding(w.s)[k], Oldest(w.s) + Total(Outstanding(w.s)[..k]), w.s.isn, w.out)
  {
    hide SegmentAt, Outstanding, Total, Counted, TimerInv, WindowInv;
    TileAt(Outstanding(w.s), k, Oldest(w.s), w.s.isn, w.out);
  }

  lemma ByteInQueue(w: S.World, i: nat) returns (k: nat)
    requires S.Holds(w) && Oldest(w.s) <= 1 + i && i < w.out.popped
    ensures i < |w.out.pushed| && Carries(w.s, k, i, w.out.pushed[i])
  {
    TakenIsPushed(w);
    TakenIsNumbered(w, i);
    hide Outstanding, Total, S.Holds, SegmentAt;
    k := Covering(Outstanding(w.s), Oldest(w.s), 1 + i);
    SegmentOf(w, k);
    CarriedByte(Outstanding(w.s)[k], Oldest(w.s) + Total(Outstanding(w.s)[..k]), w.s.isn, w.out, i);
  }

  lemma CarriedByte(m: Segment, lo: nat, isn: U32, out: Stream, i: nat)
    requires SegmentAt(m, lo, isn, out) && lo <= 1 + i < lo + m.Length() && i < out.popped
    ensures var from := lo + Count(m.syn) - 1;
      from <= i < from + |m.payload| && i < |out.pushed| && m.payload[i - from] == out.pushed[i]
  {
    hide Wrap32.Wrap;
  }

  /** Nothing is lost: over every run in which FIN segments arrive usable, each byte taken from the stream is
      either written by the receiver or still carried, unchanged, by a segment in a sender queue. */
  lemma NothingLost(isn: U32, initialRto: U64, sendCapacity: nat, receiveCapacity: nat, path: seq<Step>, end: System, i: nat)
      returns (k: nat)
    requires IsRun(Begin(isn, initialRto, sendCapacity, receiveCapacity), path, end)
    requires FinsUsable(Begin(isn, initialRto, sendCapacity, receiveCapacity), path, end)
    requires i < end.sender.out.popped
    ensures i < |end.sender.out.pushed|
    ensures i < end.receiver.assembly.First() || Carries(end.sender.s, k, i, end.sender.out.pushed[i])
  {
    BeginsGood(isn, initialRto, sendCapacity, receiveCapacity);
    assert EndInv(Begin(isn, initialRto, sendCapacity, receiveCapacity));
    hide Begin, IsRun, FinsUsable;
    RunKeepsEnd(Begin(isn, initialRto, sendCapacity, receiveCapacity), path, end);
    hide Carries, Oldest, S.Holds, Gathered, R.Tracks;
    TakenIsPushed(end.sender);
    k := 0;
    if end.receiver.assembly.First() <= i {
      FinishedHasAll(end);
      k := ByteInQueue(end.sender, i);
    }
  }

  lemma FinishedHasAll(c: System)
    requires EndInv(c)
    ensures c.receiver.finished ==> c.receiver.assembly.First() == |c.sender.out.pushed|
  {
  }

  /** Over the same runs, a closed inbound stream holds the whole outbound stream, which is closed too. */
  lemma ClosedMeansComplete(isn: U32, initialRto: U64, sendCapacity: nat, receiveCapacity: nat, path: seq<Step>, end: System)
    requires IsRun(Begin(isn, initialRto, sendCapacity, receiveCapacity), path, end)
    requires FinsUsable(Begin(isn, initialRto, sendCapacity, receiveCapacity), path, end)
    ensures end.receiver.assembly.out.closed ==>
      end.receiver.assembly.out.pushed == end.sender.out.pushed && end.sender.out.closed
  {
    BeginsGood(isn, initialRto, sendCapacity, receiveCapacity);
    assert EndInv(Begin(isn, initialRto, sendCapacity, receiveCapacity));
    hide Begin, IsRun, FinsUsable;
    RunKeepsEnd(Begin(isn, initialRto, sendCapacity, receiveCapacity), path, end);
    FinMeansClosed(end.sender);
    hide S.Holds, Gathered;
  }

  lemma AllAckedIsComplete(c: System)
    requires Inv(c) && EndInv(c) && !c.sender.s.finUnsent && Outstanding(c.sender.s) == []
    ensures c.receiver.finished && c.receiver.assembly.out.pushed == c.sender.out.pushed && c.sender.out.closed
  {
    FirstIsTaken(c.sender, c.receiver);
    FinMeansClosed(c.sender);
    NextIsAll(c.sender);
    hide S.Holds, Gathered, AckInv, WasSent;
  }

  /** Over the same runs, when FIN has been sent and everything is acknowledged, everything has been delivered. */
  lemma AllAckedMeansComplete(isn: U32, initialRto: U64, sendCapacity: nat, receiveCapacity: nat, path: seq<Step>, end: System)
    requires IsRun(Begin(isn, initialRto, sendCapacity, receiveCapacity), path, end)
    requires FinsUsable(Begin(isn, initialRto, sendCapacity, receiveCapacity), path, end)
    requires !end.sender.s.finUnsent && Outstanding(end.sender.s) == []
    ensures end.receiver.finished && end.receiver.assembly.out.pushed == end.sender.out.pushed
  {
    BeginsGood(isn, initialRto, sendCapacity, receiveCapacity);
    assert EndInv(Begin(isn, initialRto, sendCapacity, receiveCapacity));
    hide Begin, IsRun, FinsUsable, Inv, EndInv;
    RunKeepsEnd(Begin(isn, initialRto, sendCapacity, receiveCapacity), path, end);
    AllAckedIsComplete(end);
  }

  lemma NextIsAll(w: S.World)
    requires S.Holds(w) && !w.s.finUnsent && Outstanding(w.s) == []
    ensures Oldest(w.s) == |w.out.pushed| + 2
  {
    hide Tiles, Counted, TimerInv, WindowInv;
  }

  /** The condition on FIN is needed: a bare FIN that arrives ahead of a gap while nothing is held closes the
      inbound stream, and the next acknowledgement covers a byte that was never received. */
  lemma BareFinAheadOfGap(c: System, m: Segment)
    requires Inv(c) && m in c.segments && m.fin && m.payload == [] && c.receiver.isn.Some?
    requires c.receiver.assembly.pending == map[] && c.receiver.assembly.First() < |c.sender.out.pushed|
    ensures c.receiver.assembly.reachEnd || !FinUsable(c, DeliverSegment(m))
    ensures var t := Received(c.receiver, m);
      && t.assembly.out.closed && t.assembly.out.pushed == c.receiver.assembly.out.pushed
      && NextNeeded(t) == 2 + c.receiver.assembly.First()
  {
    hide S.Holds, WasSent, AckInv, AckedInv, StreamIndex, Insert, R.Tracks, Gathered;
    R.NothingArrives(c.receiver.assembly, StreamIndex(c.receiver, m), true);
  }
}
