/** The connection is never stuck: from every reachable state, whatever the network has lost, there is a way
    on in which everything outstanding is delivered and acknowledged. */
module Recovery {
  import opened Words
  import Wrap32
  import opened ByteStreams
  import opened Reassembly
  import R = ReassemblyRuns
  import opened TcpMessages
  import opened TcpReceivers
  import opened SenderModel
  import opened SenderQueues
  import opened SenderInvariant
  import S = SenderRuns
  import C = Connection
  import B = Boundaries
  import P = PayloadSizes

  // ----- reaching -----

  ghost predicate Continues(c: C.System, path: seq<C.Step>, end: C.System) {
    C.IsRun(c, path, end) && C.FinsUsable(c, path, end)
  }

  ghost predicate Reaches(c: C.System, end: C.System) {
    exists path :: Continues(c, path, end)
  }

  lemma ReachesItself(c: C.System)
    ensures Reaches(c, c)
  {
    assert Continues(c, [], c);
  }

  lemma ReachesNext(c: C.System, step: C.Step, end: C.System)
    requires C.Enabled(c, step) && C.FinUsable(c, step) && Reaches(C.Next(c, step), end)
    ensures Reaches(c, end)
  {
    hide C.Enabled, C.Next, C.FinUsable;
    var path :| Continues(C.Next(c, step), path, end);
    assert ([step] + path)[0] == step && ([step] + path)[1..] == path;
    assert Continues(c, [step] + path, end);
  }

  lemma {:induction false} ReachesOn(c: C.System, path: seq<C.Step>, mid: C.System, end: C.System)
    requires Continues(c, path, mid) && Reaches(mid, end)
    ensures Reaches(c, end)
    decreases |path|
  {
    hide C.Enabled, C.Next, C.FinUsable;
    if path != [] {
      ReachesOn(C.Next(c, path[0]), path[1..], mid, end);
      ReachesNext(c, path[0], end);
    }
  }

  lemma ReachesThrough(c: C.System, mid: C.System, end: C.System)
    requires Reaches(c, mid) && Reaches(mid, end)
    ensures Reaches(c, end)
  {
    var path :| Continues(c, path, mid);
    ReachesOn(c, path, mid, end);
  }

  /** What every state reached over usable FIN segments satisfies. */
  ghost predicate Good(c: C.System) {
    C.Inv(c) && C.EndInv(c) && P.Sized(c)
  }

  lemma StepStaysGood(c: C.System, step: C.Step)
    requires Good(c) && C.Enabled(c, step) && C.FinUsable(c, step)
    ensures Good(C.Next(c, step))
  {
    hide C.Inv, C.EndInv, P.Sized, C.Enabled, C.FinUsable, C.Next;
    C.StepKeeps(c, step);
    C.StepKeepsEnd(c, step);
    P.StepStaysSized(c, step);
  }

  // ----- the oldest segment arrives -----

  /** The reader has taken everything. */
  ghost predicate Emptied(a: Assembly) {
    a.out.popped == |a.out.pushed|
  }

  /** Data that leaves no gap and fits the window is written out at once. */
  lemma InsertReaches(a: Assembly, got: set<nat>, source: seq<Byte>, index: U64, data: seq<Byte>, last: bool)
    requires R.Tracks(a, got, source) && R.Consistent(source, index, data, last)
    requires index <= a.First() && index + |data| <= a.Limit()
    ensures Insert(a, index, data, last).First() >= index + |data|
  {
    R.InsertTracks(a, got, source, index, data, last);
    var b, got' := Insert(a, index, data, last), got + R.Delivered(a, index, |data|);
    hide Insert;
    assert forall i: nat :: i < index + |data| ==> i in got';
  }

  /** The oldest outstanding segment never lies ahead of a gap. */
  lemma OldestLeavesNoGap(w: S.World, r: Receiver, m: Segment, lo: nat)
    requires C.ReceiverInv(w, r) && C.AckedInv(w, r) && lo == Oldest(w.s)
    requires R.ClosedExactly(r.assembly, w.out.pushed) && (r.finished ==> r.assembly.out.closed)
    requires C.SentAt(w, m, lo) && w.out.popped <= |w.out.pushed|
    ensures Isn(r, m).Some?
    ensures (if m.syn then 0 else lo - 1) <= r.assembly.First()
  {
    hide R.Tracks, Wrap32.Wrap, Oldest, C.Gathered;
  }

  /** Delivered to a receiver whose reader keeps up, the oldest outstanding segment is usable, FIN included,
      and makes the receiver ask for what follows it. */
  lemma OldestIsTaken(w: S.World, r: Receiver, m: Segment, lo: nat)
    requires S.Holds(w) && C.Small(w) && C.ReceiverInv(w, r) && C.AckedInv(w, r) && lo == Oldest(w.s) && C.SentAt(w, m, lo)
    requires R.EndSecured(r.assembly, w.out.pushed) && R.ClosedExactly(r.assembly, w.out.pushed)
    requires (r.finished ==> r.assembly.out.closed)
    requires Emptied(r.assembly) && r.assembly.out.capacity >= |m.payload|
    ensures Isn(r, m).Some?
    ensures m.fin && !r.assembly.reachEnd ==> R.LastIsUsable(r.assembly, w.out.pushed, |m.payload|)
    ensures NextNeeded(Received(r, m)) >= lo + m.Length()
  {
    C.TakenIsPushed(w);
    OldestLeavesNoGap(w, r, m, lo);
    C.PlacedRight(w, r, m, lo);
    var a, index := r.assembly, StreamIndex(r, m);
    assert m.syn ==> lo == 0 && m.payload == [];
    hide C.SentAt, S.Holds, C.AckedInv, StreamIndex, Insert, Oldest, C.Gathered;
    InsertReaches(a, C.Gathered(a), w.out.pushed, index, m.payload, m.fin);
    OldestFinUsable(a, C.Gathered(a), w.out.pushed, index, m.payload, m.fin);
    hide R.Tracks, R.EndSecured, R.LastIsUsable;
    R.InsertClosesExactly(a, C.Gathered(a), w.out.pushed, index, m.payload, m.fin);
    R.InsertFlags(a, index, m.payload, m.fin);
    OnlyTheSource(a, C.Gathered(a), w.out.pushed, index, m.payload, m.fin);
  }

  lemma OnlyTheSource(a: Assembly, got: set<nat>, source: seq<Byte>, index: U64, data: seq<Byte>, last: bool)
    requires R.Tracks(a, got, source) && R.Consistent(source, index, data, last)
    ensures Insert(a, index, data, last).First() <= |source|
  {
    R.InsertTracks(a, got, source, index, data, last);
    hide Insert, R.Delivered;
  }

  lemma OldestFinUsable(a: Assembly, got: set<nat>, source: seq<Byte>, index: U64, data: seq<Byte>, last: bool)
    requires R.Tracks(a, got, source) && R.Consistent(source, index, data, last)
    requires index <= a.First() && index + |data| <= a.Limit()
    ensures last ==> R.LastIsUsable(a, source, |data|)
  {
  }

  // ----- the acknowledgement comes back -----

  /** An acknowledgement of at least the oldest segment lets it go and ends the back-off. */
  lemma AckLetsGo(s: Sender, ack: Ack, out: Stream, zeros: nat, n: nat)
    requires Inv(s, out, zeros) && Bounded(out, zeros) && s.unsent == [] && s.unacked != []
    requires n <= s.nextSeqno < TWO31 && ack.ackno == Some(Wrap32.Wrap(n, s.isn))
    requires n >= Oldest(s) + s.unacked[0].Length()
    ensures var t := Receive(s, ack);
      && Oldest(t) >= Oldest(s) + s.unacked[0].Length() && t.nextSeqno == s.nextSeqno
      && t.unsent == [] && t.retransmissions == 0
  {
    hide Wrap32.Wrap, Wrap32.Unwrap, Receive, Total, Inv;
    Wrap32.RoundTrip(n, s.isn, s.nextSeqno);
    CumulativeAck(s, ack, out, zeros);
    UnackedTiles(s, out, zeros);
    var t := Receive(s, ack);
    FirstEnd(s.unacked, Oldest(s));
    assert EndOf(s.unacked, 0, Oldest(s)) <= n;
    assert |t.unacked| < |s.unacked|;
    DroppedTotal(s, t);
    EndsGrow(s.unacked, |s.unacked| - |t.unacked| - 1, Oldest(s));
    BackOffEnds(s, ack);
  }

  lemma BackOffEnds(s: Sender, ack: Ack)
    requires |Receive(s, ack).unacked| < |s.unacked|
    ensures Receive(s, ack).retransmissions == 0
  {
    hide Wrap32.Unwrap, AckedCount, Total;
  }

  lemma FirstEnd(q: seq<Segment>, lo: nat)
    requires q != []
    ensures EndOf(q, 0, lo) == lo + q[0].Length()
  {
    assert q[..1] == [q[0]];
    TotalOfOne(q[0]);
  }

  lemma EndsGrow(q: seq<Segment>, i: nat, lo: nat)
    requires i < |q|
    ensures EndOf(q, i, lo) >= lo + q[0].Length()
  {
    assert q[..i + 1] == [q[0]] + q[1..i + 1];
    TotalOfSum([q[0]], q[1..i + 1]);
    TotalOfOne(q[0]);
  }

  // ----- one round -----

  /** The timer expires and the oldest segment is sent again: both queues are as before. */
  lemma WaitAndSend(s: Sender)
    requires s.unsent == [] && s.unacked != [] && s.timer.isOn && !s.synUnsent
    ensures Expires(s, s.timer.timeout)
    ensures var t := Tick(s, s.timer.timeout);
      && t.unsent != [] && t.unsent[0].retransmitted && !t.synUnsent
      && MaybeSend(t).1 == Some(s.unacked[0])
      && MaybeSend(t).0.unacked == s.unacked && MaybeSend(t).0.unsent == []
      && MaybeSend(t).0.nextSeqno == s.nextSeqno && MaybeSend(t).0.isn == s.isn
  {
    hide Low32, Low64;
    assert [s.unacked[0]] + s.unacked[1..] == s.unacked;
  }

  lemma ReceiverIsValid(c: C.System)
    requires Good(c)
    ensures c.receiver.Valid() && C.Small(c.sender) && c.sender.out.Valid() && c.receiver.assembly.out.capacity > 0
  {
    hide S.Holds, R.Tracks;
    C.TakenIsPushed(c.sender);
  }

  lemma SenderIsTimed(w: S.World)
    requires S.Holds(w) && w.s.unacked != []
    ensures w.s.timer.isOn && !w.s.synUnsent
  {
    hide Tiled, Counted, WindowInv, Pow2;
  }

  /** What stays fixed while recovering. */
  ghost predicate SameEnds(c: C.System, d: C.System) {
    && d.sender.out == c.sender.out && d.sender.zeros == c.sender.zeros && d.sender.s.isn == c.sender.s.isn
    && d.sender.s.nextSeqno == c.sender.s.nextSeqno
    && d.receiver.assembly.out.capacity == c.receiver.assembly.out.capacity
  }

  lemma CanRead(c: C.System) returns (d: C.System)
    requires Good(c)
    ensures Reaches(c, d) && Good(d) && Emptied(d.receiver.assembly)
    ensures d == c.(receiver := d.receiver) && SameEnds(c, d)
    ensures NextNeeded(d.receiver) == NextNeeded(c.receiver) && d.receiver.isn == c.receiver.isn
  {
    ReceiverIsValid(c);
    var step := C.ReadInbound(|c.receiver.assembly.out.pushed|);
    StepStaysGood(c, step);
    hide Good;
    d := C.Next(c, step);
    ReachesItself(d);
    ReachesNext(c, step, d);
  }

  /** The timer expires and the oldest segment is sent again. */
  lemma CanResend(c: C.System) returns (d: C.System)
    requires Good(c) && c.sender.s.unsent == [] && c.sender.s.unacked != [] && c.sender.s.retransmissions < TWO32 - 1
    ensures Reaches(c, d) && Good(d) && SameEnds(c, d) && d.receiver == c.receiver
    ensures d.sender.s.unsent == [] && d.sender.s.unacked == c.sender.s.unacked && d.sender.s.unacked[0] in d.segments
  {
    ReceiverIsValid(c);
    SenderIsTimed(c.sender);
    WaitAndSend(c.sender.s);
    var step := C.Local(S.Wait(c.sender.s.timer.timeout));
    hide MaybeSend, Tick;
    assert C.Enabled(c, step);
    StepStaysGood(c, step);
    var e := C.Next(c, step);
    assert C.Enabled(e, C.Transmit);
    StepStaysGood(e, C.Transmit);
    hide Good;
    d := C.Next(e, C.Transmit);
    ReachesItself(d);
    ReachesNext(e, C.Transmit, d);
    ReachesNext(c, step, d);
  }

  lemma OldestSent(w: S.World)
    requires S.Holds(w) && w.s.unsent == [] && w.s.unacked != []
    ensures Oldest(w.s) >= 0 && C.SentAt(w, w.s.unacked[0], Oldest(w.s))
  {
    var q := Outstanding(w.s);
    assert q == w.s.unacked;
    C.SegmentOf(w, 0);
    assert q[..0] == [] && Total(q) >= q[0].Length();
  }

  lemma OldestFits(c: C.System)
    requires Good(c) && c.sender.s.unacked != []
    ensures |c.sender.s.unacked[0].payload| <= c.receiver.assembly.out.capacity
  {
    hide C.Inv, C.EndInv;
    assert c.sender.s.unacked[0] in Outstanding(c.sender.s);
  }

  /** The oldest segment arrives. */
  lemma CanDeliver(c: C.System) returns (d: C.System)
    requires Good(c) && c.sender.s.unsent == [] && c.sender.s.unacked != [] && c.sender.s.unacked[0] in c.segments
    requires Emptied(c.receiver.assembly)
    ensures Reaches(c, d) && Good(d) && SameEnds(c, d) && d.sender == c.sender && d.receiver.isn.Some?
    ensures NextNeeded(d.receiver) >= Oldest(c.sender.s) + c.sender.s.unacked[0].Length()
  {
    ReceiverIsValid(c);
    OldestFits(c);
    var m := c.sender.s.unacked[0];
    OldestSent(c.sender);
    OldestIsTaken(c.sender, c.receiver, m, Oldest(c.sender.s));
    var step := C.DeliverSegment(m);
    hide S.Holds, C.SentAt, R.LastIsUsable, Insert, StreamIndex;
    assert C.Enabled(c, step) && C.FinUsable(c, step);
    StepStaysGood(c, step);
    hide Good;
    d := C.Next(c, step);
    ReachesItself(d);
    ReachesNext(c, step, d);
  }

  lemma AckAsks(w: S.World, r: Receiver)
    requires S.Holds(w) && C.Small(w) && C.ReceiverInv(w, r) && r.isn.Some?
    requires Emptied(r.assembly) && r.assembly.out.capacity > 0
    ensures NextNeeded(r) <= w.s.nextSeqno < TWO31
    ensures Acknowledge(r).ackno == Some(Wrap32.Wrap(NextNeeded(r), w.s.isn)) && Acknowledge(r).windowSize > 0
  {
    hide Wrap32.Wrap, R.Tracks, S.Holds, C.Gathered, Low64;
    C.NeededIsSent(w, r);
    C.NextFits(w);
    Wrap32.Low64Of(NextNeeded(r));
  }

  /** The receiver acknowledges and the sender lets go. */
  lemma CanAcknowledge(c: C.System) returns (d: C.System)
    requires Good(c) && c.sender.s.unsent == [] && c.sender.s.unacked != [] && c.receiver.isn.Some?
    requires Emptied(c.receiver.assembly)
    requires NextNeeded(c.receiver) >= Oldest(c.sender.s) + c.sender.s.unacked[0].Length()
    ensures Reaches(c, d) && Good(d) && SameEnds(c, d)
    ensures d.sender.s.unsent == [] && d.sender.s.retransmissions == 0
    ensures Oldest(d.sender.s) >= Oldest(c.sender.s) + c.sender.s.unacked[0].Length()
  {
    hide Receive, Acknowledge, Oldest, Wrap32.Wrap;
    ReceiverIsValid(c);
    AckAsks(c.sender, c.receiver);
    var a := Acknowledge(c.receiver);
    AckLetsGo(c.sender.s, a, c.sender.out, c.sender.zeros, NextNeeded(c.receiver));
    StepStaysGood(c, C.SendAck);
    var e := C.Next(c, C.SendAck);
    var step := C.DeliverAck(a);
    assert C.Enabled(e, step);
    StepStaysGood(e, step);
    hide Good;
    d := C.Next(e, step);
    ReceiveKeepsIsn(c.sender.s, a);
    ReachesItself(d);
    ReachesNext(e, step, d);
    ReachesNext(c, C.SendAck, d);
  }

  /** One round: the oldest segment is sent again, arrives, and is acknowledged. */
  lemma OneRound(c: C.System) returns (d: C.System)
    requires Good(c) && c.sender.s.unsent == [] && c.sender.s.unacked != [] && c.sender.s.retransmissions < TWO32 - 1
    ensures Reaches(c, d) && Good(d) && SameEnds(c, d)
    ensures d.sender.s.unsent == [] && d.sender.s.retransmissions == 0
    ensures Oldest(d.sender.s) > Oldest(c.sender.s)
  {
    OldestSent(c.sender);
    assert c.sender.s.unacked[0].Length() > 0;
    hide Good, Oldest, Reaches, C.SentAt, NextNeeded;
    var c1 := CanRead(c);
    var c2 := CanResend(c1);
    SameOldest(c.sender.s, c2.sender.s);
    var c3 := CanDeliver(c2);
    var c4 := CanRead(c3);
    d := CanAcknowledge(c4);
    ReachesThrough(c3, c4, d);
    ReachesThrough(c2, c3, d);
    ReachesThrough(c1, c2, d);
    ReachesThrough(c, c1, d);
  }

  lemma SameOldest(s: Sender, t: Sender)
    requires s.unsent == t.unsent && s.unacked == t.unacked && s.nextSeqno == t.nextSeqno
    ensures Oldest(s) == Oldest(t)
  {
  }

  /** The first queued segment goes out. */
  lemma CanTransmit(c: C.System) returns (d: C.System)
    requires Good(c) && c.sender.s.unsent != []
    ensures Reaches(c, d) && Good(d) && SameEnds(c, d) && |d.sender.s.unsent| < |c.sender.s.unsent|
    ensures Oldest(d.sender.s) == Oldest(c.sender.s) && d.sender.s.retransmissions == c.sender.s.retransmissions
  {
    ReceiverIsValid(c);
    MaybeSendKeeps(c.sender.s, c.sender.out, c.sender.zeros);
    hide Oldest, Low32, Low64;
    StepStaysGood(c, C.Transmit);
    hide Good;
    d := C.Next(c, C.Transmit);
    ReachesItself(d);
    ReachesNext(c, C.Transmit, d);
  }

  /** All that is queued can be sent. */
  lemma {:induction false} CanSendQueue(c: C.System) returns (d: C.System)
    requires Good(c)
    ensures Reaches(c, d) && Good(d) && SameEnds(c, d) && d.sender.s.unsent == []
    ensures Oldest(d.sender.s) == Oldest(c.sender.s) && d.sender.s.retransmissions == c.sender.s.retransmissions
    decreases |c.sender.s.unsent|
  {
    hide Good, Oldest, Reaches;
    if c.sender.s.unsent == [] {
      d := c;
      ReachesItself(c);
    } else {
      var e := CanTransmit(c);
      d := CanSendQueue(e);
      ReachesThrough(c, e, d);
    }
  }

  /** From every reachable state with something outstanding, sent or still queued, there is a way on that moves
      the oldest outstanding number forward. */
  lemma CanProgress(c: C.System) returns (d: C.System)
    requires Good(c) && c.sender.s.retransmissions < TWO32 - 1 && Oldest(c.sender.s) < c.sender.s.nextSeqno
    ensures Reaches(c, d) && Good(d) && SameEnds(c, d) && Oldest(d.sender.s) > Oldest(c.sender.s)
  {
    hide Good, Oldest, Reaches;
    var e := CanSendQueue(c);
    if e.sender.s.unacked == [] {
      EmptyIsCaughtUp(e.sender.s);
    }
    d := OneRound(e);
    ReachesThrough(c, e, d);
  }

  lemma EmptyIsCaughtUp(s: Sender)
    requires s.unsent == [] && s.unacked == []
    ensures Oldest(s) == s.nextSeqno
  {
    assert Outstanding(s) == [];
  }

  /** Everything outstanding can still be delivered and acknowledged. */
  lemma {:induction false} CanDrain(c: C.System) returns (d: C.System)
    requires Good(c) && c.sender.s.retransmissions < TWO32 - 1
    ensures Reaches(c, d) && Good(d) && SameEnds(c, d)
    ensures d.sender.s.unsent == [] && d.sender.s.unacked == [] && d.sender.s.retransmissions < TWO32 - 1
    decreases c.sender.s.nextSeqno - Oldest(c.sender.s), |c.sender.s.unsent|
  {
    OldestIsBelow(c.sender.s);
    hide Good, Oldest, Reaches;
    if c.sender.s.unsent != [] {
      var e := CanTransmit(c);
      d := CanDrain(e);
      ReachesThrough(c, e, d);
    } else if c.sender.s.unacked != [] {
      var e := OneRound(c);
      OldestIsBelow(e.sender.s);
      d := CanDrain(e);
      ReachesThrough(c, e, d);
    } else {
      d := c;
      ReachesItself(c);
    }
  }

  lemma OldestIsBelow(s: Sender)
    ensures Oldest(s) <= s.nextSeqno
  {
  }

  // ----- the rest of the stream -----

  /** What stays fixed while the rest of the stream is sent. */
  ghost predicate SameGoal(c: C.System, d: C.System) {
    && d.sender.out.pushed == c.sender.out.pushed && d.sender.out.closed == c.sender.out.closed
    && d.receiver.assembly.out.capacity == c.receiver.assembly.out.capacity
  }

  ghost predicate Drained(s: Sender) {
    s.unsent == [] && s.unacked == [] && s.retransmissions < TWO32 - 1
  }

  lemma DrainedCounts(w: S.World)
    requires S.Holds(w) && Drained(w.s)
    ensures w.s.InFlight() == 0 && Outstanding(w.s) == []
  {
    assert Msgs(w.s.unsent) == [];
    hide Tiled, TakenInv, TimerInv, WindowInv;
  }

  /** A fresh acknowledgement opens the sender's window. */
  lemma CanOpenWindow(c: C.System) returns (d: C.System)
    requires Good(c) && Drained(c.sender.s)
    ensures Reaches(c, d) && Good(d) && SameEnds(c, d) && Drained(d.sender.s) && d.sender.s.window > 0
  {
    hide Receive, Acknowledge, Emptied;
    var e := CanRead(c);
    ReceiverIsValid(e);
    var a := Acknowledge(e.receiver);
    EmptiedIsOpen(e.receiver);
    NothingToDrop(e.sender.s, a);
    StepStaysGood(e, C.SendAck);
    var f := C.Next(e, C.SendAck);
    var step := C.DeliverAck(a);
    assert C.Enabled(f, step);
    StepStaysGood(f, step);
    hide Good;
    d := C.Next(f, step);
    ReachesItself(d);
    ReachesNext(f, step, d);
    ReachesNext(e, C.SendAck, d);
    ReachesThrough(c, e, d);
  }

  lemma EmptiedIsOpen(r: Receiver)
    requires r.Valid() && Emptied(r.assembly) && r.assembly.out.capacity > 0
    ensures Acknowledge(r).windowSize > 0
  {
  }

  lemma NothingToDrop(s: Sender, ack: Ack)
    requires Drained(s)
    ensures Receive(s, ack) == s.(window := ack.windowSize, probe := ack.windowSize == 0)
  {
    hide Wrap32.Unwrap;
  }

  lemma FlagsGoOut(s: Sender)
    requires Drained(s) && s.InFlight() == 0 && s.window > 0 && s.nextSeqno < TWO31
    requires s.synUnsent || (s.finUnsent && s.streamFinished)
    ensures var t := MaybeSend(s).0; t.nextSeqno > s.nextSeqno && t.retransmissions == s.retransmissions
  {
    hide Low32, Wrap32.Wrap;
  }

  /** SYN or FIN goes out. */
  lemma CanSendFlags(c: C.System) returns (d: C.System)
    requires Good(c) && Drained(c.sender.s) && c.sender.s.window > 0
    requires c.sender.s.synUnsent || (c.sender.s.finUnsent && c.sender.s.streamFinished)
    ensures Reaches(c, d) && Good(d) && SameGoal(c, d)
    ensures d.sender.s.nextSeqno > c.sender.s.nextSeqno && d.sender.s.retransmissions == c.sender.s.retransmissions
  {
    ReceiverIsValid(c);
    DrainedCounts(c.sender);
    C.NextFits(c.sender);
    FlagsGoOut(c.sender.s);
    hide MaybeSend;
    StepStaysGood(c, C.Transmit);
    hide Good;
    d := C.Next(c, C.Transmit);
    ReachesItself(d);
    ReachesNext(c, C.Transmit, d);
  }

  lemma PushTakes(w: S.World)
    requires S.Holds(w) && S.Fits(w) && Drained(w.s) && w.s.window > 0 && !w.s.synUnsent
    ensures w.out.Valid() && Ready(w.s, w.out)
    ensures w.out.View() != [] ==> Push(w.s, w.out).1.popped > w.out.popped
    ensures w.out.View() == [] ==> Push(w.s, w.out) == (w.s.(streamFinished := w.out.IsFinished()), w.out)
    ensures Push(w.s, w.out).1.pushed == w.out.pushed && Push(w.s, w.out).1.closed == w.out.closed
    ensures Push(w.s, w.out).0.retransmissions == w.s.retransmissions
  {
    DrainedCounts(w);
    C.TakenIsPushed(w);
    assert Ready(w.s, w.out);
    CutAllLeavesRest(w.s, w.out);
    if w.out.View() != [] {
      assert w.s.MaySend();
      CutKeeps(w.s, w.out, w.zeros);
      hide Inv, Bounded, Ready, Outstanding, Total, S.Holds, NextSegment, Queueing;
      var (t, rest) := Cut(w.s, w.out);
      assert rest.popped > w.out.popped;
      CutAllKeeps(t, rest, w.zeros);
      CutAllLeavesRest(t, rest);
    }
  }

  lemma {:induction false} CutAllLeavesRest(s: Sender, out: Stream)
    requires out.Valid()
    ensures var (t, rest) := CutAll(s, out);
      && t.retransmissions == s.retransmissions && rest.pushed == out.pushed && rest.closed == out.closed && rest.popped >= out.popped
    decreases |out.View()|
  {
    hide NextSegment, Low32, Low64;
    if out.View() != [] && s.MaySend() {
      CutAllLeavesRest(Cut(s, out).0, Cut(s, out).1);
    }
  }

  lemma CanPush(c: C.System) returns (d: C.System)
    requires Good(c) && Drained(c.sender.s) && c.sender.s.window > 0 && !c.sender.s.synUnsent
    ensures Reaches(c, d) && Good(d) && SameGoal(c, d) && d.sender.s.retransmissions == c.sender.s.retransmissions
    ensures c.sender.out.View() != [] ==> d.sender.s.nextSeqno > c.sender.s.nextSeqno
    ensures c.sender.out.View() == [] ==>
      d.sender.s == c.sender.s.(streamFinished := c.sender.out.closed)
  {
    hide Push, Good, S.Holds, Reaches, S.Fits, C.Small;
    ReceiverIsValid(c);
    SenderHolds(c);
    PushTakes(c.sender);
    var step := C.Local(S.PushAll);
    StepIsSmall(c.sender);
    assert C.Enabled(c, step);
    StepStaysGood(c, step);
    d := C.Next(c, step);
    C.SenderAdvances(c.sender, S.PushAll);
    TakenNumbers(c.sender);
    TakenNumbers(d.sender);
    ReachesItself(d);
    ReachesNext(c, step, d);
  }

  lemma SenderHolds(c: C.System)
    requires Good(c)
    ensures S.Holds(c.sender) && S.Fits(c.sender) && C.Small(c.sender)
  {
    hide S.Holds;
  }

  lemma StepIsSmall(w: S.World)
    requires S.InOrder(w, S.PushAll) && C.Small(w) && Push(w.s, w.out).1.pushed == w.out.pushed
    ensures C.Small(S.After(w, S.PushAll)) && S.Fits(S.After(w, S.PushAll))
  {
    hide Push;
  }

  lemma TakenNumbers(w: S.World)
    requires S.Holds(w)
    ensures w.s.nextSeqno == Count(!w.s.synUnsent) + w.out.popped + Count(!w.s.finUnsent)
    ensures w.s.synUnsent ==> w.s.finUnsent && w.out.popped == 0
    ensures w.out.popped <= |w.out.pushed|
  {
    hide Tiled, Counted, TimerInv, WindowInv;
  }

  /** With nothing outstanding and the stream closed, the sender can always send more, until FIN is sent. */
  lemma CanSendMore(c: C.System) returns (d: C.System)
    requires Good(c) && Drained(c.sender.s) && c.sender.s.window > 0 && c.sender.out.closed
    requires c.sender.s.nextSeqno < |c.sender.out.pushed| + 2
    ensures Reaches(c, d) && Good(d) && SameGoal(c, d)
    ensures d.sender.s.nextSeqno > c.sender.s.nextSeqno && d.sender.s.retransmissions == c.sender.s.retransmissions
  {
    ReceiverIsValid(c);
    TakenNumbers(c.sender);
    hide Good, Reaches;
    if c.sender.s.synUnsent {
      d := CanSendFlags(c);
    } else {
      d := CanPush(c);
      if c.sender.out.View() == [] {
        var e := d;
        d := CanSendFlags(e);
        ReachesThrough(c, e, d);
      }
    }
  }

  lemma {:induction false} CanComplete(c: C.System) returns (d: C.System)
    requires Good(c) && c.sender.s.retransmissions < TWO32 - 1
    requires c.sender.out.closed
    ensures Reaches(c, d) && Good(d) && SameGoal(c, d)
    ensures d.receiver.finished && d.receiver.assembly.out.pushed == c.sender.out.pushed
    decreases |c.sender.out.pushed| + 2 - c.sender.s.nextSeqno
  {
    var e := CanDrain(c);
    GoodNumbers(e);
    hide Reaches;
    if e.sender.s.nextSeqno == |e.sender.out.pushed| + 2 {
      d := e;
      DrainedCounts(e.sender);
      C.AllAckedIsComplete(e);
    } else {
      hide Good;
      var f := CanOpenWindow(e);
      var g := CanSendMore(f);
      GoodNumbers(g);
      d := CanComplete(g);
      ReachesThrough(f, g, d);
      ReachesThrough(e, f, d);
      ReachesThrough(c, e, d);
    }
  }

  lemma GoodNumbers(c: C.System)
    requires Good(c)
    ensures c.sender.s.nextSeqno <= |c.sender.out.pushed| + 2
    ensures c.sender.s.nextSeqno == |c.sender.out.pushed| + 2 ==> !c.sender.s.finUnsent
  {
    TakenNumbers(c.sender);
  }

  lemma CanClose(c: C.System) returns (d: C.System)
    requires Good(c)
    ensures Reaches(c, d) && Good(d) && d.sender.out.closed && d.sender.out.pushed == c.sender.out.pushed
    ensures d.receiver == c.receiver && d.sender.s == c.sender.s
  {
    ReceiverIsValid(c);
    var step := C.Local(S.Finish);
    StepStaysGood(c, step);
    hide Good;
    d := C.Next(c, step);
    ReachesItself(d);
    ReachesNext(c, step, d);
  }

  /** Never stuck: whatever has happened on a run in which FIN segments arrive usable, however much the
      network has lost, from its end there is a way on in which the receiver writes everything ever written
      to the sender's stream and finishes. The receiver's
      capacity need only be positive. */
  lemma CanAlwaysComplete(isn: U32, initialRto: U64, sendCapacity: nat, receiveCapacity: nat, path: seq<C.Step>, mid: C.System)
      returns (end: C.System)
    requires C.IsRun(C.Begin(isn, initialRto, sendCapacity, receiveCapacity), path, mid)
    requires C.FinsUsable(C.Begin(isn, initialRto, sendCapacity, receiveCapacity), path, mid)
    requires receiveCapacity > 0 && mid.sender.s.retransmissions < TWO32 - 1
    ensures Reaches(mid, end)
    ensures end.receiver.finished && end.receiver.assembly.out.pushed == mid.sender.out.pushed == end.sender.out.pushed
  {
    var start := C.Begin(isn, initialRto, sendCapacity, receiveCapacity);
    hide C.IsRun, C.FinsUsable, Reaches, Good, C.Begin;
    BeginsGood(isn, initialRto, sendCapacity, receiveCapacity);
    RunStaysGood(start, path, mid);
    var closed := CanClose(mid);
    end := CanComplete(closed);
    ReachesThrough(mid, closed, end);
  }

  lemma BeginsGood(isn: U32, initialRto: U64, sendCapacity: nat, receiveCapacity: nat)
    requires receiveCapacity > 0
    ensures Good(C.Begin(isn, initialRto, sendCapacity, receiveCapacity))
  {
    hide C.Inv, P.Sized;
    C.BeginsGood(isn, initialRto, sendCapacity, receiveCapacity);
    P.BeginsSized(isn, initialRto, sendCapacity, receiveCapacity);
  }

  lemma RunStaysGood(c: C.System, path: seq<C.Step>, end: C.System)
    requires Good(c) && C.IsRun(c, path, end) && C.FinsUsable(c, path, end)
    ensures Good(end)
  {
    hide C.Inv, C.EndInv, P.Sized, C.IsRun, C.FinsUsable;
    C.RunKeepsEnd(c, path, end);
    P.RunStaysSized(c, path, end);
  }
}
