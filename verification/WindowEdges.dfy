/** When FIN segments arrive usable: while the sender hears no acknowledgement older than what it has already
    been told, and no zero window, it never sends beyond the right edge of the receiver's window. */
module WindowEdges {
  import opened Words
  import Wrap32
  import opened ByteStreams
  import opened Reassembly
  import R = ReassemblyRuns
  import opened TcpMessages
  import opened TcpReceivers
  import opened SenderModel
  import opened SenderQueues
  import opened SenderInvariant
  import S = SenderRuns
  import C = Connection

  /** The acknowledgement is no older than what the sender has been told, and opens a window. */
  ghost predicate Fresh(s: Sender, a: Ack) {
    && a.windowSize > 0
    && match a.ackno
       case None => Oldest(s) <= 0
       case Some(x) => Oldest(s) <= Wrap32.Unwrap(x, s.isn, s.nextSeqno)
  }

  /** The sender's window, counted from its oldest outstanding number, ends inside the receiver's. */
  ghost predicate InsideWindow(w: S.World, r: Receiver)
    requires r.Valid()
  {
    && w.s.window > 0 && !w.s.probe
    && Oldest(w.s) + w.s.window <= RightEdge(r)
    && w.s.nextSeqno <= RightEdge(r)
  }

  /** What an acknowledgement announces lies inside the receiver's window now. */
  ghost predicate Announced(w: S.World, r: Receiver, a: Ack)
    requires r.Valid()
  {
    && a.windowSize <= RightEdge(r)
    && (a.ackno.Some? ==> exists n: nat ::
          n <= NextNeeded(r) && a.ackno == Some(Wrap32.Wrap(Low64(n), w.s.isn)) && n + a.windowSize <= RightEdge(r))
  }

  ghost predicate EdgeInv(c: C.System) {
    && c.receiver.Valid()
    && InsideWindow(c.sender, c.receiver)
    && forall a :: a in c.acks ==> Announced(c.sender, c.receiver, a)
  }

  // ----- the receiver's edge moves right -----

  lemma EdgeMovesRight(r: Receiver, e: TcpReceivers.Event)
    requires r.Valid()
    ensures var t := TcpReceivers.Step(r, e);
      RightEdge(r) <= RightEdge(t) && NextNeeded(r) <= NextNeeded(t) && t.assembly.out.capacity == r.assembly.out.capacity
  {
    StepAdvances(r, e);
    RightEdgeIs(r);
    RightEdgeIs(TcpReceivers.Step(r, e));
    hide TcpReceivers.Step, RightEdge;
  }

  lemma StillAnnounced(w: S.World, v: S.World, r: Receiver, t: Receiver, a: Ack)
    requires r.Valid() && t.Valid() && Announced(w, r, a) && v.s.isn == w.s.isn
    requires RightEdge(r) <= RightEdge(t) && NextNeeded(r) <= NextNeeded(t)
    ensures Announced(v, t, a)
  {
    hide RightEdge, Wrap32.Wrap;
  }

  lemma ReceiverKeepsEdge(c: C.System, e: TcpReceivers.Event)
    requires C.Inv(c) && EdgeInv(c)
    ensures EdgeInv(c.(receiver := TcpReceivers.Step(c.receiver, e)))
  {
    EdgeMovesRight(c.receiver, e);
    var t := TcpReceivers.Step(c.receiver, e);
    hide C.Inv, RightEdge, NextNeeded, TcpReceivers.Step, Announced, Oldest;
    forall a | a in c.acks
      ensures Announced(c.sender, t, a)
    {
      StillAnnounced(c.sender, c.sender, c.receiver, t, a);
    }
  }

  lemma NewAckIsAnnounced(w: S.World, r: Receiver)
    requires C.ReceiverInv(w, r)
    ensures Announced(w, r, Acknowledge(r))
  {
    hide Wrap32.Wrap, R.Tracks, C.Gathered;
    if r.isn.Some? {
      assert NextNeeded(r) + Acknowledge(r).windowSize == RightEdge(r);
    }
  }

  // ----- the sender stays inside -----

  lemma PushStaysInside(w: S.World, r: Receiver)
    requires S.Holds(w) && S.Fits(w) && S.InOrder(w, S.PushAll) && r.Valid() && InsideWindow(w, r)
    ensures InsideWindow(S.After(w, S.PushAll), r)
  {
    PushKeeps(w.s, w.out, w.zeros);
    hide Push, Outstanding, Total, RightEdge, Inv;
  }

  lemma FlagsStayInside(w: S.World, r: Receiver)
    requires S.Holds(w) && S.Fits(w) && w.s.unsent == [] && w.s.nextSeqno < TWO31
    requires r.Valid() && InsideWindow(w, r) && r.assembly.out.capacity > 0
    ensures InsideWindow(S.After(w, S.SendOne), r)
  {
    hide Inv, S.Holds, Outstanding, Total, RightEdge, Low32, Low64, Wrap32.Wrap, SegmentAt, SendFlags, Oldest;
    var (t, sent) := SendFlags(w.s);
    FlagFacts(w);
    RightEdgeIs(r);
  }

  lemma FlagFacts(w: S.World)
    requires S.Holds(w) && S.Fits(w) && w.s.unsent == [] && w.s.nextSeqno < TWO31
    ensures var (t, sent) := SendFlags(w.s);
      && Oldest(t) == Oldest(w.s) && t.window == w.s.window && (t.probe ==> w.s.probe)
      && (sent.None? ==> t == w.s)
      && (sent.Some? && w.s.window > 0 ==>
            && w.s.nextSeqno < Oldest(w.s) + w.s.window
            && (t.nextSeqno == w.s.nextSeqno + 1 || t.nextSeqno == 2))
  {
    hide Inv, Outstanding, Total, Low64, Wrap32.Wrap, SegmentAt;
    SendFlagsKeeps(w.s, w.out, w.zeros);
    SenderCounts(w);
    if SendFlags(w.s).1.Some? {
      FlagLengths(w);
      SynIsFirst(w);
    }
  }

  lemma SenderCounts(w: S.World)
    requires S.Holds(w) && S.Fits(w)
    ensures w.s.InFlight() == w.s.nextSeqno - Oldest(w.s)
  {
    hide Tiled, TakenInv, TimerInv, Outstanding, Total, Msgs;
    CountersFit(w.s, w.zeros);
  }

  lemma FlagLengths(w: S.World)
    requires S.Holds(w) && S.Fits(w) && w.s.unsent == [] && SendFlags(w.s).1.Some?
    ensures var t := SendFlags(w.s).0;
      t.nextSeqno == w.s.nextSeqno + 1 || (t.nextSeqno == w.s.nextSeqno + 2 && w.s.synUnsent)
  {
    hide Tiled, Counted, TimerInv, WindowInv, Wrap32.Wrap, SegmentAt;
    FlagSegmentAt(w.s, w.out);
  }

  lemma SynIsFirst(w: S.World)
    requires S.Holds(w)
    ensures w.s.synUnsent ==> w.s.nextSeqno == 0
  {
    hide Tiled, Counted, TimerInv, WindowInv;
  }

  lemma SendStaysInside(w: S.World, r: Receiver)
    requires S.Holds(w) && S.Fits(w) && w.s.nextSeqno < TWO31
    requires r.Valid() && InsideWindow(w, r) && r.assembly.out.capacity > 0
    ensures InsideWindow(S.After(w, S.SendOne), r)
  {
    if w.s.unsent == [] {
      FlagsStayInside(w, r);
    } else {
      SendFirstKeeps(w.s, w.out, w.zeros);
      hide Inv, Oldest, RightEdge, Low32;
    }
  }

  lemma TickStaysInside(w: S.World, ms: nat, r: Receiver)
    requires S.Holds(w) && S.Fits(w) && S.InOrder(w, S.Wait(ms)) && r.Valid() && InsideWindow(w, r)
    ensures InsideWindow(S.After(w, S.Wait(ms)), r)
  {
    TickKeeps(w.s, w.out, w.zeros, ms);
    TickShape(w.s, w.out, w.zeros, ms);
    hide Inv, Oldest, RightEdge, Tick, Outstanding;
  }

  lemma FreshAckStaysInside(w: S.World, a: Ack, r: Receiver)
    requires S.Holds(w) && C.Small(w) && r.Valid() && C.ReceiverInv(w, r) && Again(w.s.unsent) == []
    requires InsideWindow(w, r) && Announced(w, r, a) && C.AckInv(w, r, a) && Fresh(w.s, a)
    ensures InsideWindow(S.After(w, S.Hear(a)), r)
  {
    hide Inv, S.Holds, C.ReceiverInv, Receive, Wrap32.Wrap, Wrap32.Unwrap, Oldest, RightEdge, NextNeeded, Low64;
    HearsOldest(w, a);
    HeardWindow(w.s, a);
    if a.ackno.Some? {
      var n: nat :| n <= NextNeeded(r) && a.ackno == Some(Wrap32.Wrap(Low64(n), w.s.isn)) && n + a.windowSize <= RightEdge(r);
      IsSynchronized(w, r, a);
      C.NeededIsSent(w, r);
      C.NextFits(w);
      Wrap32.Low64Of(n);
      Wrap32.RoundTrip(n, w.s.isn, w.s.nextSeqno);
    }
  }

  lemma HearsOldest(w: S.World, a: Ack)
    requires S.Holds(w) && C.Small(w) && Again(w.s.unsent) == []
    ensures Oldest(Receive(w.s, a)) == Oldest(w.s)
         || (a.ackno.Some? && Oldest(w.s) <= Oldest(Receive(w.s, a)) <= Wrap32.Unwrap(a.ackno.value, w.s.isn, w.s.nextSeqno))
  {
    hide Inv, Receive, Wrap32.Unwrap, Oldest;
    OldestAfterReceive(w.s, a, w.out, w.zeros);
  }

  lemma IsSynchronized(w: S.World, r: Receiver, a: Ack)
    requires C.AckInv(w, r, a) && a.ackno.Some?
    ensures r.isn.Some?
  {
    hide Wrap32.Wrap;
  }

  lemma HeardWindow(s: Sender, a: Ack)
    ensures var t := Receive(s, a);
      t.window == a.windowSize && t.probe == (a.windowSize == 0) && t.nextSeqno == s.nextSeqno && t.isn == s.isn
  {
    hide Wrap32.Unwrap, AckedCount, Total;
  }

  // ----- runs -----

  /** No stale acknowledgement and no zero window is heard, and no bare FIN arrives ahead of a gap. */
  ghost predicate OrderlyStep(c: C.System, step: C.Step) {
    match step
    case DeliverAck(a) => Fresh(c.sender.s, a)
    case DeliverSegment(m) => m.fin && m.payload == [] ==> c.receiver.assembly.First() == |c.sender.out.pushed|
    case _ => true
  }

  ghost predicate Orderly(c: C.System, path: seq<C.Step>, end: C.System)
    requires C.IsRun(c, path, end)
    decreases |path|
  {
    path == [] || (OrderlyStep(c, path[0]) && Orderly(C.Next(c, path[0]), path[1..], end))
  }

  lemma SenderKeepsEdge(c: C.System, e: S.Event)
    requires C.Inv(c) && EdgeInv(c) && S.InOrder(c.sender, e) && c.receiver.assembly.out.capacity > 0
    requires e.Hear? ==> e.ack in c.acks && Fresh(c.sender.s, e.ack)
    ensures EdgeInv(c.(sender := S.After(c.sender, e)))
  {
    var w, v := c.sender, S.After(c.sender, e);
    C.NextFits(w);
    C.FlagsOnlyFall(w, e);
    match e {
      case PushAll => PushStaysInside(w, c.receiver);
      case SendOne => SendStaysInside(w, c.receiver);
      case Wait(ms) => TickStaysInside(w, ms, c.receiver);
      case Hear(a) => FreshAckStaysInside(w, a, c.receiver);
      case Write(_) => hide RightEdge, Oldest, Announced;
      case Finish => hide RightEdge, Oldest, Announced;
    }
    hide S.Holds, S.After, InsideWindow, RightEdge, C.ReceiverInv;
    forall a | a in c.acks
      ensures Announced(v, c.receiver, a)
    {
      StillAnnounced(w, v, c.receiver, c.receiver, a);
    }
  }

  lemma StepKeepsEdge(c: C.System, step: C.Step)
    requires C.Inv(c) && EdgeInv(c) && C.Enabled(c, step) && OrderlyStep(c, step) && c.receiver.assembly.out.capacity > 0
    ensures EdgeInv(C.Next(c, step)) && C.Next(c, step).receiver.assembly.out.capacity > 0
  {
    match step
    case Local(e) =>
      SenderKeepsEdge(c, e);
      hide C.Inv, EdgeInv, S.After;
    case Transmit =>
      SenderKeepsEdge(c, S.SendOne);
      hide C.Inv, S.After, InsideWindow, Announced, MaybeSend;
    case DeliverSegment(m) =>
      EdgeMovesRight(c.receiver, Arrives(m));
      ReceiverKeepsEdge(c, Arrives(m));
      hide C.Inv, EdgeInv, Received, RightEdge, NextNeeded;
    case SendAck =>
      NewAckIsAnnounced(c.sender, c.receiver);
      hide C.Inv, InsideWindow, Announced, Acknowledge;
    case DeliverAck(a) =>
      SenderKeepsEdge(c, S.Hear(a));
      hide C.Inv, EdgeInv, S.After;
    case ReadInbound(len) =>
      EdgeMovesRight(c.receiver, Reads(len));
      ReceiverKeepsEdge(c, Reads(len));
      hide C.Inv, EdgeInv, Read, RightEdge, NextNeeded;
  }

  /** A FIN that is not bare ends inside the receiver's window when it arrives. */
  lemma FinArrivesUsable(c: C.System, step: C.Step)
    requires C.Inv(c) && C.EndInv(c) && EdgeInv(c) && OrderlyStep(c, step) && C.Enabled(c, step)
    ensures C.FinUsable(c, step)
  {
    if step.DeliverSegment? && step.m.fin && step.m.payload != [] && !c.receiver.assembly.reachEnd {
      var m, w, r := step.m, c.sender, c.receiver;
      assert C.WasSent(w, m);
      var lo: nat :| C.SentAt(w, m, lo);
      RightEdgeIs(r);
      assert !r.finished;
      assert lo + m.Length() <= RightEdge(r);
      hide C.Inv, C.EndInv, EdgeInv, Wrap32.Wrap, RightEdge;
      assert |w.out.pushed| <= r.assembly.Limit();
    }
  }

  lemma {:induction false} OrderlyRun(c: C.System, path: seq<C.Step>, end: C.System)
    requires C.Inv(c) && C.EndInv(c) && EdgeInv(c) && c.receiver.assembly.out.capacity > 0
    requires C.IsRun(c, path, end) && Orderly(c, path, end)
    ensures C.FinsUsable(c, path, end)
    decreases |path|
  {
    if path != [] {
      FinArrivesUsable(c, path[0]);
      C.StepKeeps(c, path[0]);
      C.StepKeepsEnd(c, path[0]);
      StepKeepsEdge(c, path[0]);
      hide C.Inv, C.EndInv, EdgeInv, C.Enabled, C.Next, C.FinUsable, OrderlyStep;
      OrderlyRun(C.Next(c, path[0]), path[1..], end);
    }
  }

  lemma BeginsInside(isn: U32, initialRto: U64, sendCapacity: nat, receiveCapacity: nat)
    ensures EdgeInv(C.Begin(isn, initialRto, sendCapacity, receiveCapacity))
  {
    RightEdgeIs(NewReceiver(receiveCapacity));
    assert Outstanding(NewSender(isn, initialRto)) == [];
  }

  /** In orderly runs every FIN arrives usable, so nothing is lost and a closed inbound stream is complete. */
  lemma OrderlyRunsLoseNothing(isn: U32, initialRto: U64, sendCapacity: nat, receiveCapacity: nat, path: seq<C.Step>, end: C.System, i: nat)
      returns (k: nat)
    requires receiveCapacity > 0
    requires C.IsRun(C.Begin(isn, initialRto, sendCapacity, receiveCapacity), path, end)
    requires Orderly(C.Begin(isn, initialRto, sendCapacity, receiveCapacity), path, end)
    requires i < end.sender.out.popped
    ensures C.FinsUsable(C.Begin(isn, initialRto, sendCapacity, receiveCapacity), path, end)
    ensures end.receiver.assembly.out.closed ==> end.receiver.assembly.out.pushed == end.sender.out.pushed && end.sender.out.closed
    ensures i < |end.sender.out.pushed|
    ensures i < end.receiver.assembly.First() || C.Carries(end.sender.s, k, i, end.sender.out.pushed[i])
  {
    C.BeginsGood(isn, initialRto, sendCapacity, receiveCapacity);
    BeginsInside(isn, initialRto, sendCapacity, receiveCapacity);
    var start := C.Begin(isn, initialRto, sendCapacity, receiveCapacity);
    assert C.EndInv(start);
    hide C.IsRun, C.FinsUsable, Orderly, C.Inv, C.EndInv, EdgeInv, C.Carries;
    OrderlyRun(start, path, end);
    C.ClosedMeansComplete(isn, initialRto, sendCapacity, receiveCapacity, path, end);
    k := C.NothingLost(isn, initialRto, sendCapacity, receiveCapacity, path, end, i);
  }
}
