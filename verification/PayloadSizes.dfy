/** No payload is longer than the receiver's capacity: windows are announced within it. */
module PayloadSizes {
  import opened Words
  import Wrap32
  import opened ByteStreams
  import opened Reassembly
  import opened TcpMessages
  import opened TcpReceivers
  import opened SenderModel
  import opened SenderQueues
  import opened SenderInvariant
  import S = SenderRuns
  import C = Connection
  import B = Boundaries

  ghost predicate QueueFits(s: Sender, capacity: nat) {
    forall m :: m in Outstanding(s) ==> |m.payload| <= capacity
  }

  ghost predicate Sized(c: C.System) {
    var capacity := c.receiver.assembly.out.capacity;
    && capacity > 0 && c.sender.s.window <= capacity && QueueFits(c.sender.s, capacity)
    && forall a :: a in c.acks ==> a.windowSize <= capacity
  }

  lemma CutFits(s: Sender, out: Stream, zeros: nat, capacity: nat)
    requires out.Valid() && Inv(s, out, zeros) && Bounded(out, zeros) && Ready(s, out) && out.View() != [] && s.MaySend()
    requires capacity > 0 && s.window <= capacity && QueueFits(s, capacity)
    ensures var t := Cut(s, out).0; t.window == s.window && QueueFits(t, capacity)
  {
    hide Inv, Wrap32.Wrap, Outstanding, NextSegment, Ready, Low64;
    CutShape(s, out, zeros);
    QueuedAreNew(s, out);
    var t, m := Cut(s, out).0, NextSegment(s, out);
    B.QueueingOutstanding(s, t, m);
    assert |m.payload| <= m.Length();
  }

  lemma QueuedAreNew(s: Sender, out: Stream)
    requires out.Valid() && Ready(s, out)
    ensures forall q :: q in s.unsent ==> !q.retransmitted
  {
  }

  lemma {:induction false} CutAllFits(s: Sender, out: Stream, zeros: nat, capacity: nat)
    requires Inv(s, out, zeros) && Bounded(out, zeros) && Ready(s, out)
    requires capacity > 0 && s.window <= capacity && QueueFits(s, capacity)
    ensures var t := CutAll(s, out).0; t.window == s.window && QueueFits(t, capacity)
    decreases |out.View()|
  {
    if out.View() != [] && s.MaySend() {
      hide Inv, Bounded, Ready, QueueFits, NextSegment, Queueing;
      CutKeeps(s, out, zeros);
      CutFits(s, out, zeros, capacity);
      CutAllFits(Cut(s, out).0, Cut(s, out).1, zeros, capacity);
    }
  }

  lemma FinFitsToo(s: Sender, out: Stream, capacity: nat)
    requires out.Valid() && Ready(s, out) && QueueFits(s, capacity)
    ensures var t := AttachFin(s, out.IsFinished()); t.window == s.window && QueueFits(t, capacity)
  {
    hide Outstanding, Low32, Low64;
    B.FinKeepsPayloads(s, out.IsFinished());
    var t := AttachFin(s, out.IsFinished());
    forall m | m in Outstanding(t)
      ensures |m.payload| <= capacity
    {
      var i :| 0 <= i < |Outstanding(t)| && Outstanding(t)[i] == m;
      assert Outstanding(s)[i] in Outstanding(s);
      assert m.(fin := false).payload == Outstanding(s)[i].(fin := false).payload;
    }
  }

  lemma CallFits(w: S.World, e: S.Event, capacity: nat)
    requires S.Holds(w) && S.InOrder(w, e) && S.Fits(w)
    requires capacity > 0 && w.s.window <= capacity && QueueFits(w.s, capacity) && (e.Hear? ==> e.ack.windowSize <= capacity)
    ensures var t := S.After(w, e).s; t.window <= capacity && QueueFits(t, capacity)
  {
    if e.PushAll? {
      hide Inv, Outstanding, QueueFits, Ready, CutAll, AttachFin;
      CutAllFits(w.s, w.out, w.zeros, capacity);
      CutAllKeeps(w.s, w.out, w.zeros);
      FinFitsToo(CutAll(w.s, w.out).0, CutAll(w.s, w.out).1, capacity);
    } else {
      WindowAfter(w, e, capacity);
      forall m | m in Outstanding(S.After(w, e).s)
        ensures |m.payload| <= capacity
      {
        hide Outstanding, S.After, S.InOrder, S.Holds;
        B.NothingNewQueued(w, e, m);
      }
    }
  }

  lemma WindowAfter(w: S.World, e: S.Event, capacity: nat)
    requires S.InOrder(w, e) && !e.PushAll? && w.s.window <= capacity && (e.Hear? ==> e.ack.windowSize <= capacity)
    ensures S.After(w, e).s.window <= capacity
  {
    hide Low32, Low64, Wrap32.Wrap, Wrap32.Unwrap, AckedCount, Total;
  }

  lemma ReceiverKeepsCapacity(r: Receiver, e: TcpReceivers.Event)
    requires r.Valid()
    ensures TcpReceivers.Step(r, e).assembly.out.capacity == r.assembly.out.capacity
  {
    hide Insert;
    StepAdvances(r, e);
  }

  lemma StepStaysSized(c: C.System, step: C.Step)
    requires C.Inv(c) && Sized(c) && C.Enabled(c, step)
    ensures Sized(C.Next(c, step))
  {
    var capacity := c.receiver.assembly.out.capacity;
    match step
    case Local(e) =>
      CallFits(c.sender, e, capacity);
      hide C.Inv, S.After, QueueFits;
    case Transmit =>
      CallFits(c.sender, S.SendOne, capacity);
      hide C.Inv, S.After, QueueFits, MaybeSend;
    case DeliverAck(a) =>
      CallFits(c.sender, S.Hear(a), capacity);
      hide C.Inv, S.After, QueueFits;
    case DeliverSegment(m) =>
      ReceiverKeepsCapacity(c.receiver, Arrives(m));
      hide C.Inv, QueueFits, Received;
    case SendAck =>
      hide C.Inv, QueueFits;
      assert Acknowledge(c.receiver).windowSize <= capacity;
    case ReadInbound(_) =>
      hide C.Inv, QueueFits;
  }

  lemma {:induction false} RunStaysSized(c: C.System, path: seq<C.Step>, end: C.System)
    requires C.Inv(c) && Sized(c) && C.IsRun(c, path, end)
    ensures Sized(end)
    decreases |path|
  {
    if path != [] {
      StepStaysSized(c, path[0]);
      C.StepKeeps(c, path[0]);
      hide C.Inv, Sized, C.Enabled, C.Next;
      RunStaysSized(C.Next(c, path[0]), path[1..], end);
    }
  }

  lemma BeginsSized(isn: U32, initialRto: U64, sendCapacity: nat, receiveCapacity: nat)
    requires receiveCapacity > 0
    ensures Sized(C.Begin(isn, initialRto, sendCapacity, receiveCapacity))
  {
    assert Outstanding(NewSender(isn, initialRto)) == [];
  }
}
