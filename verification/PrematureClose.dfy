/** Why a FIN has to arrive usable: from any state in which one arrives that is not, the network can make the
    receiver close its stream with bytes missing. */
module PrematureClose {
  import opened Words
  import Wrap32
  import opened ByteStreams
  import opened Reassembly
  import R = ReassemblyRuns
  import opened TcpMessages
  import opened TcpReceivers
  import opened SenderModel
  import opened SenderQueues
  import opened SenderInvariant
  import S = SenderRuns
  import C = Connection
  import B = Boundaries

  ghost predicate Leads(c: C.System, end: C.System) {
    exists path :: C.IsRun(c, path, end)
  }

  lemma LeadsNowhere(c: C.System)
    ensures Leads(c, c)
  {
    assert C.IsRun(c, [], c);
  }

  lemma LeadsByStep(c: C.System, step: C.Step, end: C.System)
    requires C.Enabled(c, step) && Leads(C.Next(c, step), end)
    ensures Leads(c, end)
  {
    hide C.Enabled, C.Next;
    var path :| C.IsRun(C.Next(c, step), path, end);
    assert ([step] + path)[0] == step && ([step] + path)[1..] == path;
    assert C.IsRun(c, [step] + path, end);
  }

  // ----- whatever is not acknowledged can be delivered again -----

  /** Everything sent and not acknowledged is in the network's hands. */
  ghost predicate InHand(s: Sender, segments: set<Segment>) {
    && (forall m :: m in s.unacked ==> m in segments)
    && (forall q :: q in s.unsent && q.retransmitted ==> q.msg in segments)
  }

  lemma {:induction false} CutAllInHand(s: Sender, out: Stream, segments: set<Segment>)
    requires out.Valid() && InHand(s, segments) && (forall q :: q in s.unsent ==> !q.retransmitted)
    ensures var t := CutAll(s, out).0; InHand(t, segments) && forall q :: q in t.unsent ==> !q.retransmitted
    decreases |out.View()|
  {
    if out.View() != [] && s.MaySend() {
      hide NextSegment, Low32, Low64;
      CutAllInHand(Cut(s, out).0, Cut(s, out).1, segments);
    }
  }

  lemma AttachFinInHand(s: Sender, finished: bool, segments: set<Segment>)
    requires InHand(s, segments) && (forall q :: q in s.unsent ==> !q.retransmitted)
    ensures InHand(AttachFin(s, finished), segments)
  {
    hide Low32, Low64;
    var t := AttachFin(s, finished);
    forall q | q in t.unsent
      ensures !q.retransmitted
    {
      var i :| 0 <= i < |t.unsent| && t.unsent[i] == q;
      assert s.unsent[i] in s.unsent;
    }
  }

  lemma CallInHand(w: S.World, e: S.Event, segments: set<Segment>)
    requires S.Holds(w) && S.InOrder(w, e) && InHand(w.s, segments)
    ensures var more := if e.SendOne? && MaybeSend(w.s).1.Some? then {MaybeSend(w.s).1.value} else {};
      InHand(S.After(w, e).s, segments + more)
  {
    hide Tiled, Counted, TimerInv, WindowInv, Low32, Low64, Wrap32.Wrap, Wrap32.Unwrap, AckedCount, CutAll, AttachFin, Total;
    match e
    case PushAll =>
      CutAllInHand(w.s, w.out, segments);
      AttachFinInHand(CutAll(w.s, w.out).0, CutAll(w.s, w.out).1.IsFinished(), segments);
    case Write(_) =>
    case Finish =>
    case SendOne =>
    case Hear(_) =>
    case Wait(_) =>
  }

  lemma StepInHand(c: C.System, step: C.Step)
    requires C.Inv(c) && C.Enabled(c, step) && InHand(c.sender.s, c.segments)
    ensures InHand(C.Next(c, step).sender.s, C.Next(c, step).segments)
  {
    match step
    case Local(e) => CallInHand(c.sender, e, c.segments); hide S.After, C.Inv; assert c.segments + {} == c.segments;
    case Transmit => CallInHand(c.sender, S.SendOne, c.segments); hide S.After, C.Inv, MaybeSend;
    case DeliverAck(a) => CallInHand(c.sender, S.Hear(a), c.segments); hide S.After, C.Inv; assert c.segments + {} == c.segments;
    case DeliverSegment(_) => hide C.Inv, Received;
    case SendAck => hide C.Inv;
    case ReadInbound(_) => hide C.Inv;
  }

  /** What every run keeps. */
  ghost predicate Sound(c: C.System) {
    B.Sound(c) && InHand(c.sender.s, c.segments)
  }

  lemma StepStaysSound(c: C.System, step: C.Step)
    requires Sound(c) && C.Enabled(c, step)
    ensures Sound(C.Next(c, step))
  {
    B.StepStaysSound(c, step);
    StepInHand(c, step);
    hide B.Sound, C.Enabled, C.Next, InHand;
  }

  lemma {:induction false} RunStaysSound(c: C.System, path: seq<C.Step>, end: C.System)
    requires Sound(c) && C.IsRun(c, path, end)
    ensures Sound(end)
    decreases |path|
  {
    if path != [] {
      StepStaysSound(c, path[0]);
      hide Sound, C.Enabled, C.Next;
      RunStaysSound(C.Next(c, path[0]), path[1..], end);
    }
  }

  // ----- on the way to a premature close -----

  /** The end has been announced, but its last byte is neither written nor held. */
  ghost predicate Doomed(c: C.System) {
    var a := c.receiver.assembly;
    && c.receiver.isn.Some? && a.reachEnd && !R.EndSecured(a, c.sender.out.pushed)
    && (a.pending == map[] ==> a.out.closed) && (c.receiver.finished ==> a.out.closed)
    && c.sender.out.closed && c.sender.out.popped == |c.sender.out.pushed|
  }

  /** All queued segments go out. */
  lemma {:induction false} SendAll(c: C.System) returns (d: C.System)
    requires Sound(c) && Doomed(c)
    ensures Leads(c, d) && Sound(d) && Doomed(d)
    ensures d.sender.s.unsent == [] && d.receiver == c.receiver && d.sender.out == c.sender.out
    decreases |c.sender.s.unsent|
  {
    if c.sender.s.unsent == [] {
      d := c;
      LeadsNowhere(c);
    } else {
      var e := OneOut(c);
      hide Sound, Doomed, Leads;
      d := SendAll(e);
      LeadsByStep(c, C.Transmit, d);
    }
  }

  lemma OneOut(c: C.System) returns (e: C.System)
    requires Sound(c) && Doomed(c) && c.sender.s.unsent != []
    ensures C.Enabled(c, C.Transmit) && e == C.Next(c, C.Transmit) && Sound(e) && Doomed(e)
    ensures |e.sender.s.unsent| < |c.sender.s.unsent| && e.receiver == c.receiver && e.sender.out == c.sender.out
  {
    C.TakenIsPushed(c.sender);
    assert C.Enabled(c, C.Transmit) by {
      assert C.ReceiverInv(c.sender, c.receiver);
    }
    StepStaysSound(c, C.Transmit);
    hide Sound, R.EndSecured, Low32, Low64;
    e := C.Next(c, C.Transmit);
  }

  /** The segment that carries the first missing byte does not carry the last byte of the stream. */
  lemma LastByteStaysOut(a: Assembly, got: set<nat>, source: seq<Byte>, cuts: set<nat>, i: nat, j: nat)
    requires R.Tracks(a, got, source) && B.FromTheFront(got, cuts) && a.pending != map[]
    requires i <= a.First() < j && forall x :: x in cuts ==> !(i < x < j)
    requires a.reachEnd && !R.EndSecured(a, source)
    ensures |source| > 0 && |source| - 1 !in got + Interval(i, Min(j, a.Limit()))
    ensures a.First() in Interval(i, Min(j, a.Limit()))
  {
    R.GapBeforeEnd(a, got, source);
    var g: nat :| g in a.pending;
    assert g in got && a.First() < g < |source| - 1;
    assert |source| - 1 < j ==> B.Together(a.First(), g, cuts);
  }

  lemma FirstMovesOn(a: Assembly, got: set<nat>, b: Assembly, got': set<nat>, source: seq<Byte>)
    requires R.Tracks(a, got, source) && R.Tracks(b, got', source) && got <= got' && a.First() in got'
    requires b.reachEnd && |source| > 0 && |source| - 1 !in got'
    ensures b.First() > a.First() && !R.EndSecured(b, source)
  {
  }

  lemma MissingTaken(a: Assembly, source: seq<Byte>, cuts: set<nat>, index: U64, data: seq<Byte>, last: bool)
    requires R.Tracks(a, C.Gathered(a), source) && B.FromTheFront(C.Gathered(a), cuts) && R.Consistent(source, index, data, last)
    requires a.pending != map[] && a.reachEnd && !R.EndSecured(a, source)
    requires index <= a.First() < index + |data| && forall x :: x in cuts ==> !(index < x < index + |data|)
    ensures var b := Insert(a, index, data, last);
      && b.First() > a.First() && !R.EndSecured(b, source) && b.reachEnd
      && b.out.closed == (a.out.closed || b.pending == map[])
  {
    var got := C.Gathered(a);
    R.InsertTracks(a, got, source, index, data, last);
    R.InsertFlags(a, index, data, last);
    hide R.EndSecured, Insert, C.Gathered, R.Consistent;
    LastByteStaysOut(a, got, source, cuts, index, index + |data|);
    assert got <= got + R.Delivered(a, index, |data|);
    hide R.Tracks, B.FromTheFront;
    FirstMovesOn(a, got, Insert(a, index, data, last), got + R.Delivered(a, index, |data|), source);
  }

  lemma ArrivalFacts(c: C.System, m: Segment) returns (cuts: set<nat>)
    requires Sound(c) && m in c.segments && c.receiver.isn.Some?
    ensures C.Enabled(c, C.DeliverSegment(m)) && StreamIndex(c.receiver, m) == B.IndexOf(m, c.sender.s.isn)
    ensures R.Consistent(c.sender.out.pushed, StreamIndex(c.receiver, m), m.payload, m.fin)
    ensures R.Tracks(c.receiver.assembly, C.Gathered(c.receiver.assembly), c.sender.out.pushed)
    ensures B.FromTheFront(C.Gathered(c.receiver.assembly), cuts)
    ensures var i := B.IndexOf(m, c.sender.s.isn); m.payload != [] ==> forall x :: x in cuts ==> !(i < x < i + |m.payload|)
  {
    cuts :| B.CutsInv(c, cuts);
    B.SegmentFacts(c.sender, c.receiver, m);
    assert B.Uncut(m, c.sender.s.isn, cuts);
    hide S.Holds, C.AckInv, C.AckedInv, C.WasSent, StreamIndex, B.FromTheFront, C.Gathered, R.Tracks, R.Consistent, B.QueueUncut;
  }

  /** The segment carrying the first missing byte arrives. */
  lemma MissingArrives(c: C.System, m: Segment) returns (d: C.System)
    requires Sound(c) && Doomed(c) && !c.receiver.assembly.out.closed
    requires m in c.segments && B.IndexOf(m, c.sender.s.isn) <= c.receiver.assembly.First() < B.IndexOf(m, c.sender.s.isn) + |m.payload|
    ensures C.Enabled(c, C.DeliverSegment(m)) && d == C.Next(c, C.DeliverSegment(m))
    ensures Sound(d) && Doomed(d) && d.receiver.assembly.First() > c.receiver.assembly.First() && d.sender == c.sender
  {
    hide Sound, R.EndSecured, B.FromTheFront, R.Tracks, R.Consistent, C.Gathered, Insert, StreamIndex;
    var cuts := ArrivalFacts(c, m);
    MissingTaken(c.receiver.assembly, c.sender.out.pushed, cuts, StreamIndex(c.receiver, m), m.payload, m.fin);
    StepStaysSound(c, C.DeliverSegment(m));
    d := C.Next(c, C.DeliverSegment(m));
  }

  /** The first missing byte is in an outstanding segment. */
  lemma MissingIsOutstanding(c: C.System) returns (m: Segment)
    requires Sound(c) && Doomed(c) && !c.receiver.assembly.out.closed && c.sender.s.unsent == []
    ensures m in c.segments
    ensures B.IndexOf(m, c.sender.s.isn) <= c.receiver.assembly.First() < B.IndexOf(m, c.sender.s.isn) + |m.payload|
  {
    hide S.Holds, Sound, Doomed, C.Inv, Wrap32.Wrap, Oldest, SegmentAt;
    var w, i := c.sender, c.receiver.assembly.First();
    NotAllWritten(c);
    SenderIsSound(c);
    C.NextFits(w);
    OldestIsAsked(c);
    var k := C.ByteInQueue(w, i);
    C.SegmentOf(w, k);
    TotalBounds(w, k);
    C.CarriedPlace(w.s, k, i, w.out.pushed[i]);
    m := Outstanding(w.s)[k];
    assert Outstanding(w.s) == w.s.unacked && m in w.s.unacked;
    hide Outstanding, Total;
    PlaceOf(m, Oldest(w.s) + Total(Outstanding(w.s)[..k]), w.s.isn, w.out);
  }

  lemma PlaceOf(m: Segment, lo: nat, isn: U32, out: Stream)
    requires SegmentAt(m, lo, isn, out) && lo < TWO32
    ensures B.IndexOf(m, isn) == lo + Count(m.syn) - 1
  {
    hide Wrap32.Wrap;
    B.IndexIs(m, lo, isn);
  }

  lemma SenderIsSound(c: C.System)
    requires Sound(c) && Doomed(c)
    ensures S.Holds(c.sender) && C.Small(c.sender) && c.sender.out.popped == |c.sender.out.pushed|
    ensures forall m :: m in c.sender.s.unacked ==> m in c.segments
  {
    hide S.Holds, R.EndSecured;
  }

  lemma OldestIsAsked(c: C.System)
    requires Sound(c) && Doomed(c) && !c.receiver.assembly.out.closed
    ensures Oldest(c.sender.s) <= 1 + c.receiver.assembly.First()
  {
    hide S.Holds, C.ReceiverInv, R.EndSecured, Oldest;
  }

  lemma TotalBounds(w: S.World, k: nat)
    requires S.Holds(w) && k < |Outstanding(w.s)| && w.s.nextSeqno < TWO31
    ensures Oldest(w.s) + Total(Outstanding(w.s)[..k]) < TWO32
  {
    hide Tiles, Outstanding, SegmentAt, Counted, TimerInv, WindowInv, Total;
    TileAt(Outstanding(w.s), k, Oldest(w.s), w.s.isn, w.out);
  }

  lemma NotAllWritten(c: C.System)
    requires Sound(c) && Doomed(c)
    ensures c.receiver.assembly.First() < |c.sender.out.pushed|
  {
    hide C.Gathered, S.Holds;
  }

  lemma {:induction false} CloseFollows(c: C.System) returns (d: C.System)
    requires Sound(c) && Doomed(c)
    ensures Leads(c, d) && d.receiver.assembly.out.closed && d.receiver.assembly.First() < |d.sender.out.pushed|
    ensures d.sender.out == c.sender.out
    decreases |c.sender.out.pushed| - c.receiver.assembly.First()
  {
    NotAllWritten(c);
    if c.receiver.assembly.out.closed {
      d := c;
      LeadsNowhere(c);
    } else {
      var e := SendAll(c);
      var m := MissingIsOutstanding(e);
      var f := MissingArrives(e, m);
      hide Sound, Doomed, Leads;
      d := CloseFollows(f);
      LeadsByStep(e, C.DeliverSegment(m), d);
      LeadsThrough(c, e, d);
    }
  }

  lemma {:induction false} LeadsOn(c: C.System, path: seq<C.Step>, mid: C.System, end: C.System)
    requires C.IsRun(c, path, mid) && Leads(mid, end)
    ensures Leads(c, end)
    decreases |path|
  {
    hide C.Enabled, C.Next;
    if path != [] {
      LeadsOn(C.Next(c, path[0]), path[1..], mid, end);
      LeadsByStep(c, path[0], end);
    }
  }

  lemma LeadsThrough(c: C.System, mid: C.System, end: C.System)
    requires Leads(c, mid) && Leads(mid, end)
    ensures Leads(c, end)
  {
    var path :| C.IsRun(c, path, mid);
    LeadsOn(c, path, mid, end);
  }

  /** The condition on FIN is exact. After any run whose FIN segments arrived usable, a FIN that arrives and is
      not usable can be followed by steps that close the inbound stream with bytes missing. (When it is
      usable, `Connection.ClosedMeansComplete` says that the stream is never closed so.) */
  lemma UnusableFinClosesEarly(isn: U32, initialRto: U64, sendCapacity: nat, receiveCapacity: nat, path: seq<C.Step>, c: C.System, m: Segment)
      returns (end: C.System)
    requires C.IsRun(C.Begin(isn, initialRto, sendCapacity, receiveCapacity), path, c)
    requires C.FinsUsable(C.Begin(isn, initialRto, sendCapacity, receiveCapacity), path, c)
    requires C.Enabled(c, C.DeliverSegment(m)) && !C.FinUsable(c, C.DeliverSegment(m))
    ensures Leads(C.Next(c, C.DeliverSegment(m)), end)
    ensures end.receiver.assembly.out.closed && end.receiver.assembly.First() < |end.sender.out.pushed|
    ensures end.sender.out == c.sender.out
  {
    var start := C.Begin(isn, initialRto, sendCapacity, receiveCapacity);
    B.BeginsSound(isn, initialRto, sendCapacity, receiveCapacity);
    assert Sound(start) && C.EndInv(start);
    hide C.IsRun, C.FinsUsable, C.EndInv, B.Sound, C.Inv, InHand;
    RunStaysSound(start, path, c);
    assert C.Inv(start) by { assert B.Sound(start); }
    C.RunKeepsEnd(start, path, c);
    StepStaysSound(c, C.DeliverSegment(m));
    FinDooms(c, m);
    end := CloseFollows(C.Next(c, C.DeliverSegment(m)));
  }

  lemma FinDooms(c: C.System, m: Segment)
    requires C.Inv(c) && C.EndInv(c) && C.Enabled(c, C.DeliverSegment(m)) && !C.FinUsable(c, C.DeliverSegment(m))
    ensures Doomed(C.Next(c, C.DeliverSegment(m)))
  {
    var w, r := c.sender, c.receiver;
    assert C.WasSent(w, m) && m.fin && Isn(r, m).Some?;
    B.SegmentFacts(w, r, m);
    var lo: nat :| C.SentAt(w, m, lo);
    C.PlacedRight(w, r, m, lo);
    C.FinMeansClosed(w);
    assert R.Tracks(r.assembly, C.Gathered(r.assembly), w.out.pushed);
    hide S.Holds, C.WasSent, C.SentAt, C.AckInv, C.AckedInv, R.Tracks, C.Gathered, Insert, StreamIndex, R.EndSecured, R.Consistent, R.LastIsUsable;
    R.EndSecuredIff(r.assembly, C.Gathered(r.assembly), w.out.pushed, StreamIndex(r, m), m.payload);
    R.InsertFlags(r.assembly, StreamIndex(r, m), m.payload, m.fin);
  }
}
