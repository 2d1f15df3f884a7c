/** Where the sender cut its stream, as the receiver sees it: two segments ever sent carry the same stretch of
    the stream or disjoint ones, so an arriving segment never covers a byte that is already held. Every
    segment of every run may therefore be handed to the reassembler, whatever its capacity. */
module Boundaries {
  import opened Words
  import Wrap32
  import opened ByteStreams
  import opened Bitmaps
  import opened Reassembly
  import opened Reassemblers
  import R = ReassemblyRuns
  import opened TcpMessages
  import opened TcpReceivers
  import opened SenderModel
  import opened SenderQueues
  import opened SenderInvariant
  import S = SenderRuns
  import C = Connection

  /** The stream index of a segment's payload, for sequence numbers below 2^32. */
  function IndexOf(m: Segment, isn: U32): int {
    if m.syn then 0 else Low32(m.seqno - isn) - 1
  }

  lemma IndexIs(m: Segment, lo: nat, isn: U32)
    requires lo < TWO32 && m.seqno == Wrap32.Wrap(lo, isn) && (m.syn <==> lo == 0)
    ensures IndexOf(m, isn) == if m.syn then 0 else lo - 1
  {
    assert Low32(lo) == lo;
    var k := (isn + lo) / 0x1_0000_0000;
    assert m.seqno == isn + lo - k * 0x1_0000_0000;
    Low32Is(m.seqno - isn, lo, -k);
  }

  /** The payload starts at a cut and no cut lies inside it. */
  ghost predicate Uncut(m: Segment, isn: U32, cuts: set<nat>) {
    m.payload != [] ==>
      var i := IndexOf(m, isn);
      i >= 0 && i in cuts && forall x :: x in cuts ==> !(i < x < i + |m.payload|)
  }

  /** No cut separates `h` from `k`. */
  ghost predicate Together(h: nat, k: nat, cuts: set<nat>) {
    forall x :: x in cuts ==> !(h < x <= k)
  }

  /** Between two cuts the bytes are gathered from the front. */
  ghost predicate FromTheFront(got: set<nat>, cuts: set<nat>) {
    forall h: nat, k: nat :: k in got && h < k && Together(h, k, cuts) ==> h in got
  }

  ghost predicate QueueUncut(s: Sender, cuts: set<nat>) {
    forall m :: m in Outstanding(s) ==> Uncut(m, s.isn, cuts)
  }

  ghost predicate CutsInv(c: C.System, cuts: set<nat>) {
    && (forall x :: x in cuts ==> x <= c.sender.out.popped)
    && (forall m :: m in c.segments ==> Uncut(m, c.sender.s.isn, cuts))
    && QueueUncut(c.sender.s, cuts)
    && FromTheFront(C.Gathered(c.receiver.assembly), cuts)
  }

  // ----- a segment arrives -----

  lemma ArrivalFromTheFront(got: set<nat>, cuts: set<nat>, i: nat, j: nat)
    requires FromTheFront(got, cuts)
    requires i < j ==> i in cuts && forall x :: x in cuts ==> !(i < x < j)
    ensures FromTheFront(got + Interval(i, j), cuts)
  {
    forall h: nat, k: nat | k in got + Interval(i, j) && h < k && Together(h, k, cuts)
      ensures h in got + Interval(i, j)
    {
      if k !in got {
        assert i <= k < j && i in cuts;
      }
    }
  }

  lemma SegmentFacts(w: S.World, r: Receiver, m: Segment)
    requires S.Holds(w) && C.Small(w) && C.ReceiverInv(w, r) && C.WasSent(w, m) && Isn(r, m).Some?
    ensures StreamIndex(r, m) == IndexOf(m, w.s.isn) && |m.payload| <= MAX_PAYLOAD_SIZE
    ensures R.Consistent(w.out.pushed, StreamIndex(r, m), m.payload, m.fin)
  {
    var lo: nat :| C.SentAt(w, m, lo);
    C.PlacedRight(w, r, m, lo);
    C.SentFacts(w, m, lo);
    hide S.Holds, C.ReceiverInv, Wrap32.Wrap, StreamIndex, R.Consistent;
    IndexIs(m, lo, w.s.isn);
  }

  lemma ArrivalKeepsFront(c: C.System, m: Segment, cuts: set<nat>)
    requires C.Inv(c) && m in c.segments && CutsInv(c, cuts)
    ensures FromTheFront(C.Gathered(Received(c.receiver, m).assembly), cuts)
  {
    hide S.Holds, C.AckInv, C.AckedInv, C.WasSent, FromTheFront, StreamIndex, C.Gathered, Insert, QueueUncut, R.Tracks, R.Consistent;
    var r := c.receiver;
    if Isn(r, m).Some? {
      SegmentFacts(c.sender, r, m);
      var a, index := r.assembly, StreamIndex(r, m);
      C.InsertGathers(a, c.sender.out.pushed, index, m.payload, m.fin);
      assert Uncut(m, c.sender.s.isn, cuts);
      ArrivalFromTheFront(C.Gathered(a), cuts, index, Max(index, Min(index + |m.payload|, a.Limit())));
      SameInterval(index, Min(index + |m.payload|, a.Limit()));
    }
  }

  lemma SameInterval(i: nat, j: nat)
    ensures Interval(i, j) == Interval(i, Max(i, j))
  {
  }

  /** A segment that reaches the first unassembled index covers no held byte. */
  lemma CoversNothingHeld(a: Assembly, got: set<nat>, source: seq<Byte>, cuts: set<nat>, i: nat, j: nat)
    requires R.Tracks(a, got, source) && FromTheFront(got, cuts) && i <= a.First()
    requires forall x :: x in cuts ==> !(i < x < j)
    ensures a.pending.Keys !! Interval(a.First(), j)
  {
    forall g | g in a.pending.Keys
      ensures g !in Interval(a.First(), j)
    {
      if g < j {
        assert Together(a.First(), g, cuts);
        assert g in got;
      }
    }
  }

  lemma ManageableIfNothingHeld(a: Assembly, index: U64, data: seq<Byte>)
    requires a.Valid() && index + |data| < TWO64 && |data| < TWO31 && a.Limit() + a.out.capacity < TWO64 / 2
    requires index <= a.First() ==> a.pending.Keys !! Interval(a.First(), index + |data|)
    ensures Manageable(a, index, data)
  {
    hide WrapsInOneBlock;
    assert Low64(index + |data|) == index + |data|;
  }

  /** In every state of the connection, whatever the receiver's capacity, the ring and bitmap can take any
      segment that arrives. */
  lemma ArrivalIsHandled(c: C.System, m: Segment, cuts: set<nat>)
    requires C.Inv(c) && CutsInv(c, cuts) && m in c.segments && c.receiver.assembly.out.capacity < TWO64 / 8
    ensures Handled(c.receiver, Arrives(m))
  {
    var r := c.receiver;
    if Isn(r, m).Some? {
      SegmentFacts(c.sender, r, m);
      C.FirstIsTaken(c.sender, r);
      C.TakenIsPushed(c.sender);
      C.ReadIsWritten(c.sender, r);
      var a, index := r.assembly, StreamIndex(r, m);
      assert Uncut(m, c.sender.s.isn, cuts) && |c.sender.out.pushed| < TWO31 && R.Tracks(a, C.Gathered(a), c.sender.out.pushed);
      hide C.Inv, StreamIndex, FromTheFront, C.Gathered, R.Tracks, Manageable, QueueUncut;
      if m.payload == [] {
        assert Interval(a.First(), index) == {} || index > a.First();
      } else if index <= a.First() {
        CoversNothingHeld(a, C.Gathered(a), c.sender.out.pushed, cuts, index, index + |m.payload|);
      }
      ManageableIfNothingHeld(a, index, m.payload);
    }
  }

  // ----- the sender cuts -----

  lemma QueueingOutstanding(s: Sender, t: Sender, m: Segment)
    requires forall q :: q in s.unsent ==> !q.retransmitted
    requires t.unsent == s.unsent + [Queued(m, false)] && t.unacked == s.unacked
    ensures Outstanding(t) == Outstanding(s) + [m]
  {
    AllNew(s.unsent);
    AllNew(t.unsent);
    assert Msgs(t.unsent) == Msgs(s.unsent) + [m];
  }

  /** Outstanding segments end where the sender has read to, at the latest. */
  lemma OutstandingEnds(s: Sender, out: Stream, m: Segment)
    requires Tiled(s, out) && m in Outstanding(s) && s.nextSeqno < TWO31
    ensures m.payload != [] ==> 0 <= IndexOf(m, s.isn) && IndexOf(m, s.isn) + |m.payload| <= out.popped
  {
    var q := Outstanding(s);
    var i :| 0 <= i < |q| && q[i] == m;
    hide Outstanding, Total, Tiles;
    TileAt(q, i, Oldest(s), s.isn, out);
    hide Wrap32.Wrap;
    IndexIs(m, Oldest(s) + Total(q[..i]), s.isn);
  }

  lemma StaysUncut(m: Segment, isn: U32, cuts: set<nat>, more: set<nat>, end: nat)
    requires Uncut(m, isn, cuts) && cuts <= more && (m.payload != [] ==> IndexOf(m, isn) + |m.payload| <= end)
    requires forall x :: x in more && x !in cuts ==> x >= end
    ensures Uncut(m, isn, more)
  {
  }

  lemma CutUncut(s: Sender, out: Stream, zeros: nat, cuts: set<nat>)
    requires Inv(s, out, zeros) && Bounded(out, zeros) && Ready(s, out) && out.View() != [] && s.MaySend() && s.nextSeqno < TWO31
    requires (forall x :: x in cuts ==> x <= out.popped) && QueueUncut(s, cuts)
    ensures QueueUncut(Cut(s, out).0, cuts + {out.popped})
  {
    CutShape(s, out, zeros);
    NextSegmentFits(s, out);
    var t, m := Cut(s, out).0, NextSegment(s, out);
    QueueingOutstanding(s, t, m);
    assert s.nextSeqno == 1 + out.popped && m.seqno == Wrap32.Wrap(s.nextSeqno, s.isn);
    hide Cut, NextSegment, Outstanding, Wrap32.Wrap, TimerInv, WindowInv, Counted, Tiled, Ready;
    IndexIs(m, s.nextSeqno, s.isn);
    forall q | q in Outstanding(t)
      ensures Uncut(q, s.isn, cuts + {out.popped})
    {
      if q in Outstanding(s) {
        OutstandingEnds(s, out, q);
        StaysUncut(q, s.isn, cuts, cuts + {out.popped}, out.popped);
      } else {
        assert q == m;
      }
    }
  }

  lemma {:induction false} CutAllUncut(s: Sender, out: Stream, zeros: nat, cuts: set<nat>) returns (more: set<nat>)
    requires Inv(s, out, zeros) && Bounded(out, zeros) && Ready(s, out) && |out.pushed| + 2 < TWO31
    requires (forall x :: x in cuts ==> x <= out.popped) && QueueUncut(s, cuts)
    ensures cuts <= more && (forall x :: x in more && x !in cuts ==> x >= out.popped)
    ensures (forall x :: x in more ==> x <= CutAll(s, out).1.popped) && QueueUncut(CutAll(s, out).0, more)
    decreases |out.View()|
  {
    if out.View() != [] && s.MaySend() {
      CutKeeps(s, out, zeros);
      NextIsSmall(s, out, zeros);
      CutUncut(s, out, zeros, cuts);
      hide Inv, Bounded, Ready, QueueUncut;
      more := CutAllUncut(Cut(s, out).0, Cut(s, out).1, zeros, cuts + {out.popped});
    } else {
      more := cuts;
    }
  }

  lemma NextIsSmall(s: Sender, out: Stream, zeros: nat)
    requires Inv(s, out, zeros) && |out.pushed| + 2 < TWO31
    ensures s.nextSeqno < TWO31
  {
    hide Tiled, Counted, TimerInv, WindowInv;
  }

  /** Attaching FIN changes no segment's place or payload. */
  lemma FinKeepsPayloads(s: Sender, finished: bool)
    requires forall q :: q in s.unsent ==> !q.retransmitted
    ensures var a, b := Outstanding(s), Outstanding(AttachFin(s, finished));
      |a| == |b| && forall i :: 0 <= i < |a| ==> a[i].(fin := false) == b[i].(fin := false)
  {
    hide Again, New, Low32, Low64, AttachFin, Msgs;
    var t := AttachFin(s, finished);
    FinChangesLast(s, finished);
    AllNew(s.unsent);
    AllNew(t.unsent);
    SameButFin(s.unsent, t.unsent);
    assert Outstanding(s) == s.unacked + Msgs(s.unsent) && Outstanding(t) == s.unacked + Msgs(t.unsent);
  }

  lemma FinChangesLast(s: Sender, finished: bool)
    requires forall q :: q in s.unsent ==> !q.retransmitted
    ensures var t := AttachFin(s, finished);
      && t.unacked == s.unacked && |t.unsent| == |s.unsent|
      && (forall i :: 0 <= i < |s.unsent| ==> s.unsent[i].msg.(fin := false) == t.unsent[i].msg.(fin := false))
      && (forall q :: q in t.unsent ==> !q.retransmitted)
  {
    hide Low32, Low64;
    var t := AttachFin(s, finished);
    forall q | q in t.unsent
      ensures !q.retransmitted
    {
      var i :| 0 <= i < |t.unsent| && t.unsent[i] == q;
      assert s.unsent[i] in s.unsent;
    }
  }

  lemma SameButFin(u: seq<Queued>, v: seq<Queued>)
    requires |u| == |v| && forall i :: 0 <= i < |u| ==> u[i].msg.(fin := false) == v[i].msg.(fin := false)
    ensures |Msgs(u)| == |Msgs(v)| == |u| && forall i :: 0 <= i < |u| ==> Msgs(u)[i].(fin := false) == Msgs(v)[i].(fin := false)
  {
  }

  lemma FinStaysUncut(s: Sender, out: Stream, cuts: set<nat>)
    requires out.Valid() && Ready(s, out) && QueueUncut(s, cuts)
    ensures QueueUncut(AttachFin(s, out.IsFinished()), cuts)
  {
    var t := AttachFin(s, out.IsFinished());
    FinKeepsPayloads(s, out.IsFinished());
    assert t.isn == s.isn;
    hide AttachFin, Outstanding;
    forall m | m in Outstanding(t)
      ensures Uncut(m, s.isn, cuts)
    {
      var i :| 0 <= i < |Outstanding(t)| && Outstanding(t)[i] == m;
      assert Outstanding(s)[i] in Outstanding(s);
      SamePayloadSameCuts(Outstanding(s)[i], m, s.isn, cuts);
    }
  }

  lemma SamePayloadSameCuts(a: Segment, b: Segment, isn: U32, cuts: set<nat>)
    requires a.(fin := false) == b.(fin := false) && Uncut(a, isn, cuts)
    ensures Uncut(b, isn, cuts)
  {
    assert b == a.(fin := b.fin);
  }

  lemma PushUncut(s: Sender, out: Stream, zeros: nat, cuts: set<nat>) returns (more: set<nat>)
    requires Inv(s, out, zeros) && Bounded(out, zeros) && Ready(s, out) && |out.pushed| + 2 < TWO31
    requires (forall x :: x in cuts ==> x <= out.popped) && QueueUncut(s, cuts)
    ensures cuts <= more && (forall x :: x in more && x !in cuts ==> x >= out.popped)
    ensures (forall x :: x in more ==> x <= Push(s, out).1.popped) && QueueUncut(Push(s, out).0, more)
  {
    more := CutAllUncut(s, out, zeros, cuts);
    CutAllKeeps(s, out, zeros);
    hide Inv, Bounded, Ready, QueueUncut, CutAll, AttachFin;
    FinStaysUncut(CutAll(s, out).0, CutAll(s, out).1, more);
  }

  // ----- every step -----

  /** Every other call leaves no segment in the queues that was not there, but a bare SYN or FIN. */
  lemma NothingNewQueued(w: S.World, e: S.Event, m: Segment)
    requires S.Holds(w) && S.InOrder(w, e) && S.Fits(w) && !e.PushAll?
    requires m in Outstanding(S.After(w, e).s)
    ensures m in Outstanding(w.s) || m.payload == []
  {
    match e
    case Write(_) =>
    case Finish =>
    case SendOne => SentFromQueue(w, m);
    case Hear(ack) => HeardFromQueue(w.s, ack, m);
    case Wait(ms) => WaitedInQueue(w, ms, m);
    case PushAll =>
  }

  lemma SentFromQueue(w: S.World, m: Segment)
    requires S.Holds(w) && S.Fits(w) && m in Outstanding(MaybeSend(w.s).0)
    ensures m in Outstanding(w.s) || m.payload == []
  {
    if w.s.unsent == [] {
      hide Wrap32.Wrap, Low32, Low64;
    } else {
      SendFirstFacts(w.s, w.out, w.zeros);
      SendFirstShape(w.s);
      hide Outstanding, SendFirst;
    }
  }

  lemma HeardFromQueue(s: Sender, ack: Ack, m: Segment)
    requires Again(s.unsent) == [] && m in Outstanding(Receive(s, ack))
    ensures m in Outstanding(s)
  {
    hide Wrap32.Unwrap, AckedCount, Total, Low32;
  }

  lemma WaitedInQueue(w: S.World, ms: nat, m: Segment)
    requires S.Holds(w) && S.InOrder(w, S.Wait(ms)) && m in Outstanding(Tick(w.s, ms))
    ensures m in Outstanding(w.s)
  {
    TickShape(w.s, w.out, w.zeros, ms);
    if !Expires(w.s, ms) {
      SameQueue(w.s, Tick(w.s, ms), w.out);
    }
    hide Outstanding, Tick;
  }

  lemma SenderStepCuts(c: C.System, e: S.Event, cuts: set<nat>) returns (more: set<nat>)
    requires C.Inv(c) && CutsInv(c, cuts) && S.InOrder(c.sender, e) && (e.SendOne? || C.Small(S.After(c.sender, e)))
    ensures CutsInv(c.(sender := S.After(c.sender, e)), more)
    ensures forall x :: x in more && x !in cuts ==> x >= c.sender.out.popped
    ensures cuts <= more
  {
    var w, v := c.sender, S.After(c.sender, e);
    C.FlagsOnlyFall(w, e);
    C.OutMovesOn(w, e);
    if e.PushAll? {
      more := PushUncut(w.s, w.out, w.zeros, cuts);
    } else {
      more := cuts;
      forall m | m in Outstanding(v.s)
        ensures Uncut(m, v.s.isn, cuts)
      {
        NothingNewQueued(w, e, m);
      }
    }
    hide Outstanding, S.Holds, S.After, Uncut, Together;
    forall m | m in c.segments
      ensures Uncut(m, v.s.isn, more)
    {
      SentEnds(w, m);
      StaysUncut(m, w.s.isn, cuts, more, w.out.popped);
    }
    MoreCuts(C.Gathered(c.receiver.assembly), cuts, more);
  }

  lemma MoreCuts(got: set<nat>, cuts: set<nat>, more: set<nat>)
    requires FromTheFront(got, cuts) && cuts <= more
    ensures FromTheFront(got, more)
  {
    forall h: nat, k: nat | k in got && h < k && Together(h, k, more)
      ensures h in got
    {
      assert Together(h, k, cuts);
    }
  }

  lemma SentEnds(w: S.World, m: Segment)
    requires S.Holds(w) && C.Small(w) && C.WasSent(w, m)
    ensures m.payload != [] ==> IndexOf(m, w.s.isn) + |m.payload| <= w.out.popped
  {
    var lo: nat :| C.SentAt(w, m, lo);
    C.SentFacts(w, m, lo);
    hide S.Holds, Wrap32.Wrap;
    IndexIs(m, lo, w.s.isn);
  }

  /** What is transmitted was queued, or carries no payload. */
  lemma TransmittedUncut(c: C.System, cuts: set<nat>)
    requires C.Inv(c) && CutsInv(c, cuts) && MaybeSend(c.sender.s).1.Some?
    ensures Uncut(MaybeSend(c.sender.s).1.value, c.sender.s.isn, cuts)
  {
    var s := c.sender.s;
    if s.unsent != [] {
      SendFirstFacts(s, c.sender.out, c.sender.zeros);
      SendFirstShape(s);
      FirstIsOutstanding(s.unsent, s.unacked);
      assert s.unsent[0].msg in Outstanding(s);
      hide Outstanding, SendFirst, Uncut;
    } else {
      hide Wrap32.Wrap, Low32, Low64;
    }
  }

  lemma FirstIsOutstanding(u: seq<Queued>, unacked: seq<Segment>)
    requires u != []
    ensures u[0].msg in Again(u) + unacked + New(u)
  {
    if u[0].retransmitted {
      assert Again(u)[|Again(u)| - 1] == u[0].msg;
      assert u[0].msg in Again(u);
    } else {
      assert New(u)[0] == u[0].msg;
      assert u[0].msg in New(u);
    }
  }

  lemma StepKeepsCuts(c: C.System, step: C.Step, cuts: set<nat>) returns (more: set<nat>)
    requires C.Inv(c) && CutsInv(c, cuts) && C.Enabled(c, step)
    ensures CutsInv(C.Next(c, step), more)
  {
    more := cuts;
    match step
    case Local(e) =>
      more := SenderStepCuts(c, e, cuts);
    case Transmit =>
      more := SenderStepCuts(c, S.SendOne, cuts);
      TransmitKeepsCuts(c, cuts, more);
    case DeliverSegment(m) =>
      ArrivalKeepsFront(c, m, cuts);
      hide C.Inv, FromTheFront, QueueUncut, Uncut, Received;
    case SendAck =>
      hide C.Inv, FromTheFront, QueueUncut, Uncut, Acknowledge;
    case DeliverAck(a) =>
      more := SenderStepCuts(c, S.Hear(a), cuts);
      hide C.Inv, FromTheFront, QueueUncut, Uncut, S.After;
    case ReadInbound(len) =>
      hide C.Inv, FromTheFront, QueueUncut, Uncut;
      assert C.Gathered(Read(c.receiver, len).assembly) == C.Gathered(c.receiver.assembly);
  }

  lemma TransmitKeepsCuts(c: C.System, cuts: set<nat>, more: set<nat>)
    requires C.Inv(c) && CutsInv(c, cuts) && C.Enabled(c, C.Transmit)
    requires CutsInv(c.(sender := S.After(c.sender, S.SendOne)), more) && cuts <= more
    requires forall x :: x in more && x !in cuts ==> x >= c.sender.out.popped
    ensures CutsInv(C.Next(c, C.Transmit), more)
  {
    var sent := MaybeSend(c.sender.s).1;
    if sent.Some? {
      TransmittedUncut(c, cuts);
      SentInTime(c);
      C.FlagsOnlyFall(c.sender, S.SendOne);
      hide C.Inv, FromTheFront, QueueUncut, MaybeSend, Uncut;
      StaysUncut(sent.value, c.sender.s.isn, cuts, more, c.sender.out.popped);
    } else {
      hide C.Inv, FromTheFront, QueueUncut, MaybeSend, Uncut;
      assert c.segments + {} == c.segments;
    }
  }

  lemma SentInTime(c: C.System)
    requires C.Inv(c) && MaybeSend(c.sender.s).1.Some?
    ensures var m := MaybeSend(c.sender.s).1.value;
      m.payload != [] ==> IndexOf(m, c.sender.s.isn) + |m.payload| <= c.sender.out.popped
  {
    C.TransmittedWasSent(c.sender);
    C.SenderAdvances(c.sender, S.SendOne);
    var v := S.After(c.sender, S.SendOne);
    assert v.out == c.sender.out;
    hide S.Holds, MaybeSend, Wrap32.Wrap;
    SentEnds(v, MaybeSend(c.sender.s).1.value);
  }

  ghost predicate Sound(c: C.System) {
    C.Inv(c) && exists cuts :: CutsInv(c, cuts)
  }

  lemma StepStaysSound(c: C.System, step: C.Step)
    requires Sound(c) && C.Enabled(c, step)
    ensures Sound(C.Next(c, step))
  {
    var cuts :| CutsInv(c, cuts);
    C.StepKeeps(c, step);
    var more := StepKeepsCuts(c, step, cuts);
    hide C.Inv, C.Next, CutsInv;
  }

  lemma {:induction false} RunStaysSound(c: C.System, path: seq<C.Step>, end: C.System)
    requires Sound(c) && C.IsRun(c, path, end)
    ensures Sound(end)
    decreases |path|
  {
    if path != [] {
      StepStaysSound(c, path[0]);
      hide Sound, C.Enabled, C.Next;
      RunStaysSound(C.Next(c, path[0]), path[1..], end);
    }
  }

  lemma BeginsSound(isn: U32, initialRto: U64, sendCapacity: nat, receiveCapacity: nat)
    ensures Sound(C.Begin(isn, initialRto, sendCapacity, receiveCapacity))
  {
    C.BeginsGood(isn, initialRto, sendCapacity, receiveCapacity);
    var c := C.Begin(isn, initialRto, sendCapacity, receiveCapacity);
    hide C.Inv;
    assert Outstanding(c.sender.s) == [];
    assert C.Gathered(c.receiver.assembly) == {};
    assert CutsInv(c, {});
  }

  lemma {:induction false} CapacityStays(c: C.System, path: seq<C.Step>, end: C.System)
    requires C.IsRun(c, path, end)
    ensures end.receiver.assembly.out.capacity == c.receiver.assembly.out.capacity
    decreases |path|
  {
    if path != [] {
      CapacityStays(C.Next(c, path[0]), path[1..], end);
      hide Insert, MaybeSend, Acknowledge;
    }
  }

  /** Over every run and for every receive capacity: whatever segment can arrive next may be handed to the
      receiver's ring and bitmap. */
  lemma ArrivalsAreHandled(isn: U32, initialRto: U64, sendCapacity: nat, receiveCapacity: nat, path: seq<C.Step>, end: C.System, m: Segment)
    requires C.IsRun(C.Begin(isn, initialRto, sendCapacity, receiveCapacity), path, end)
    requires receiveCapacity < TWO64 / 8 && m in end.segments
    ensures end.receiver.Valid() && Handled(end.receiver, Arrives(m))
  {
    var start := C.Begin(isn, initialRto, sendCapacity, receiveCapacity);
    BeginsSound(isn, initialRto, sendCapacity, receiveCapacity);
    hide C.IsRun;
    RunStaysSound(start, path, end);
    CapacityStays(start, path, end);
    var cuts :| CutsInv(end, cuts);
    ArrivalIsHandled(end, m, cuts);
  }
}
