/** Whole runs of the sender with its outbound stream. */
module SenderRuns {
  import opened Words
  import Wrap32
  import opened ByteStreams
  import opened TcpMessages
  import opened SenderModel
  import opened SenderQueues
  import opened SenderInvariant

  /** The sender, the stream it reads, and how many zero-window messages it has received. */
  datatype World = World(s: Sender, out: Stream, zeros: nat)

  datatype Event =
    | Write(data: seq<Byte>) | Finish
    | PushAll | SendOne | Hear(ack: Ack) | Wait(ms: nat)

  /** The order of calls the sender relies on: nothing is written after the close; SYN leaves before data
      is pushed, and queued segments are sent before the next push, acknowledgement or expiry needs them gone. */
  ghost predicate InOrder(w: World, e: Event) {
    w.out.Valid() &&
    match e
    case Write(_) => !w.out.closed
    case Finish => true
    case PushAll => Ready(w.s, w.out)
    case SendOne => true
    case Hear(_) => Again(w.s.unsent) == []
    case Wait(ms) => Expires(w.s, ms) ==> w.s.unacked != [] && w.s.retransmissions < TWO32 - 1
  }

  ghost function After(w: World, e: Event): World
    requires InOrder(w, e)
  {
    match e
    case Write(data) => w.(out := w.out.Push(data))
    case Finish => w.(out := w.out.(closed := true))
    case PushAll => var (s, out) := Push(w.s, w.out); w.(s := s, out := out)
    case SendOne => w.(s := MaybeSend(w.s).0)
    case Hear(ack) => w.(s := Receive(w.s, ack), zeros := w.zeros + Count(ack.windowSize == 0))
    case Wait(ms) => w.(s := Tick(w.s, ms))
  }

  ghost predicate Holds(w: World) {
    Inv(w.s, w.out, w.zeros)
  }

  ghost predicate Fits(w: World) {
    Bounded(w.out, w.zeros)
  }

  lemma StepKeeps(w: World, e: Event)
    requires Holds(w) && InOrder(w, e) && Fits(w) && Fits(After(w, e))
    ensures Holds(After(w, e))
  {
    hide Inv, Tick, Receive, MaybeSend, Push;
    match e
    case Write(data) =>
      assert Inv(w.s, w.out, w.zeros);
      StreamMovesOn(w.s, w.out, w.out.Push(data), w.zeros);
    case Finish =>
      StreamMovesOn(w.s, w.out, w.out.(closed := true), w.zeros);
    case PushAll =>
      PushKeeps(w.s, w.out, w.zeros);
    case SendOne =>
      MaybeSendKeeps(w.s, w.out, w.zeros);
    case Hear(ack) =>
      ReceiveKeeps(w.s, ack, w.out, w.zeros);
    case Wait(ms) =>
      TickKeeps(w.s, w.out, w.zeros, ms);
  }

  /** A run: every call is in order and the sizes stay in bounds. */
  ghost predicate IsRun(w: World, events: seq<Event>, end: World)
    decreases |events|
  {
    if events == [] then end == w
    else InOrder(w, events[0]) && Fits(After(w, events[0])) && IsRun(After(w, events[0]), events[1..], end)
  }

  /** The invariant holds at the end of every run, so in every reachable state. */
  lemma {:induction false} RunKeeps(w: World, events: seq<Event>, end: World)
    requires Holds(w) && Fits(w) && IsRun(w, events, end)
    ensures Holds(end) && Fits(end)
    decreases |events|
  {
    if events != [] {
      StepKeeps(w, events[0]);
      hide Holds, Fits, InOrder, After;
      RunKeeps(After(w, events[0]), events[1..], end);
    }
  }

  function Begin(isn: U32, initialRto: U64, capacity: nat): World {
    World(NewSender(isn, initialRto), Fresh(capacity), 0)
  }

  /** Both queues read as one: consecutive segments, each what the stream says it is, FIN only at the end;
      payloads respect the limit and SYN occurs only at 0 by `SegmentAt`. */
  ghost predicate WellQueued(w: World) {
    var q, lo := Outstanding(w.s), Oldest(w.s);
    && lo >= 0 && lo + Total(q) == w.s.nextSeqno
    && forall i: nat :: i < |q| ==>
         SegmentAt(q[i], lo + Total(q[..i]), w.s.isn, w.out) && (q[i].fin ==> i == |q| - 1)
  }

  lemma QueueIsWell(w: World)
    requires Tiled(w.s, w.out)
    ensures WellQueued(w)
  {
    hide SegmentAt, Total, Outstanding, Tiles;
    TilesInOrder(Outstanding(w.s), Oldest(w.s), w.s.isn, w.out);
  }

  lemma BeginHolds(isn: U32, initialRto: U64, capacity: nat)
    ensures Holds(Begin(isn, initialRto, capacity)) && Fits(Begin(isn, initialRto, capacity))
  {
    hide Inv;
    StartsGood(isn, initialRto, capacity);
  }

  /** Every reachable state: the invariant holds, both queues read as one are well formed, and the number
      reported as in flight is the true one and is bounded. */
  lemma ReachableStates(isn: U32, initialRto: U64, capacity: nat, events: seq<Event>, end: World)
    requires IsRun(Begin(isn, initialRto, capacity), events, end)
    ensures Holds(end) && WellQueued(end)
    ensures end.s.InFlight() == Total(Outstanding(end.s)) <= 0xFFFF + end.zeros
  {
    hide Holds, Fits, Begin, IsRun;
    BeginHolds(isn, initialRto, capacity);
    RunKeeps(Begin(isn, initialRto, capacity), events, end);
    InFlightIsTrue(end);
  }

  lemma InFlightIsTrue(w: World)
    requires Holds(w) && Fits(w)
    ensures WellQueued(w) && w.s.InFlight() == Total(Outstanding(w.s)) <= 0xFFFF + w.zeros
  {
    hide Tiled, TimerInv, TakenInv, Outstanding, Total, Msgs, WellQueued;
    QueueIsWell(w);
    CountersFit(w.s, w.zeros);
  }

  lemma TilesInOrder(q: seq<Segment>, lo: nat, isn: U32, out: Stream)
    requires Tiles(q, lo, isn, out)
    ensures forall i: nat :: i < |q| ==> SegmentAt(q[i], lo + Total(q[..i]), isn, out) && (q[i].fin ==> i == |q| - 1)
  {
    hide SegmentAt, Tiles, Total;
    forall i: nat | i < |q|
      ensures SegmentAt(q[i], lo + Total(q[..i]), isn, out)
      ensures q[i].fin ==> i == |q| - 1
    {
      TileAt(q, i, lo, isn, out);
      if i + 1 < |q| {
        NoFinBeforeAnother(q, i, lo, isn, out);
      }
    }
  }

  lemma NoFinBeforeAnother(q: seq<Segment>, i: nat, lo: nat, isn: U32, out: Stream)
    requires Tiles(q, lo, isn, out) && i + 1 < |q|
    ensures !q[i].fin
  {
    TileAt(q, i, lo, isn, out);
    TileAt(q, i + 1, lo, isn, out);
    assert q[..i + 1] == q[..i] + [q[i]];
    TotalOfSum(q[..i], [q[i]]);
    TotalOfOne(q[i]);
  }

  // ----- when the timer fires -----

  /** The two calls that restart a running timer: an expiry, and an acknowledgement of something new. */
  ghost predicate Restarts(w: World, e: Event) {
    (e.Hear? && |Receive(w.s, e.ack).unacked| < |w.s.unacked|) || (e.Wait? && Expires(w.s, e.ms))
  }

  ghost predicate Undisturbed(w: World, events: seq<Event>)
    decreases |events|
  {
    events == [] || (InOrder(w, events[0]) && !Restarts(w, events[0]) && Undisturbed(After(w, events[0]), events[1..]))
  }

  function Waited(events: seq<Event>): nat {
    if events == [] then 0 else (if events[0].Wait? then events[0].ms else 0) + Waited(events[1..])
  }

  lemma {:induction false} CutAllKeepsTimer(s: Sender, out: Stream)
    requires out.Valid()
    ensures CutAll(s, out).0.timer == s.timer
    decreases |out.View()|
  {
    hide NextSegment;
    if out.View() != [] && s.MaySend() {
      CutAllKeepsTimer(Cut(s, out).0, Cut(s, out).1);
    }
  }

  lemma StaleAckKeepsTimer(s: Sender, ack: Ack)
    requires |Receive(s, ack).unacked| == |s.unacked|
    ensures Receive(s, ack).timer == s.timer
  {
    hide Wrap32.Unwrap, AckedCount, Total, Low32;
  }

  lemma AckOnlyDrops(s: Sender, ack: Ack)
    ensures |Receive(s, ack).unacked| <= |s.unacked|
  {
    hide Wrap32.Unwrap, AckedCount, Total, Low32;
  }

  /** Whatever is written, pushed, sent or heard, only a wait moves a running timer that nothing restarts. */
  lemma StepCountsDown(w: World, e: Event)
    requires w.s.timer.isOn && InOrder(w, e) && !Restarts(w, e)
    ensures Waited([e]) <= w.s.timer.timeout
    ensures After(w, e).s.timer == w.s.timer.(timeout := w.s.timer.timeout - Waited([e]))
  {
    hide Low32, Low64, Wrap32.Wrap, Receive, CutAll;
    assert [e][1..] == [];
    match e
    case PushAll => CutAllKeepsTimer(w.s, w.out);
    case Hear(ack) => AckOnlyDrops(w.s, ack); StaleAckKeepsTimer(w.s, ack);
    case Write(_) =>
    case Finish =>
    case SendOne =>
    case Wait(_) =>
  }

  /** A restart gives the timer its full timeout. */
  lemma RestartIsFull(w: World, e: Event)
    requires InOrder(w, e) && Restarts(w, e) && After(w, e).s.timer.isOn
    ensures After(w, e).s.timer.timeout == After(w, e).s.timer.rto
  {
    hide Low32, Low64, Wrap32.Unwrap, AckedCount, Total;
  }

  /** Over every run, whatever is written, pushed, sent or heard between the waits: while nothing restarts the
      timer, its timeout is the one it started from less the time waited, so it expires with the wait that
      completes it and with none before; and then the oldest segment goes first into the unsent queue. */
  lemma {:induction false} RetransmitsWhenDue(w: World, events: seq<Event>, end: World, last: nat)
    requires w.s.timer.isOn && IsRun(w, events, end) && Undisturbed(w, events)
    ensures Waited(events) <= w.s.timer.timeout
    ensures end.s.timer == w.s.timer.(timeout := w.s.timer.timeout - Waited(events))
    ensures Expires(end.s, last) <==> w.s.timer.timeout <= Waited(events) + last
    ensures Expires(end.s, last) && end.s.unacked != [] ==>
      var t := Tick(end.s, last);
      && t.unsent == [Queued(end.s.unacked[0], true)] + end.s.unsent && t.unacked == end.s.unacked[1..]
      && t.timer.isOn && t.timer.timeout == t.timer.rto
      && t.timer.rto == if end.s.window == 0 then w.s.timer.rto else Low64(w.s.timer.rto * 2)
    decreases |events|
  {
    hide Low32, Low64, After, InOrder, Fits, Restarts;
    if events != [] {
      StepCountsDown(w, events[0]);
      assert [events[0]][1..] == [];
      RetransmitsWhenDue(After(w, events[0]), events[1..], end, last);
    }
  }
}
