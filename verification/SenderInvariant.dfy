/** What every step of the sender keeps. */
module SenderInvariant {
  import opened Words
  import Wrap32
  import opened ByteStreams
  import opened TcpMessages
  import opened SenderModel
  import opened SenderQueues

  /** The absolute sequence number of the oldest outstanding segment. */
  function Oldest(s: Sender): int {
    s.nextSeqno - Total(Outstanding(s))
  }

  /** The two queues tile the sequence space from the oldest outstanding number up to the next one. */
  ghost predicate Tiled(s: Sender, out: Stream) {
    AgainFirst(s.unsent) && Oldest(s) >= 0 && Tiles(Outstanding(s), Oldest(s), s.isn, out)
  }

  /** Both counters are sums of segment lengths. */
  ghost predicate Counted(s: Sender) {
    s.unackedSeqnos == Total(s.unacked) && s.unsentSeqnos == Total(Msgs(s.unsent))
  }

  /** The next number says how much has been taken from the stream; FIN is used up only at its end. */
  ghost predicate TakenInv(s: Sender, out: Stream) {
    && s.nextSeqno == Count(!s.synUnsent) + out.popped + Count(!s.finUnsent)
    && (s.synUnsent ==> s.finUnsent && out.popped == 0 && s.unsent == [] && s.unacked == [])
    && (s.streamFinished || !s.finUnsent ==> out.closed && out.popped == |out.pushed|)
  }

  /** In flight: never more than the largest window plus one per zero-window message received. */
  ghost predicate WindowInv(s: Sender, zeros: nat) {
    && Total(Outstanding(s)) + Count(s.probe) <= 0xFFFF + zeros
    && (s.probe ==> s.window == 0)
  }

  function Pow2(n: nat): nat {
    if n == 0 then 1 else 2 * Pow2(n - 1)
  }

  /** The timer runs exactly while something has been sent and not acknowledged; the timeout has been
      doubled once per consecutive retransmission (in 64 bits); what remains lies between zero and it. */
  ghost predicate TimerInv(s: Sender) {
    && (s.timer.isOn <==> s.unacked != [] || Again(s.unsent) != [])
    && s.timer.rto == Low64(s.timer.initialRto * Pow2(s.retransmissions))
    && (s.timer.isOn ==> s.timer.timeout <= s.timer.rto && (s.timer.rto > 0 ==> s.timer.timeout > 0))
  }

  ghost predicate Inv(s: Sender, out: Stream, zeros: nat) {
    out.Valid() && Tiled(s, out) && Counted(s) && TakenInv(s, out) && WindowInv(s, zeros) && TimerInv(s)
  }

  /** The sizes for which no counter wraps around. */
  ghost predicate Bounded(out: Stream, zeros: nat) {
    |out.pushed| < TWO64 / 2 && zeros < TWO31 - TWO16
  }

  lemma StartsGood(isn: U32, initialRto: U64, capacity: nat)
    ensures Inv(NewSender(isn, initialRto), Fresh(capacity), 0)
  {
    StartsTiming(initialRto);
    hide Low64, Pow2;
    var s := NewSender(isn, initialRto);
    assert Outstanding(s) == [] && Msgs(s.unsent) == [];
    assert TimerInv(s);
  }

  lemma StartsTiming(initialRto: U64)
    ensures Low64(initialRto * Pow2(0)) == initialRto
  {
    assert initialRto * Pow2(0) == initialRto;
  }

  // ----- the stream moves on by itself -----

  lemma StreamMovesOn(s: Sender, a: Stream, b: Stream, zeros: nat)
    requires Inv(s, a, zeros) && MovedOn(a, b) && a.popped == b.popped
    ensures Inv(s, b, zeros)
  {
    hide Tiles, Outstanding, TimerInv;
    TilesStay(Outstanding(s), Oldest(s), s.isn, a, b);
  }

  // ----- helpers -----

  lemma Low32Exact(x: int)
    requires 0 <= x < TWO32
    ensures Low32(x) == x
  {
  }

  /** The queue looks only at the two deques, the next sequence number and the initial one. */
  lemma SameQueue(s: Sender, t: Sender, out: Stream)
    requires s.unsent == t.unsent && s.unacked == t.unacked && s.nextSeqno == t.nextSeqno && s.isn == t.isn
    ensures Outstanding(s) == Outstanding(t) && Oldest(s) == Oldest(t)
    ensures Tiled(s, out) <==> Tiled(t, out)
  {
  }

  /** The counters never wrap: together they are what is outstanding. */
  lemma CountersFit(s: Sender, zeros: nat)
    requires Counted(s) && WindowInv(s, zeros) && zeros < TWO31 - TWO16
    ensures Total(Outstanding(s)) == s.unackedSeqnos + s.unsentSeqnos == s.InFlight() < TWO31
  {
    hide Outstanding, Total, Msgs;
    OutstandingTotal(s);
  }

  // ----- maybe_send -----

  lemma MsgsOfFirst(u: seq<Queued>)
    requires u != []
    ensures Msgs(u) == [u[0].msg] + Msgs(u[1..])
    ensures Total(Msgs(u)) == u[0].msg.Length() + Total(Msgs(u[1..]))
  {
    assert Msgs(u) == [u[0].msg] + Msgs(u[1..]);
    TotalOfOne(u[0].msg);
    TotalOfSum([u[0].msg], Msgs(u[1..]));
  }

  /** Sending the first queued segment, whether new or again, leaves the logical queue as it is. */
  lemma SameOutstanding(u: seq<Queued>, unacked: seq<Segment>)
    requires u != [] && AgainFirst(u)
    ensures var q := u[0];
      var unacked' := if q.retransmitted then [q.msg] + unacked else unacked + [q.msg];
      && Again(u[1..]) + unacked' + New(u[1..]) == Again(u) + unacked + New(u)
      && AgainFirst(u[1..])
      && Total(unacked') == Total(unacked) + q.msg.Length()
  {
    var q, rest := u[0], u[1..];
    TotalOfOne(q.msg);
    TotalOfSum([q.msg], unacked);
    TotalOfSum(unacked, [q.msg]);
    if !q.retransmitted {
      assert Again(rest) == [];
      assert New(rest) == Msgs(rest);
      MsgsOfFirst(u);
    }
  }

  lemma SendFirstShape(s: Sender)
    requires s.unsent != [] && !s.synUnsent && AgainFirst(s.unsent)
    ensures var (t, msg) := (SendFirst(s).0, s.unsent[0].msg);
      && SendFirst(s).1 == Some(msg)
      && Outstanding(t) == Outstanding(s) && AgainFirst(t.unsent) && t.unacked != []
      && Total(t.unacked) == Total(s.unacked) + msg.Length()
      && Total(Msgs(s.unsent)) == msg.Length() + Total(Msgs(t.unsent))
      && t == s.(unsent := t.unsent, unacked := t.unacked, timer := s.timer.StartIfOff(),
                 unsentSeqnos := Low32(s.unsentSeqnos - msg.Length()), unackedSeqnos := Low32(s.unackedSeqnos + msg.Length()))
  {
    hide Again, New, Msgs, Total, Low32;
    SameOutstanding(s.unsent, s.unacked);
    MsgsOfFirst(s.unsent);
  }

  lemma SendFirstKeeps(s: Sender, out: Stream, zeros: nat)
    requires Inv(s, out, zeros) && Bounded(out, zeros) && s.unsent != []
    ensures Inv(SendFirst(s).0, out, zeros) && Oldest(SendFirst(s).0) == Oldest(s)
    ensures SendFirst(s).1 == Some(s.unsent[0].msg)
  {
    SendFirstShape(s);
    hide Tiled, Counted, TakenInv, WindowInv, TimerInv, SendFirst, Outstanding, Total, Msgs, AgainFirst;
    SendFirstFacts(s, out, zeros);
    var t := SendFirst(s).0;
    SameOutstandingSameInv(s, t, out, zeros);
    MovedCounts(s, t, zeros, s.unsent[0].msg.Length());
  }

  lemma SendFirstFacts(s: Sender, out: Stream, zeros: nat)
    requires Inv(s, out, zeros) && s.unsent != []
    ensures !s.synUnsent && AgainFirst(s.unsent)
    ensures TimerInv(SendFirst(s).0)
  {
    SendFirstShape(s);
    hide Tiled, Outstanding, Total, Msgs, Again, Low32, Low64, Pow2;
  }

  /** Steps that leave the logical queue, the window state and the flags alone. */
  lemma SameOutstandingSameInv(s: Sender, t: Sender, out: Stream, zeros: nat)
    requires Tiled(s, out) && TakenInv(s, out) && WindowInv(s, zeros) && !s.synUnsent
    requires Outstanding(t) == Outstanding(s) && AgainFirst(t.unsent)
    requires t.isn == s.isn && t.synUnsent == s.synUnsent && t.finUnsent == s.finUnsent && t.streamFinished == s.streamFinished
    requires t.nextSeqno == s.nextSeqno && t.probe == s.probe && t.window == s.window
    ensures Tiled(t, out) && TakenInv(t, out) && WindowInv(t, zeros)
  {
    hide Tiles, Outstanding, Total, AgainFirst;
  }

  /** `n` sequence numbers pass from the unsent to the unacknowledged counter (or back). */
  lemma MovedCounts(s: Sender, t: Sender, zeros: nat, n: int)
    requires Counted(s) && WindowInv(s, zeros) && zeros < TWO31 - TWO16
    requires Total(t.unacked) == Total(s.unacked) + n && Total(Msgs(t.unsent)) == Total(Msgs(s.unsent)) - n
    requires t.unsentSeqnos == Low32(s.unsentSeqnos - n) && t.unackedSeqnos == Low32(s.unackedSeqnos + n)
    ensures Counted(t)
  {
    CountersFit(s, zeros);
    hide Outstanding, Total, Msgs, Low32;
    Low32Exact(s.unsentSeqnos - n);
    Low32Exact(s.unackedSeqnos + n);
  }

  /** A segment sent directly extends the tiling at its end. */
  lemma SegmentSent(s: Sender, out: Stream, m: Segment, t: Sender)
    requires s.unsent == [] && Tiled(s, out) && SegmentAt(m, s.nextSeqno, s.isn, out)
    requires t.unacked == s.unacked + [m] && t.unsent == [] && t.nextSeqno == s.nextSeqno + m.Length() && t.isn == s.isn
    ensures Total(Outstanding(t)) == Total(Outstanding(s)) + m.Length() && Total(t.unacked) == Total(s.unacked) + m.Length()
    ensures Tiled(t, out)
  {
    hide SegmentAt, Total, Tiles;
    assert Outstanding(t) == Outstanding(s) + [m];
    TotalOfSum(Outstanding(s), [m]);
    TotalOfSum(s.unacked, [m]);
    TotalOfOne(m);
    TilesOfSum(Outstanding(s), [m], Oldest(s), s.isn, out);
    TilesOfOne(m, s.nextSeqno, s.isn, out);
  }

  lemma FlagSegmentAt(s: Sender, out: Stream)
    requires out.Valid() && TakenInv(s, out) && |out.pushed| < TWO64 / 2 && s.unsent == []
    requires SendFlags(s).1.Some?
    ensures var (t, sent) := SendFlags(s);
      && SegmentAt(sent.value, s.nextSeqno, s.isn, out)
      && t.nextSeqno == s.nextSeqno + sent.value.Length() && 1 <= sent.value.Length() <= 2
      && (sent.value.Length() == 2 ==> s.synUnsent)
      && TakenInv(t, out)
  {
    hide Wrap32.Wrap, Low32, Low64, Timer.StartIfOff;
    Wrap32.Low64Of(s.nextSeqno + 1);
    Wrap32.Low64Of(s.nextSeqno + 2);
  }

  lemma FlagsTimed(s: Sender)
    requires TimerInv(s) && s.unsent == [] && SendFlags(s).1.Some?
    ensures TimerInv(SendFlags(s).0)
  {
    hide Pow2, Low32, Low64, Wrap32.Wrap;
    assert Again(SendFlags(s).0.unsent) == [];
  }

  lemma FlagsCounted(s: Sender, zeros: nat)
    requires s.unsent == [] && SendFlags(s).1.Some? && Counted(s) && WindowInv(s, zeros) && zeros < TWO31 - TWO16
    requires var (t, n) := (SendFlags(s).0, SendFlags(s).1.value.Length());
      && Total(Outstanding(t)) == Total(Outstanding(s)) + n && Total(t.unacked) == Total(s.unacked) + n
      && 1 <= n <= 2 && (n == 2 ==> s.synUnsent)
    requires s.synUnsent ==> Total(Outstanding(s)) == 0
    ensures Counted(SendFlags(s).0) && WindowInv(SendFlags(s).0, zeros)
  {
    CountersFit(s, zeros);
    assert Msgs(s.unsent) == [];
    hide Outstanding, Total, Wrap32.Wrap, Low32, Low64, Msgs;
    Low32Exact(s.unackedSeqnos + SendFlags(s).1.value.Length());
  }

  lemma NothingBeforeSyn(s: Sender, out: Stream)
    requires TakenInv(s, out) && s.synUnsent
    ensures Total(Outstanding(s)) == 0
  {
    assert Outstanding(s) == [];
  }

  lemma SendFlagsKeeps(s: Sender, out: Stream, zeros: nat)
    requires Inv(s, out, zeros) && Bounded(out, zeros) && s.unsent == []
    ensures Inv(SendFlags(s).0, out, zeros) && Oldest(SendFlags(s).0) == Oldest(s)
    ensures SendFlags(s).1.Some? ==> SendFlags(s).0.unacked == s.unacked + [SendFlags(s).1.value]
  {
    var (t, sent) := SendFlags(s);
    if sent.Some? {
      FlagSegmentAt(s, out);
      SegmentSent(s, out, sent.value, t);
      if s.synUnsent {
        NothingBeforeSyn(s, out);
      }
      hide Tiled, Counted, TakenInv, WindowInv, TimerInv, Outstanding, Total, SegmentAt, Low32, Low64, Wrap32.Wrap;
      FlagsTimed(s);
      FlagsCounted(s, zeros);
    }
  }

  lemma MaybeSendKeeps(s: Sender, out: Stream, zeros: nat)
    requires Inv(s, out, zeros) && Bounded(out, zeros)
    ensures Inv(MaybeSend(s).0, out, zeros) && Oldest(MaybeSend(s).0) == Oldest(s)
  {
    hide Inv, SendFirst, SendFlags;
    if s.unsent == [] {
      SendFlagsKeeps(s, out, zeros);
    } else {
      SendFirstKeeps(s, out, zeros);
    }
  }

  // ----- tick -----

  lemma TickKeepsQueue(s: Sender, t: Sender, out: Stream)
    requires s.unacked != [] && AgainFirst(s.unsent)
    requires t.unacked == s.unacked[1..] && t.unsent == [Queued(s.unacked[0], true)] + s.unsent
    requires t.nextSeqno == s.nextSeqno && t.isn == s.isn
    ensures Outstanding(t) == Outstanding(s) && AgainFirst(t.unsent) && Again(t.unsent) != []
    ensures Total(s.unacked) == Total(t.unacked) + s.unacked[0].Length()
    ensures Total(Msgs(t.unsent)) == Total(Msgs(s.unsent)) + s.unacked[0].Length()
  {
    var msg := s.unacked[0];
    assert t.unsent[1..] == s.unsent;
    assert Again(t.unsent) == Again(s.unsent) + [msg] && New(t.unsent) == New(s.unsent);
    assert s.unacked == [msg] + s.unacked[1..];
    MsgsOfFirst(t.unsent);
    assert Again(s.unsent) + [msg] + s.unacked[1..] == Again(s.unsent) + s.unacked;
  }

  lemma Low64Shift(y: int, k: int)
    ensures Low64(y + k * 0x1_0000_0000_0000_0000) == Low64(y)
  {
  }

  lemma Doubling(initial: U64, n: nat)
    ensures Low64(Low64(initial * Pow2(n)) * 2) == Low64(initial * Pow2(n + 1))
  {
    var x := initial * Pow2(n);
    assert initial * Pow2(n + 1) == x * 2;
    var k := x / 0x1_0000_0000_0000_0000;
    assert x == Low64(x) + k * 0x1_0000_0000_0000_0000;
    Low64Shift(Low64(x) * 2, 2 * k);
    hide Low64;
    assert x * 2 == Low64(x) * 2 + 2 * k * 0x1_0000_0000_0000_0000;
  }

  lemma TickTimer(s: Sender, ms: nat)
    requires TimerInv(s) && (Expires(s, ms) ==> s.unacked != [] && s.retransmissions < TWO32 - 1)
    requires Expires(s, ms) ==> Again(Tick(s, ms).unsent) != []
    ensures TimerInv(Tick(s, ms))
  {
    Doubling(s.timer.initialRto, s.retransmissions);
    hide Pow2, Again, Low64;
    if Expires(s, ms) {
      Low32Exact(s.retransmissions + 1);
      hide Low32;
      assert Tick(s, ms).timer.isOn;
    }
  }

  /** A tick keeps the invariant as long as the oldest segment is still among the unacknowledged ones
      when the timer expires. */
  lemma TickKeeps(s: Sender, out: Stream, zeros: nat, ms: nat)
    requires Inv(s, out, zeros) && Bounded(out, zeros)
    requires Expires(s, ms) ==> s.unacked != [] && s.retransmissions < TWO32 - 1
    ensures Inv(Tick(s, ms), out, zeros) && Oldest(Tick(s, ms)) == Oldest(s)
  {
    TickShape(s, out, zeros, ms);
    TickTimer(s, ms);
    hide Tiled, Counted, WindowInv, TakenInv, TimerInv, Outstanding, Total, Msgs, AgainFirst, Again, Tick, Low32;
    var t := Tick(s, ms);
    if Expires(s, ms) {
      SameOutstandingSameInv(s, t, out, zeros);
      var len: int := s.unacked[0].Length();
      MovedCounts(s, t, zeros, -len);
    } else {
      QuietTickKeeps(s, t, out, zeros);
    }
  }

  lemma TickShape(s: Sender, out: Stream, zeros: nat, ms: nat)
    requires Inv(s, out, zeros) && (Expires(s, ms) ==> s.unacked != [])
    ensures var t := Tick(s, ms);
      && t == s.(unsent := t.unsent, unacked := t.unacked, timer := t.timer, retransmissions := t.retransmissions,
                 unsentSeqnos := t.unsentSeqnos, unackedSeqnos := t.unackedSeqnos)
      && (!Expires(s, ms) ==> t == s.(timer := t.timer))
      && (Expires(s, ms) ==>
            && !s.synUnsent && Outstanding(t) == Outstanding(s) && AgainFirst(t.unsent) && Again(t.unsent) != []
            && Total(t.unacked) == Total(s.unacked) - s.unacked[0].Length()
            && Total(Msgs(t.unsent)) == Total(Msgs(s.unsent)) + s.unacked[0].Length()
            && t.unsentSeqnos == Low32(s.unsentSeqnos + s.unacked[0].Length())
            && t.unackedSeqnos == Low32(s.unackedSeqnos - s.unacked[0].Length()))
  {
    hide Tiles, Outstanding, Total, Msgs, AgainFirst, Again, Low32, Pow2;
    if Expires(s, ms) {
      TickKeepsQueue(s, Tick(s, ms), out);
    }
  }

  lemma QuietTickKeeps(s: Sender, t: Sender, out: Stream, zeros: nat)
    requires Tiled(s, out) && Counted(s) && TakenInv(s, out) && WindowInv(s, zeros) && t == s.(timer := t.timer)
    ensures Tiled(t, out) && Counted(t) && TakenInv(t, out) && WindowInv(t, zeros) && Oldest(t) == Oldest(s)
  {
    SameQueue(s, t, out);
    hide Tiled, Total, Msgs;
  }

  // ----- receive -----

  /** Where segment `i` of a tiling ends. */
  function EndOf(q: seq<Segment>, i: nat, lo: nat): nat
    requires i < |q|
  {
    lo + Total(q[..i + 1])
  }

  /** A stored 32-bit sequence number still means the absolute one it was made from. */
  lemma StoredSeqnoIsTrue(s: Sender, m: Segment, lo: nat, out: Stream, ackno: U64)
    requires SegmentAt(m, lo, s.isn, out) && lo + m.Length() <= s.nextSeqno < lo + TWO31 && s.nextSeqno < TWO64 - TWO32
    ensures Wrap32.Unwrap(m.seqno, s.isn, s.nextSeqno) == lo
    ensures Acked(s, m, ackno) <==> lo + m.Length() <= ackno
  {
    hide Wrap32.Wrap, Wrap32.Unwrap;
    Wrap32.RoundTrip(lo, s.isn, s.nextSeqno);
  }

  /** The count finds exactly the segments that end at or below the acknowledgement number. */
  lemma {:induction false} AckedExactly(s: Sender, q: seq<Segment>, lo: nat, out: Stream, ackno: U64)
    requires Tiles(q, lo, s.isn, out) && lo + Total(q) <= s.nextSeqno < lo + TWO31 && s.nextSeqno < TWO64 - TWO32
    ensures forall i: nat :: i < |q| ==> (i < AckedCount(s, q, ackno) <==> EndOf(q, i, lo) <= ackno)
  {
    hide SegmentAt, Acked;
    if q != [] {
      StoredSeqnoIsTrue(s, q[0], lo, out, ackno);
      AckedExactly(s, q[1..], lo + q[0].Length(), out, ackno);
      forall i: nat | i < |q|
        ensures EndOf(q, i, lo) == if i == 0 then lo + q[0].Length() else EndOf(q[1..], i - 1, lo + q[0].Length())
        ensures EndOf(q, i, lo) >= lo + q[0].Length()
      {
        assert q[..i + 1][1..] == q[1..][..i];
      }
      forall i: nat | i < |q|
        ensures i < AckedCount(s, q, ackno) <==> EndOf(q, i, lo) <= ackno
      {
        hide EndOf;
        if i > 0 {
          assert i - 1 < AckedCount(s, q[1..], ackno) <==> EndOf(q[1..], i - 1, lo + q[0].Length()) <= ackno;
        }
      }
    }
  }

  lemma DropQueue(s: Sender, n: nat, t: Sender, out: Stream)
    requires n <= |s.unacked| && Again(s.unsent) == [] && Tiled(s, out)
    requires t.unacked == s.unacked[n..] && t.unsent == s.unsent && t.nextSeqno == s.nextSeqno && t.isn == s.isn
    ensures Tiled(t, out) && Total(Outstanding(t)) <= Total(Outstanding(s))
    ensures Total(t.unacked) == Total(s.unacked) - Total(s.unacked[..n])
  {
    hide Tiles, Total, Again, New;
    var gone := s.unacked[..n];
    assert s.unacked == gone + t.unacked;
    assert Outstanding(s) == gone + Outstanding(t);
    TilesOfSum(gone, Outstanding(t), Oldest(s), s.isn, out);
    TotalOfSum(gone, Outstanding(t));
    TotalOfSum(gone, t.unacked);
  }

  lemma DropKeeps(s: Sender, n: nat, out: Stream, zeros: nat)
    requires Inv(s, out, zeros) && Bounded(out, zeros) && n <= |s.unacked| && Again(s.unsent) == []
    ensures Inv(Drop(s, n), out, zeros)
  {
    if n > 0 {
      var t := Drop(s, n);
      DropQueue(s, n, t, out);
      DropTimer(s, n);
      CountersFit(s, zeros);
      hide Tiled, Outstanding, Total, Msgs, Again, Low32, TimerInv;
      Low32Exact(s.unackedSeqnos - Total(s.unacked[..n]));
      assert TakenInv(t, out) && WindowInv(t, zeros);
    }
  }

  lemma DropTimer(s: Sender, n: nat)
    requires TimerInv(s) && 0 < n <= |s.unacked| && Again(s.unsent) == []
    ensures TimerInv(Drop(s, n))
  {
    hide Total, Msgs, Again, Low32, Low64, Pow2;
    StartsTiming(s.timer.initialRto);
    assert s.timer.isOn;
  }

  /** Taking over the advertised window; a zero window may be probed once more. */
  lemma WindowKeeps(s: Sender, ack: Ack, out: Stream, zeros: nat)
    requires Inv(s, out, zeros)
    ensures Inv(s.(window := ack.windowSize, probe := ack.windowSize == 0), out, zeros + Count(ack.windowSize == 0))
  {
    SameQueue(s, s.(window := ack.windowSize, probe := ack.windowSize == 0), out);
    hide Tiled, Total, Msgs, Again, Pow2;
  }

  lemma ReceiveKeeps(s: Sender, ack: Ack, out: Stream, zeros: nat)
    requires Inv(s, out, zeros) && Again(s.unsent) == []
    requires Bounded(out, zeros + Count(ack.windowSize == 0))
    ensures Inv(Receive(s, ack), out, zeros + Count(ack.windowSize == 0))
  {
    WindowKeeps(s, ack, out, zeros);
    hide Inv, Drop, Again, Wrap32.Unwrap, AckedCount;
    var t := s.(window := ack.windowSize, probe := ack.windowSize == 0);
    if ack.ackno.Some? && Wrap32.Unwrap(ack.ackno.value, s.isn, s.nextSeqno) <= s.nextSeqno {
      DropKeeps(t, AckedCount(t, t.unacked, Wrap32.Unwrap(ack.ackno.value, s.isn, s.nextSeqno)), out,
                zeros + Count(ack.windowSize == 0));
    }
  }

  /** From the front, and exactly those segments that end at or below the acknowledgement number. */
  ghost predicate RemovedExactly(s: Sender, t: Sender, ackno: U64)
    requires Oldest(s) >= 0
  {
    && t.unsent == s.unsent && t.nextSeqno == s.nextSeqno
    && |t.unacked| <= |s.unacked| && t.unacked == s.unacked[|s.unacked| - |t.unacked|..]
    && forall i: nat :: i < |s.unacked| ==>
         (i < |s.unacked| - |t.unacked| <==> EndOf(s.unacked, i, Oldest(s)) <= ackno)
  }

  lemma IgnoredAck(s: Sender, ack: Ack)
    requires ack.ackno.None? || Wrap32.Unwrap(ack.ackno.value, s.isn, s.nextSeqno) > s.nextSeqno
    ensures Receive(s, ack) == s.(window := ack.windowSize, probe := ack.windowSize == 0)
  {
    hide Wrap32.Unwrap, AckedCount, Drop;
  }

  lemma HeededAck(s: Sender, ack: Ack)
    requires ack.ackno.Some? && Wrap32.Unwrap(ack.ackno.value, s.isn, s.nextSeqno) <= s.nextSeqno
    ensures var t := s.(window := ack.windowSize, probe := ack.windowSize == 0);
      Receive(s, ack) == Drop(t, AckedCount(t, t.unacked, Wrap32.Unwrap(ack.ackno.value, s.isn, s.nextSeqno)))
  {
    hide Wrap32.Unwrap, AckedCount, Drop;
  }

  /** Cumulative acknowledgement (RFC 9293 section 3.10.7.4): an acknowledgement of something not yet sent
      changes nothing but the window; any other removes exactly the segments that end at or below it. */
  lemma CumulativeAck(s: Sender, ack: Ack, out: Stream, zeros: nat)
    requires Inv(s, out, zeros) && Bounded(out, zeros) && Again(s.unsent) == [] && ack.ackno.Some?
    ensures var t, ackno := Receive(s, ack), Wrap32.Unwrap(ack.ackno.value, s.isn, s.nextSeqno);
      && (ackno > s.nextSeqno ==> t == s.(window := ack.windowSize, probe := ack.windowSize == 0))
      && (ackno <= s.nextSeqno ==> RemovedExactly(s, t, ackno))
  {
    var t := s.(window := ack.windowSize, probe := ack.windowSize == 0);
    var ackno := Wrap32.Unwrap(ack.ackno.value, s.isn, s.nextSeqno);
    UnackedTiles(s, out, zeros);
    hide Inv, Tiles, Drop, AckedCount, Wrap32.Unwrap, EndOf, Total, Again, Outstanding, Receive, RemovedExactly;
    if ackno > s.nextSeqno {
      IgnoredAck(s, ack);
    } else {
      HeededAck(s, ack);
      AckedExactly(t, s.unacked, Oldest(s), out, ackno);
      DropIsExact(s, t, ackno);
    }
  }

  lemma UnackedTiles(s: Sender, out: Stream, zeros: nat)
    requires Inv(s, out, zeros) && Bounded(out, zeros) && Again(s.unsent) == []
    ensures Oldest(s) >= 0 && Tiles(s.unacked, Oldest(s), s.isn, out)
    ensures Oldest(s) + Total(s.unacked) <= s.nextSeqno < Oldest(s) + TWO31 && s.nextSeqno < TWO64 - TWO32
  {
    CountersFit(s, zeros);
    hide Tiles, Total, New, Msgs, TimerInv;
    assert Outstanding(s) == s.unacked + New(s.unsent);
    TilesOfSum(s.unacked, New(s.unsent), Oldest(s), s.isn, out);
    TotalOfSum(s.unacked, New(s.unsent));
  }

  lemma DropIsExact(s: Sender, t: Sender, ackno: U64)
    requires Oldest(s) >= 0 && t == s.(window := t.window, probe := t.probe)
    requires var n := AckedCount(t, s.unacked, ackno);
      forall i: nat :: i < |s.unacked| ==> (i < n <==> EndOf(s.unacked, i, Oldest(s)) <= ackno)
    ensures RemovedExactly(s, Drop(t, AckedCount(t, t.unacked, ackno)), ackno)
  {
    hide AckedCount, EndOf, Outstanding, Total, Low32;
    var n := AckedCount(t, s.unacked, ackno);
    assert s.unacked[0..] == s.unacked;
    assert |Drop(t, n).unacked| == |s.unacked| - n;
  }

  // ----- push -----

  /** What `push` relies on: SYN has left before any data is there, and nothing queued is a retransmission
      or already carries FIN. */
  ghost predicate Ready(s: Sender, out: Stream)
    requires out.Valid()
  {
    && (s.synUnsent ==> out.View() == [])
    && forall q :: q in s.unsent ==> !q.retransmitted && !q.msg.fin
  }

  lemma AllNew(u: seq<Queued>)
    requires forall q :: q in u ==> !q.retransmitted
    ensures Again(u) == [] && New(u) == Msgs(u) && AgainFirst(u)
  {
  }

  /** Queueing one more new segment at the end. */
  lemma QueueingTiles(s: Sender, t: Sender, m: Segment, out: Stream)
    requires Tiled(s, out) && SegmentAt(m, s.nextSeqno, s.isn, out)
    requires forall q :: q in s.unsent ==> !q.retransmitted
    requires t.unsent == s.unsent + [Queued(m, false)] && t.unacked == s.unacked && t.isn == s.isn
    requires t.nextSeqno == s.nextSeqno + m.Length()
    ensures Tiled(t, out) && Total(Outstanding(t)) == Total(Outstanding(s)) + m.Length()
    ensures Total(Msgs(t.unsent)) == Total(Msgs(s.unsent)) + m.Length()
    ensures Again(t.unsent) == []
  {
    AllNew(s.unsent);
    AllNew(t.unsent);
    hide SegmentAt, Total, Tiles, Again, New, AgainFirst;
    assert Msgs(t.unsent) == Msgs(s.unsent) + [m];
    assert Outstanding(t) == Outstanding(s) + [m];
    TotalOfSum(Outstanding(s), [m]);
    TotalOfSum(Msgs(s.unsent), [m]);
    TotalOfOne(m);
    TilesOfSum(Outstanding(s), [m], Oldest(s), s.isn, out);
    TilesOfOne(m, s.nextSeqno, s.isn, out);
  }

  lemma NextSegmentFits(s: Sender, out: Stream)
    requires out.Valid() && TakenInv(s, out) && |out.pushed| < TWO64 / 2
    requires Ready(s, out) && out.View() != [] && s.MaySend()
    ensures var m, rest := NextSegment(s, out), Cut(s, out).1;
      && !s.synUnsent && s.finUnsent && !s.streamFinished && !m.fin
      && SegmentAt(m, s.nextSeqno, s.isn, rest) && rest.popped == out.popped + m.Length()
      && 1 <= m.Length() <= s.Room()
      && s.nextSeqno + m.Length() < TWO64
  {
    hide Wrap32.Wrap, Low32, Low64;
    var m, rest := NextSegment(s, out), Cut(s, out).1;
    assert m.payload == rest.pushed[out.popped..out.popped + |m.payload|];
  }

  lemma QueueingExact(s: Sender, m: Segment)
    requires s.unackedSeqnos + s.unsentSeqnos == s.InFlight() < TWO31 && s.MaySend() && (s.probe ==> s.window == 0)
    requires 1 <= m.Length() <= s.Room() && s.nextSeqno + m.Length() < TWO64
    ensures var t := Queueing(s, m);
      && t == s.(unsent := s.unsent + [Queued(m, false)], unsentSeqnos := t.unsentSeqnos, nextSeqno := t.nextSeqno, probe := t.probe)
      && t.nextSeqno == s.nextSeqno + m.Length() && t.unsentSeqnos == s.unsentSeqnos + m.Length()
      && (if s.window == 0 then m.Length() == 1 && s.probe && !t.probe else m.Length() <= s.window - s.InFlight() && t.probe == s.probe)
  {
    hide Low32, Low64, Segment.Length;
    Low32Exact(s.unsentSeqnos + m.Length());
    Wrap32.Low64Of(s.nextSeqno + m.Length());
  }

  /** What one cut adds, with the machine arithmetic resolved. */
  lemma CutShape(s: Sender, out: Stream, zeros: nat)
    requires Inv(s, out, zeros) && Bounded(out, zeros) && Ready(s, out) && out.View() != [] && s.MaySend()
    ensures var t, m := Cut(s, out).0, NextSegment(s, out);
      && t == s.(unsent := s.unsent + [Queued(m, false)], unsentSeqnos := t.unsentSeqnos, nextSeqno := t.nextSeqno, probe := t.probe)
      && t.nextSeqno == s.nextSeqno + m.Length() && t.unsentSeqnos == s.unsentSeqnos + m.Length()
      && (if s.window == 0 then m.Length() == 1 && s.probe && !t.probe else m.Length() <= s.window - s.InFlight() && t.probe == s.probe)
  {
    CountersFit(s, zeros);
    NextSegmentFits(s, out);
    assert s.probe ==> s.window == 0;
    assert Cut(s, out).0 == Queueing(s, NextSegment(s, out));
    hide *;
    QueueingExact(s, NextSegment(s, out));
  }

  lemma PopMovesOn(out: Stream, len: nat)
    requires out.Valid()
    ensures MovedOn(out, out.Pop(len)) && out.Pop(len).pushed == out.pushed && out.Pop(len).closed == out.closed
  {
  }

  lemma TiledMovesOn(s: Sender, a: Stream, b: Stream)
    requires Tiled(s, a) && MovedOn(a, b)
    ensures Tiled(s, b)
  {
    hide Tiles, Outstanding, AgainFirst, MovedOn;
    TilesStay(Outstanding(s), Oldest(s), s.isn, a, b);
  }

  lemma CutKeeps(s: Sender, out: Stream, zeros: nat)
    requires Inv(s, out, zeros) && Bounded(out, zeros) && Ready(s, out) && out.View() != [] && s.MaySend()
    ensures var (t, rest) := Cut(s, out);
      && Inv(t, rest, zeros) && Bounded(rest, zeros) && Ready(t, rest) && MovedOn(out, rest)
      && rest.pushed == out.pushed && t.window == s.window && Oldest(t) == Oldest(s)
      && Total(Outstanding(t)) <= Max(Total(Outstanding(s)), s.window) + Count(s.probe && !t.probe)
  {
    CutShape(s, out, zeros);
    NextSegmentFits(s, out);
    PopMovesOn(out, Min(s.Room(), MAX_PAYLOAD_SIZE));
    assert Cut(s, out).1 == out.Pop(Min(s.Room(), MAX_PAYLOAD_SIZE));
    hide Cut, NextSegment, Inv, Ready, Outstanding, Total, MovedOn, SegmentAt;
    CutExtends(s, Cut(s, out).0, NextSegment(s, out), out, Cut(s, out).1, zeros);
  }

  lemma CutExtends(s: Sender, t: Sender, m: Segment, out: Stream, rest: Stream, zeros: nat)
    requires Inv(s, out, zeros) && Bounded(out, zeros) && Ready(s, out) && s.MaySend() && !s.synUnsent && s.finUnsent && !s.streamFinished
    requires MovedOn(out, rest) && rest.pushed == out.pushed && rest.popped == out.popped + m.Length()
    requires t == s.(unsent := t.unsent, unsentSeqnos := t.unsentSeqnos, nextSeqno := t.nextSeqno, probe := t.probe)
    requires t.unsent == s.unsent + [Queued(m, false)] && !m.fin && SegmentAt(m, s.nextSeqno, s.isn, rest)
    requires t.nextSeqno == s.nextSeqno + m.Length() && t.unsentSeqnos == s.unsentSeqnos + m.Length()
    requires if s.window == 0 then m.Length() == 1 && s.probe && !t.probe else m.Length() <= s.window - s.InFlight() && t.probe == s.probe
    ensures Inv(t, rest, zeros) && Ready(t, rest) && Oldest(t) == Oldest(s)
    ensures Total(Outstanding(t)) <= Max(Total(Outstanding(s)), s.window) + Count(s.probe && !t.probe)
  {
    TiledMovesOn(s, out, rest);
    QueueingTiles(s, t, m, rest);
    CountersFit(s, zeros);
    AllNew(s.unsent);
    hide Tiled, Total, Msgs, Outstanding, Again, Pow2, SegmentAt, MovedOn;
    assert TimerInv(t) && TakenInv(t, rest) && Counted(t) && WindowInv(t, zeros);
  }

  lemma {:induction false} CutAllKeeps(s: Sender, out: Stream, zeros: nat)
    requires Inv(s, out, zeros) && Bounded(out, zeros) && Ready(s, out)
    ensures var (t, rest) := CutAll(s, out);
      && Inv(t, rest, zeros) && Bounded(rest, zeros) && Ready(t, rest) && MovedOn(out, rest)
      && rest.pushed == out.pushed && t.window == s.window && Oldest(t) == Oldest(s)
      && Total(Outstanding(t)) <= Max(Total(Outstanding(s)), s.window) + Count(s.probe && !t.probe)
      && (t.probe ==> s.probe)
    decreases |out.View()|
  {
    if out.View() != [] && s.MaySend() {
      CutKeeps(s, out, zeros);
      hide Inv, Bounded, Ready, Outstanding, Total;
      CutAllKeeps(Cut(s, out).0, Cut(s, out).1, zeros);
    }
  }

  /** Taking the last new segment off again. */
  lemma Unqueueing(s: Sender, m: Segment, before: Sender, out: Stream)
    requires Tiled(s, out) && before.unsent + [Queued(m, false)] == s.unsent
    requires forall q :: q in s.unsent ==> !q.retransmitted
    requires before.unacked == s.unacked && before.isn == s.isn && before.nextSeqno == s.nextSeqno - m.Length()
    ensures Tiled(before, out) && SegmentAt(m, before.nextSeqno, s.isn, out)
    ensures Total(Outstanding(s)) == Total(Outstanding(before)) + m.Length()
    ensures Total(Msgs(s.unsent)) == Total(Msgs(before.unsent)) + m.Length()
  {
    AllNew(s.unsent);
    assert forall q :: q in before.unsent ==> q in s.unsent;
    AllNew(before.unsent);
    hide SegmentAt, Total, Tiles, Again, New, AgainFirst;
    assert Msgs(s.unsent) == Msgs(before.unsent) + [m];
    assert Outstanding(s) == Outstanding(before) + [m];
    TotalOfSum(Outstanding(before), [m]);
    TotalOfSum(Msgs(before.unsent), [m]);
    TotalOfOne(m);
    TilesOfSum(Outstanding(before), [m], Oldest(s), s.isn, out);
    TilesOfOne(m, before.nextSeqno, s.isn, out);
  }

  lemma FinFits(m: Segment, lo: nat, isn: U32, out: Stream)
    requires SegmentAt(m, lo, isn, out) && !m.fin && out.closed && out.popped == |out.pushed|
    requires lo + m.Length() == 1 + out.popped
    ensures SegmentAt(m.(fin := true), lo, isn, out)
  {
    hide Wrap32.Wrap;
  }

  lemma LastIsShort(s: Sender, out: Stream)
    requires Tiled(s, out) && s.unsent != [] && !s.unsent[|s.unsent| - 1].retransmitted
    requires forall q :: q in s.unsent ==> !q.retransmitted
    ensures s.unsent[|s.unsent| - 1].msg.Length() <= s.nextSeqno
  {
    AllNew(s.unsent);
    var k := |Outstanding(s)| - 1;
    assert Msgs(s.unsent)[|s.unsent| - 1] == Outstanding(s)[k];
    TileAt(Outstanding(s), k, Oldest(s), s.isn, out);
  }

  /** What attaching FIN changes, with the machine arithmetic resolved. */
  lemma FinShape(s: Sender, zeros: nat)
    requires Counted(s) && WindowInv(s, zeros) && zeros < TWO31 - TWO16 && s.nextSeqno + 1 < TWO64
    requires s.finUnsent && s.unsent != [] && s.window >= Low32(s.unackedSeqnos + s.unsentSeqnos + 1)
    ensures var t, k := AttachFin(s, true), |s.unsent| - 1;
      && Total(Outstanding(s)) + 1 <= s.window
      && t == s.(streamFinished := true, unsent := t.unsent, finUnsent := false, unsentSeqnos := t.unsentSeqnos, nextSeqno := t.nextSeqno)
      && t.unsent == s.unsent[..k] + [Queued(s.unsent[k].msg.(fin := true), s.unsent[k].retransmitted)]
      && t.unsentSeqnos == s.unsentSeqnos + 1 && t.nextSeqno == s.nextSeqno + 1
  {
    CountersFit(s, zeros);
    hide Outstanding, Total, Msgs, Low32, Low64;
    Low32Exact(s.unackedSeqnos + s.unsentSeqnos + 1);
    Low32Exact(s.unsentSeqnos + 1);
    Wrap32.Low64Of(s.nextSeqno + 1);
  }

  /** FIN rides on the last queued segment, which then ends where the stream ends. */
  lemma FinAttached(s: Sender, t: Sender, m: Segment, out: Stream)
    requires out.Valid() && Tiled(s, out) && TakenInv(s, out) && Ready(s, out) && s.unsent != []
    requires out.IsFinished() && s.finUnsent && |out.pushed| < TWO64 / 2
    requires var k := |s.unsent| - 1; m == s.unsent[k].msg && t.unsent == s.unsent[..k] + [Queued(m.(fin := true), false)]
    requires t.unacked == s.unacked && t.isn == s.isn && t.nextSeqno == s.nextSeqno + 1
    ensures Tiled(t, out) && Total(Outstanding(t)) == Total(Outstanding(s)) + 1
    ensures Total(Msgs(t.unsent)) == Total(Msgs(s.unsent)) + 1 && Again(t.unsent) == Again(s.unsent) == []
  {
    var k := |s.unsent| - 1;
    assert s.unsent[k] in s.unsent;
    LastIsShort(s, out);
    AllNew(s.unsent);
    hide Tiled, Outstanding, Total, Msgs, SegmentAt, Again;
    var before := s.(unsent := s.unsent[..k], nextSeqno := s.nextSeqno - m.Length());
    assert s.unsent == before.unsent + [Queued(m, false)];
    Unqueueing(s, m, before, out);
    FinFits(m, before.nextSeqno, s.isn, out);
    QueueingTiles(before, t, m.(fin := true), out);
  }

  lemma AttachFinKeeps(s: Sender, out: Stream, zeros: nat)
    requires Inv(s, out, zeros) && Bounded(out, zeros) && Ready(s, out)
    ensures var t := AttachFin(s, out.IsFinished());
      && Inv(t, out, zeros) && Oldest(t) == Oldest(s)
      && Total(Outstanding(t)) <= Max(Total(Outstanding(s)), s.window) && t.window == s.window && t.probe == s.probe
  {
    var t := AttachFin(s, out.IsFinished());
    if s.unsent != [] && s.finUnsent && out.IsFinished() && s.window >= Low32(s.unackedSeqnos + s.unsentSeqnos + 1) {
      FinShape(s, zeros);
      assert s.unsent[|s.unsent| - 1] in s.unsent;
      FinAttached(s, t, s.unsent[|s.unsent| - 1].msg, out);
      hide Tiled, Outstanding, Total, Msgs, Again, Low32, Pow2, AttachFin;
      assert TimerInv(t) && TakenInv(t, out) && Counted(t) && WindowInv(t, zeros);
    } else {
      NoFinAttached(s, out);
      SameQueue(s, t, out);
      hide Tiled, Outstanding, Total, Msgs, Again, Low32, Pow2, AttachFin;
      assert TimerInv(t) && TakenInv(t, out) && Counted(t) && WindowInv(t, zeros);
    }
  }

  lemma NoFinAttached(s: Sender, out: Stream)
    requires out.Valid() && Ready(s, out)
    requires s.unsent == [] || !(s.finUnsent && out.IsFinished() && s.window >= Low32(s.unackedSeqnos + s.unsentSeqnos + 1))
    ensures AttachFin(s, out.IsFinished()) == s.(streamFinished := out.IsFinished())
  {
    if s.unsent != [] {
      var k := |s.unsent| - 1;
      assert s.unsent[k] in s.unsent;
      assert s.unsent[k := s.unsent[k]] == s.unsent;
    }
  }

  /** `push` keeps the invariant, and with a non-zero window it never raises what is in flight above the
      window, unless it was above it before; with a zero window it adds at most one. */
  lemma PushKeeps(s: Sender, out: Stream, zeros: nat)
    requires Inv(s, out, zeros) && Bounded(out, zeros) && Ready(s, out)
    ensures var (t, rest) := Push(s, out);
      && Inv(t, rest, zeros) && MovedOn(out, rest) && rest.pushed == out.pushed && Oldest(t) == Oldest(s)
      && t.window == s.window && (t.probe ==> s.probe)
      && Total(Outstanding(t)) <= Max(Total(Outstanding(s)), s.window) + Count(s.probe && !t.probe)
  {
    CutAllKeeps(s, out, zeros);
    var (t, rest) := CutAll(s, out);
    hide Inv, Bounded, Ready, Outstanding, Total, CutAll, AttachFin, MovedOn;
    AttachFinKeeps(t, rest, zeros);
  }

  /** What the sender lets go of was asked for: the oldest outstanding number passes no acknowledgement. */
  lemma OldestAfterReceive(s: Sender, ack: Ack, out: Stream, zeros: nat)
    requires Inv(s, out, zeros) && Bounded(out, zeros) && Again(s.unsent) == []
    ensures Oldest(Receive(s, ack)) == Oldest(s)
         || (ack.ackno.Some? && Oldest(s) <= Oldest(Receive(s, ack)) <= Wrap32.Unwrap(ack.ackno.value, s.isn, s.nextSeqno))
  {
    hide Wrap32.Unwrap, Inv, Total, Receive, Outstanding, Tiles, Again;
    var t := Receive(s, ack);
    ReceiveKeepsIsn(s, ack);
    if ack.ackno.Some? && Wrap32.Unwrap(ack.ackno.value, s.isn, s.nextSeqno) <= s.nextSeqno {
      CumulativeAck(s, ack, out, zeros);
      UnackedTiles(s, out, zeros);
      if |t.unacked| < |s.unacked| {
        DroppedTotal(s, t);
        assert EndOf(s.unacked, |s.unacked| - |t.unacked| - 1, Oldest(s)) <= Wrap32.Unwrap(ack.ackno.value, s.isn, s.nextSeqno);
      } else {
        SameQueue(s, t, out);
      }
    } else {
      IgnoredAck(s, ack);
      SameQueue(s, t, out);
    }
  }

  lemma ReceiveKeepsIsn(s: Sender, ack: Ack)
    ensures Receive(s, ack).isn == s.isn
  {
    hide Wrap32.Unwrap, AckedCount;
  }

  lemma DroppedTotal(s: Sender, t: Sender)
    requires Again(s.unsent) == [] && t.unsent == s.unsent && t.nextSeqno == s.nextSeqno
    requires |t.unacked| < |s.unacked| && t.unacked == s.unacked[|s.unacked| - |t.unacked|..] && Oldest(s) >= 0
    ensures Oldest(t) == EndOf(s.unacked, |s.unacked| - |t.unacked| - 1, Oldest(s))
  {
    hide Total, New, Again;
    var n := |s.unacked| - |t.unacked|;
    assert s.unacked == s.unacked[..n] + t.unacked;
    assert Outstanding(s) == s.unacked[..n] + Outstanding(t);
    TotalOfSum(s.unacked[..n], Outstanding(t));
  }
}
