/** What a call of the sender does, to the byte: how much of the stream a push takes and into what segments it
    cuts it, when FIN is queued with it, and when SYN or FIN goes out on its own. */
module SenderExact {
  import opened Words
  import Wrap32
  import opened ByteStreams
  import opened TcpMessages
  import opened SenderModel
  import opened SenderQueues
  import opened SenderInvariant

  // ----- how a push cuts -----

  /** Segments of exactly 1000 bytes, save the last, which carries what remains of `taken`. */
  ghost predicate Chunks(q: seq<Queued>, taken: int) {
    && (q == [] <==> taken == 0)
    && (q != [] ==> 0 < taken - 1000 * (|q| - 1) <= 1000)
    && forall i :: 0 <= i < |q| ==> |q[i].msg.payload| == if i < |q| - 1 then 1000 else taken - 1000 * (|q| - 1)
  }

  /** How much of the stream fits: what there is, but no more than the window leaves over; into a zero window
      that has not been probed, a single byte. */
  function Fitting(s: Sender, available: nat, inFlight: nat): nat {
    if s.window == 0 then if s.probe && available > 0 then 1 else 0
    else if s.window <= inFlight then 0
    else if available <= s.window - inFlight then available
    else s.window - inFlight
  }

  lemma ChunksInFront(q: Queued, rest: seq<Queued>, len: nat, taken: nat)
    requires |q.msg.payload| == len && 0 < len <= 1000 && len <= taken && Chunks(rest, taken - len)
    requires len < 1000 ==> taken == len
    ensures Chunks([q] + rest, taken)
  {
    var all := [q] + rest;
    forall i | 0 <= i < |all|
      ensures |all[i].msg.payload| == if i < |all| - 1 then 1000 else taken - 1000 * (|all| - 1)
    {
      assert i > 0 ==> all[i] == rest[i - 1];
    }
  }

  lemma OneCut(s: Sender, out: Stream, zeros: nat)
    requires Inv(s, out, zeros) && Bounded(out, zeros) && Ready(s, out) && out.View() != [] && s.MaySend()
    ensures var (t, rest) := Cut(s, out);
      var f, len := Total(Outstanding(s)), rest.popped - out.popped;
      && t.unsent == s.unsent + [t.unsent[|s.unsent|]] && |t.unsent[|s.unsent|].msg.payload| == len
      && 0 < len <= 1000 && len <= Fitting(s, |out.View()|, f)
      && (len < 1000 ==> len == Fitting(s, |out.View()|, f))
      && |rest.View()| == |out.View()| - len
      && Total(Outstanding(t)) == f + len
      && t.window == s.window && t.probe == (s.probe && s.window != 0)
      && Fitting(t, |rest.View()|, f + len) == Fitting(s, |out.View()|, f) - len
  {
    hide Inv, Ready, Outstanding, Total, Wrap32.Wrap, SegmentAt, Low32;
    CutShape(s, out, zeros);
    CutKeeps(s, out, zeros);
    InFlightIs(s, out, zeros);
    hide Low64;
  }

  lemma InFlightIs(s: Sender, out: Stream, zeros: nat)
    requires Inv(s, out, zeros) && Bounded(out, zeros)
    ensures s.InFlight() == Total(Outstanding(s))
  {
    hide Tiled, TakenInv, TimerInv, Outstanding, Total, Msgs;
    CountersFit(s, zeros);
  }

  lemma {:induction false} CutAllTakes(s: Sender, out: Stream, zeros: nat)
    requires out.Valid() && Inv(s, out, zeros) && Bounded(out, zeros) && Ready(s, out)
    ensures var (t, rest) := CutAll(s, out);
      var taken := Fitting(s, |out.View()|, Total(Outstanding(s)));
      && rest.popped == out.popped + taken
      && |t.unsent| >= |s.unsent| && t.unsent[..|s.unsent|] == s.unsent && Chunks(t.unsent[|s.unsent|..], taken)
      && Total(Outstanding(t)) == Total(Outstanding(s)) + taken
      && t.probe == (s.probe && taken == 0)
    decreases |out.View()|
  {
    hide Inv, Bounded, Ready, Outstanding, Total, NextSegment, Queueing, Cut, Chunks;
    InFlightIs(s, out, zeros);
    var n := |s.unsent|;
    if out.View() != [] && s.MaySend() {
      OneCut(s, out, zeros);
      CutKeeps(s, out, zeros);
      var (u, next) := Cut(s, out);
      CutAllTakes(u, next, zeros);
      var t := CutAll(u, next).0;
      assert t.unsent[n..] == [u.unsent[n]] + t.unsent[n + 1..] by {
        assert t.unsent[..n + 1] == u.unsent;
      }
      assert t.unsent[..n] == u.unsent[..n] == s.unsent;
      ProbeIsZero(s, out, zeros);
      ChunksInFront(u.unsent[n], t.unsent[n + 1..], next.popped - out.popped, Fitting(s, |out.View()|, Total(Outstanding(s))));
    } else {
      assert s.unsent[n..] == [] && s.unsent[..n] == s.unsent;
      NoChunks();
    }
  }

  lemma ProbeIsZero(s: Sender, out: Stream, zeros: nat)
    requires Inv(s, out, zeros)
    ensures s.probe ==> s.window == 0
  {
    hide Tiled, TakenInv, TimerInv, Counted;
  }

  lemma NoChunks()
    ensures Chunks([], 0)
  {
  }

  lemma FinChangesNoSize(s: Sender, finished: bool, n: nat, taken: nat)
    requires n <= |s.unsent| && Chunks(s.unsent[n..], taken)
    ensures var t := AttachFin(s, finished);
      && |t.unsent| == |s.unsent| && Chunks(t.unsent[n..], taken) && t.probe == s.probe && t.window == s.window
      && forall i :: 0 <= i < n ==> t.unsent[i].(msg := t.unsent[i].msg.(fin := false)) == s.unsent[i].(msg := s.unsent[i].msg.(fin := false))
  {
    hide Low32, Low64;
    var t := AttachFin(s, finished);
    forall i | 0 <= i < |s.unsent[n..]|
      ensures |t.unsent[n..][i].msg.payload| == |s.unsent[n..][i].msg.payload|
    {
      assert t.unsent[n + i].msg.payload == s.unsent[n + i].msg.payload;
    }
  }

  /** A push takes from the stream exactly what fits, and cuts it into segments of 1000 bytes with the remainder
      in the last; what was queued before stays in front. A zero window is probed with one byte, once. */
  lemma PushTakesWhatFits(s: Sender, out: Stream, zeros: nat)
    requires out.Valid() && Inv(s, out, zeros) && Bounded(out, zeros) && Ready(s, out)
    ensures var (t, rest) := Push(s, out);
      var inFlight, available, taken := Total(Outstanding(s)), |out.View()|, rest.popped - out.popped;
      && (s.window > inFlight ==> taken == if available <= s.window - inFlight then available else s.window - inFlight)
      && (0 < s.window <= inFlight ==> taken == 0)
      && (s.window == 0 ==> taken == if s.probe && available > 0 then 1 else 0)
      && t.probe == (s.probe && taken == 0)
      && |t.unsent| >= |s.unsent| && Chunks(t.unsent[|s.unsent|..], taken)
      && forall i :: 0 <= i < |s.unsent| ==> t.unsent[i].msg.payload == s.unsent[i].msg.payload
  {
    hide Inv, Bounded, Ready, Outstanding, Total, CutAll, AttachFin, Chunks;
    CutAllTakes(s, out, zeros);
    var (u, rest) := CutAll(s, out);
    FinChangesNoSize(u, rest.IsFinished(), |s.unsent|, rest.popped - out.popped);
    forall i | 0 <= i < |s.unsent|
      ensures Push(s, out).0.unsent[i].msg.payload == s.unsent[i].msg.payload
    {
      assert u.unsent[..|s.unsent|][i] == u.unsent[i];
      SamePayload(Push(s, out).0.unsent[i], u.unsent[i]);
    }
  }

  lemma SamePayload(p: Queued, q: Queued)
    requires p.(msg := p.msg.(fin := false)) == q.(msg := q.msg.(fin := false))
    ensures p.msg.payload == q.msg.payload
  {
    assert p.(msg := p.msg.(fin := false)).msg.payload == q.(msg := q.msg.(fin := false)).msg.payload;
  }

  // ----- when FIN is queued -----

  /** A push queues FIN exactly when it has not been queued yet, the stream is closed and used up by this push,
      a segment is queued to carry it, and it still fits the window; it rides on the last segment and no other. */
  lemma FinRidesWhenItFits(s: Sender, out: Stream, zeros: nat)
    requires out.Valid() && Inv(s, out, zeros) && Bounded(out, zeros) && Ready(s, out)
    ensures var (t, rest) := Push(s, out);
      var rides := s.finUnsent && rest.closed && rest.popped == |rest.pushed| && t.unsent != []
        && Total(Outstanding(s)) + (rest.popped - out.popped) + 1 <= s.window;
      && (forall i :: 0 <= i < |t.unsent| ==> (t.unsent[i].msg.fin <==> rides && i == |t.unsent| - 1))
      && t.finUnsent == (s.finUnsent && !rides)
      && t.streamFinished == (rest.closed && rest.popped == |rest.pushed|)
      && t.nextSeqno == s.nextSeqno + (rest.popped - out.popped) + if rides then 1 else 0
  {
    hide Inv, Bounded, Ready, Outstanding, Total, CutAll, AttachFin, Chunks;
    CutAllTakes(s, out, zeros);
    CutAllKeeps(s, out, zeros);
    var (u, rest) := CutAll(s, out);
    NumbersOf(s, out, zeros);
    NumbersOf(u, rest, zeros);
    CutAllKeepsFin(s, out);
    AttachesFin(u, rest, zeros);
    FinChangesNoSize(u, rest.IsFinished(), |s.unsent|, rest.popped - out.popped);
  }

  lemma NumbersOf(s: Sender, out: Stream, zeros: nat)
    requires Inv(s, out, zeros) && Bounded(out, zeros)
    ensures s.nextSeqno == Count(!s.synUnsent) + out.popped + Count(!s.finUnsent) && out.Valid()
  {
    hide Tiled, Counted, WindowInv, TimerInv;
  }

  lemma {:induction false} CutAllKeepsFin(s: Sender, out: Stream)
    requires out.Valid()
    ensures var t := CutAll(s, out).0; t.finUnsent == s.finUnsent && t.synUnsent == s.synUnsent
    decreases |out.View()|
  {
    hide NextSegment, Low32, Low64;
    if out.View() != [] && s.MaySend() {
      CutAllKeepsFin(Cut(s, out).0, Cut(s, out).1);
    }
  }

  lemma AttachesFin(s: Sender, out: Stream, zeros: nat)
    requires Inv(s, out, zeros) && Bounded(out, zeros) && Ready(s, out)
    ensures var t := AttachFin(s, out.IsFinished());
      var rides := s.finUnsent && out.closed && out.popped == |out.pushed| && s.unsent != [] && Total(Outstanding(s)) + 1 <= s.window;
      && |t.unsent| == |s.unsent|
      && (forall i :: 0 <= i < |t.unsent| ==> (t.unsent[i].msg.fin <==> rides && i == |t.unsent| - 1))
      && t.finUnsent == (s.finUnsent && !rides) && t.streamFinished == (out.closed && out.popped == |out.pushed|)
      && t.nextSeqno == s.nextSeqno + if rides then 1 else 0
  {
    hide Tiled, Counted, WindowInv, TimerInv, Outstanding, Total, Low32, Low64;
    InFlightFits(s, out, zeros);
    Low32Exact(s.unackedSeqnos + s.unsentSeqnos + 1);
    NumbersOf(s, out, zeros);
    Wrap32.Low64Of(s.nextSeqno + 1);
    Wrap32.Low64Of(s.nextSeqno);
    assert forall i :: 0 <= i < |s.unsent| ==> s.unsent[i] in s.unsent;
  }

  lemma InFlightFits(s: Sender, out: Stream, zeros: nat)
    requires Inv(s, out, zeros) && Bounded(out, zeros)
    ensures s.unackedSeqnos + s.unsentSeqnos == Total(Outstanding(s)) < TWO31
  {
    hide Tiled, TakenInv, TimerInv, Outstanding, Total, Msgs;
    CountersFit(s, zeros);
  }

  // ----- when SYN or FIN goes out on its own -----

  /** Sending leaves a running timer alone and starts one that is off with its full timeout. */
  ghost predicate StartedIfOff(before: Timer, after: Timer) {
    && after.isOn && after.rto == before.rto && after.initialRto == before.initialRto
    && after.timeout == if before.isOn then before.timeout else before.rto
  }

  /** With nothing queued, a segment goes out exactly when SYN or FIN is due and the window has room for it or is
      zero and unprobed. It is numbered with the next sequence number and carries just what is due. */
  lemma FlagsGoWhenDue(s: Sender, out: Stream, zeros: nat)
    requires Inv(s, out, zeros) && Bounded(out, zeros) && s.unsent == []
    ensures var (t, sent) := MaybeSend(s);
      var finDue := s.finUnsent && s.streamFinished;
      && (sent.Some? <==> (s.synUnsent || finDue) && (s.window > Total(Outstanding(s)) || (s.window == 0 && s.probe)))
      && (sent.None? ==> t == s)
      && (sent.Some? ==>
            && sent.value == Segment(Wrap32.Wrap(s.nextSeqno, s.isn), s.synUnsent, [], finDue)
            && t.unacked == s.unacked + [sent.value] && t.unsent == [] && !t.synUnsent && t.finUnsent == !finDue
            && t.nextSeqno == s.nextSeqno + (if s.synUnsent then 1 else 0) + (if finDue then 1 else 0)
            && !t.probe && StartedIfOff(s.timer, t.timer))
  {
    hide Outstanding, Total, Wrap32.Wrap, Tiled, Low32, Low64;
    InFlightIs(s, out, zeros);
    NumbersOf(s, out, zeros);
    ProbeIsZero(s, out, zeros);
    Wrap32.Low64Of(s.nextSeqno + 1);
    Wrap32.Low64Of(s.nextSeqno + 2);
  }

  /** With segments queued, the first of them goes out as it is. */
  lemma FirstGoesOut(s: Sender, out: Stream, zeros: nat)
    requires Inv(s, out, zeros) && Bounded(out, zeros) && s.unsent != []
    ensures MaybeSend(s).1 == Some(s.unsent[0].msg) && MaybeSend(s).0.unsent == s.unsent[1..]
    ensures MaybeSend(s).0.unacked == if s.unsent[0].retransmitted then [s.unsent[0].msg] + s.unacked else s.unacked + [s.unsent[0].msg]
    ensures StartedIfOff(s.timer, MaybeSend(s).0.timer)
  {
    hide Inv, Low32, Low64;
    SendFirstFacts(s, out, zeros);
  }

  /** The empty message takes no sequence number, carries no flag, and is numbered with the next one. */
  lemma EmptyMessageTakesNothing(s: Sender)
    requires s.nextSeqno < TWO64 - TWO32
    ensures var m := EmptyMessage(s);
      m.Length() == 0 && m.payload == [] && !m.syn && !m.fin && Wrap32.Unwrap(m.seqno, s.isn, s.nextSeqno) == s.nextSeqno
  {
    hide Wrap32.Wrap, Wrap32.Unwrap;
    Wrap32.RoundTrip(s.nextSeqno, s.isn, s.nextSeqno);
  }
}
