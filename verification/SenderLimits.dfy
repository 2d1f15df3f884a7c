/** Why the sender relies on the order of calls in `SenderRuns.InOrder`: what exactly goes wrong otherwise. */
module SenderLimits {
  import opened Words
  import opened ByteStreams
  import opened TcpMessages
  import opened SenderModel
  import opened SenderQueues
  import opened SenderInvariant
  import R = SenderRuns

  // ----- SYN on a data segment (src/tcp_sender.cc:70-76, 123-125) -----

  /** Sending SYN on an already counted segment always breaks the unsent counter. */
  lemma SynOnDataMiscounts(s: Sender)
    requires s.synUnsent && s.unsent != [] && !s.unsent[0].msg.syn && Counted(s)
    ensures !Counted(SendFirst(s).0)
  {
    MsgsOfFirst(s.unsent);
    hide Total, Msgs;
    var rest: int := Total(Msgs(s.unsent[1..]));
    assert SendFirst(s).0.unsentSeqnos == Low32(rest - 1);
  }

  /** Pushing while SYN is unsent and data is there queues exactly such a segment. */
  lemma PushBeforeSynQueuesData(s: Sender, out: Stream)
    requires out.Valid() && s.synUnsent && s.unsent == [] && out.View() != [] && s.MaySend()
    ensures var t := Push(s, out).0; t.synUnsent && t.unsent != [] && !t.unsent[0].msg.syn
  {
    assert !NextSegment(s, out).syn;
    hide NextSegment, Low32, Low64, CutAll;
    var (t, rest) := Cut(s, out);
    assert t.unsent[0] == Queued(NextSegment(s, out), false);
    assert CutAll(s, out) == CutAll(t, rest) by { CutAllUnfolds(s, out); }
    CutAllKeepsFront(t, rest);
  }

  lemma CutAllUnfolds(s: Sender, out: Stream)
    requires out.Valid() && out.View() != [] && s.MaySend()
    ensures CutAll(s, out) == CutAll(Cut(s, out).0, Cut(s, out).1)
  {
  }

  lemma {:induction false} CutAllKeepsFront(s: Sender, out: Stream)
    requires out.Valid() && s.unsent != []
    ensures var t := CutAll(s, out).0; t.unsent != [] && t.unsent[0] == s.unsent[0] && t.synUnsent == s.synUnsent
    decreases |out.View()|
  {
    hide NextSegment;
    if out.View() != [] && s.MaySend() {
      CutAllKeepsFront(Cut(s, out).0, Cut(s, out).1);
    }
  }

  /** Concretely: one byte pushed before SYN has left, and sending it leaves 2^32 - 1 unsent numbers on record. */
  lemma SynOnDataExample()
    ensures var out := Fresh(1).Push([7]);
      var s := Push(NewSender(0, 1000), out).0;
      s.unsentSeqnos == 1 && MaybeSend(s).0.unsentSeqnos == 0xFFFF_FFFF
  {
    var s, out := NewSender(0, 1000), Fresh(1).Push([7]);
    var (t, rest) := Cut(s, out);
    assert rest.View() == [];
    assert CutAll(s, out) == (t, rest);
  }

  // ----- FIN on whatever is last (src/tcp_sender.cc:142-149) -----

  /** Pushing again while the FIN segment is still queued erases FIN for good, and the counter is off. */
  lemma QueuedFinIsErased(s: Sender, out: Stream)
    requires out.Valid() && out.View() == [] && Counted(s) && s.unsent != [] && !s.finUnsent
    requires s.unsent[|s.unsent| - 1].msg.fin
    ensures var t := Push(s, out).0;
      !t.finUnsent && !t.unsent[|t.unsent| - 1].msg.fin && !Counted(t)
  {
    var t, k := Push(s, out).0, |s.unsent| - 1;
    assert CutAll(s, out) == (s, out);
    var m := s.unsent[k].msg;
    assert Msgs(s.unsent) == Msgs(s.unsent)[..k] + [m];
    assert Msgs(t.unsent) == Msgs(s.unsent)[..k] + [m.(fin := false)];
    hide Msgs, Total;
    TotalOfSum(Msgs(s.unsent)[..k], [m]);
    TotalOfSum(Msgs(s.unsent)[..k], [m.(fin := false)]);
    TotalOfOne(m);
    TotalOfOne(m.(fin := false));
  }

  lemma {:induction false} OldestIsLastAgain(u: seq<Queued>)
    requires u != [] && forall q :: q in u ==> q.retransmitted
    ensures Again(u) != [] && Again(u)[0] == u[|u| - 1].msg && |Again(u)| == |u|
  {
    if |u| > 1 {
      assert forall q :: q in u[1..] ==> q in u;
      OldestIsLastAgain(u[1..]);
    } else {
      assert u[1..] == [];
    }
  }

  /** With nothing but retransmissions queued, FIN lands on the oldest segment, in front of the others. */
  lemma FinOnRetransmission(s: Sender, out: Stream)
    requires s.unsent != [] && (forall q :: q in s.unsent ==> q.retransmitted) && |Outstanding(s)| > 1
    requires s.finUnsent && s.window >= Low32(s.unackedSeqnos + s.unsentSeqnos + 1)
    ensures !Tiled(AttachFin(s, true), out)
  {
    var t, k := AttachFin(s, true), |s.unsent| - 1;
    assert s.unsent[k] in s.unsent;
    forall q | q in t.unsent
      ensures q.retransmitted
    {
      var i :| 0 <= i < |t.unsent| && t.unsent[i] == q;
      assert s.unsent[i] in s.unsent;
    }
    OldestIsLastAgain(s.unsent);
    OldestIsLastAgain(t.unsent);
    NothingNew(s.unsent);
    NothingNew(t.unsent);
    assert Outstanding(t)[0].fin && |Outstanding(t)| > 1;
    hide AttachFin, Outstanding, Tiles;
    if Tiled(t, out) {
      R.NoFinBeforeAnother(Outstanding(t), 0, Oldest(t), t.isn, out);
      assert false;
    }
  }

  lemma {:induction false} NothingNew(u: seq<Queued>)
    requires forall q :: q in u ==> q.retransmitted
    ensures New(u) == []
  {
    if u != [] {
      assert u[0] in u && forall q :: q in u[1..] ==> q in u;
      NothingNew(u[1..]);
    }
  }

  // ----- a second expiry (src/tcp_sender.cc:211-228) -----

  /** An expiry with a single unacknowledged segment leaves the timer on and nothing behind it:
      unless the segment is sent again first, the next expiry looks at the front of an empty queue. */
  lemma SecondExpiryFindsNothing(s: Sender, ms: nat)
    requires Expires(s, ms) && |s.unacked| == 1
    ensures var t := Tick(s, ms); t.unacked == [] && Expires(t, t.timer.timeout)
  {
  }
}
