/** A run in which a byte is lost for good: the data segment is lost and the bare FIN behind it arrives first. */
module LossExample {
  import opened Words
  import Wrap32
  import opened ByteStreams
  import opened Reassembly
  import R = ReassemblyRuns
  import opened TcpMessages
  import opened TcpReceivers
  import opened SenderModel
  import opened SenderQueues
  import opened SenderInvariant
  import S = SenderRuns
  import C = Connection
  import opened PrematureClose

  const SYN := Segment(0, true, [], false)
  const DATA := Segment(1, false, [7], false)
  const FIN := Segment(2, false, [], true)

  lemma OneMore(c: C.System, mid: C.System, step: C.Step, d: C.System)
    requires Leads(c, mid) && C.Enabled(mid, step) && d == C.Next(mid, step)
    ensures Leads(c, d)
  {
    hide C.Enabled, C.Next;
    LeadsNowhere(d);
    LeadsByStep(mid, step, d);
    LeadsThrough(c, mid, d);
  }

  /** No counter wraps around in what follows. */
  lemma SmallSums()
    ensures Low32(0) == 0 && Low32(1) == 1 && Low32(2) == 2 && Low32(3) == 3
    ensures Low64(0) == 0 && Low64(1) == 1 && Low64(2) == 2 && Low64(3) == 3
  {
  }

  lemma SmallSum(x: int)
    requires 0 <= x < 2000
    ensures Low32(x) == x && Low64(x) == x
  {
  }

  lemma SmallNumbers(n: nat, checkpoint: nat)
    requires n < 10 && checkpoint < 10
    ensures Wrap32.Wrap(n, 0) == n && Wrap32.Unwrap(n, 0, checkpoint) == n
  {
    hide Low32, Low64, Wrap32.Unwrap;
    SmallSum(n);
    assert Wrap32.Wrap(n, 0) == n;
    Wrap32.RoundTrip(n, 0, checkpoint);
  }

  // ----- the sender's side -----

  function Running(): Timer { Timer(true, 1000, 1000, 1000) }

  function Off(): Timer { Timer(false, 1000, 1000, 1000) }

  function Opened(): Sender {
    Sender(0, false, true, false, false, [], [SYN], 0, 1, 1, 1, 0, Running())
  }

  function Established(): Sender {
    Sender(0, false, true, false, false, [], [], 0, 0, 1, 1000, 0, Off())
  }

  function Queueing(): Sender {
    Established().(unsent := [Queued(DATA, false)], unsentSeqnos := 1, nextSeqno := 2)
  }

  function Sent(): Sender {
    Established().(unacked := [DATA], unackedSeqnos := 1, nextSeqno := 2, timer := Running())
  }

  function Finishing(): Sender {
    Sent().(streamFinished := true)
  }

  function Finished(): Sender {
    Finishing().(finUnsent := false, unacked := [DATA, FIN], unackedSeqnos := 2, nextSeqno := 3)
  }

  function Misled(): Sender {
    Finished().(unacked := [FIN], unackedSeqnos := 1)
  }

  lemma First(m: Segment)
    ensures [] + [m] == [m]
  {
  }

  lemma SendsSyn()
    ensures MaybeSend(NewSender(0, 1000)) == (Opened(), Some(SYN))
  {
    hide Low32, Low64, Wrap32.Wrap, Wrap32.Unwrap;
    SmallSums();
    SmallNumbers(0, 0);
    First(SYN);
    assert NewSender(0, 1000).InFlight() == 0;
  }

  lemma HearsSyn()
    ensures Receive(Opened(), Ack(Some(1), 1000)) == Established()
  {
    hide Low32, Low64, Wrap32.Wrap, Wrap32.Unwrap, Receive;
    SmallSums();
    SmallNumbers(1, 1);
    SmallNumbers(0, 1);
    var t := Opened().(window := 1000);
    HeededAck(Opened(), Ack(Some(1), 1000));
    assert Acked(t, SYN, 1) && [SYN][1..] == [] && [SYN][..1] == [SYN];
    assert AckedCount(t, [], 1) == 0 && AckedCount(t, [SYN], 1) == 1;
    TotalOfOne(SYN);
    hide AckedCount, Total;
    assert Drop(t, 1) == Established();
  }

  lemma PushesData()
    ensures Push(Established(), Stream(1, [7], 0, false, false)) == (Queueing(), Stream(1, [7], 1, false, false))
  {
    hide Low32, Low64, Wrap32.Wrap, Wrap32.Unwrap;
    SmallSums();
    SmallNumbers(1, 0);
    var s, out, rest := Established(), Stream(1, [7], 0, false, false), Stream(1, [7], 1, false, false);
    assert s.InFlight() == 0 && s.MaySend() && out.View()[..1] == [7] && rest.View() == [];
    assert NextSegment(s, out) == DATA;
    assert [] + [Queued(DATA, false)] == [Queued(DATA, false)];
    assert Cut(s, out) == (Queueing(), rest);
    hide Cut, NextSegment;
    assert CutAll(Queueing(), rest) == (Queueing(), rest);
    assert CutAll(s, out) == (Queueing(), rest);
    hide CutAll;
    NoFinAttached(Queueing(), rest);
  }

  lemma SendsData()
    ensures MaybeSend(Queueing()) == (Sent(), Some(DATA))
  {
    hide Low32, Low64;
    SmallSums();
    assert Queueing().unsent[1..] == [] && [] + [DATA] == [DATA];
  }

  lemma PushesNothing()
    ensures Push(Sent(), Stream(1, [7], 1, true, false)) == (Finishing(), Stream(1, [7], 1, true, false))
  {
    hide Low32, Low64;
    SmallSums();
    var rest := Stream(1, [7], 1, true, false);
    assert CutAll(Sent(), rest) == (Sent(), rest);
  }

  lemma SendsFin()
    ensures MaybeSend(Finishing()) == (Finished(), Some(FIN))
  {
    hide Low32, Low64, Wrap32.Wrap, Wrap32.Unwrap;
    SmallSums();
    SmallNumbers(2, 0);
    assert Finishing().InFlight() == 1;
    assert [DATA] + [FIN] == [DATA, FIN];
  }

  lemma HearsTooMuch()
    ensures Receive(Finished(), Ack(Some(2), 1000)) == Misled()
  {
    hide Low32, Low64, Wrap32.Wrap, Wrap32.Unwrap;
    SmallSums();
    SmallNumbers(2, 3);
    SmallNumbers(1, 3);
    var s := Finished();
    assert s.unacked[1..] == [FIN];
    assert !Acked(s, FIN, 2) && Acked(s, DATA, 2);
    assert AckedCount(s, [FIN], 2) == 0 && AckedCount(s, s.unacked, 2) == 1;
    assert s.unacked[..1] == [DATA];
    TotalOfOne(DATA);
  }

  // ----- the receiver's side -----

  function Listening(): Receiver { NewReceiver(1000) }

  function Synchronized(): Receiver {
    Receiver(Some(0), 0, false, false, Start(1000))
  }

  function ClosedEarly(): Receiver {
    Receiver(Some(0), 0, true, true, Assembly(map[], true, Stream(1000, [], 0, true, false)))
  }

  lemma TakesSyn()
    ensures Received(Listening(), SYN) == Synchronized()
    ensures Acknowledge(Synchronized()) == Ack(Some(1), 1000)
  {
    hide Low32, Low64, Wrap32.Wrap, Wrap32.Unwrap;
    SmallSums();
    SmallNumbers(1, 0);
    hide Insert;
    assert StreamIndex(Listening(), SYN) == 0;
    R.NothingArrives(Start(1000), 0, false);
  }

  lemma TakesFin()
    ensures Received(Synchronized(), FIN) == ClosedEarly()
    ensures Acknowledge(ClosedEarly()) == Ack(Some(2), 1000)
  {
    hide Low32, Low64, Wrap32.Wrap, Wrap32.Unwrap;
    SmallSums();
    SmallNumbers(2, 0);
    hide Insert;
    assert StreamIndex(Synchronized(), FIN) == 1;
    R.NothingArrives(Start(1000), 1, true);
  }

  // ----- the run -----

  function Connected(): C.System {
    C.System(S.World(Established(), Fresh(1), 0), Synchronized(), {SYN}, {Ack(Some(1), 1000)})
  }

  function DataLost(): C.System {
    C.System(S.World(Sent(), Stream(1, [7], 1, false, false), 0), Synchronized(), {SYN, DATA}, {Ack(Some(1), 1000)})
  }

  function FinSent(): C.System {
    C.System(S.World(Finished(), Stream(1, [7], 1, true, false), 0), Synchronized(), {SYN, DATA, FIN}, {Ack(Some(1), 1000)})
  }

  function Lost(): C.System {
    C.System(S.World(Misled(), Stream(1, [7], 1, true, false), 0), ClosedEarly(), {SYN, DATA, FIN}, {Ack(Some(1), 1000), Ack(Some(2), 1000)})
  }

  lemma Connects()
    ensures Leads(C.Begin(0, 1000, 1, 1000), Connected())
  {
    SendsSyn();
    TakesSyn();
    HearsSyn();
    hide MaybeSend, Received, Acknowledge, Receive, Leads;
    var c := C.Begin(0, 1000, 1, 1000);
    LeadsNowhere(c);
    var c1 := c.(sender := c.sender.(s := Opened()), segments := {SYN});
    assert {} + {SYN} == {SYN};
    OneMore(c, c, C.Transmit, c1);
    var c2 := c1.(receiver := Synchronized());
    OneMore(c, c1, C.DeliverSegment(SYN), c2);
    var c3 := c2.(acks := {Ack(Some(1), 1000)});
    assert {} + {Ack(Some(1), 1000)} == c3.acks;
    OneMore(c, c2, C.SendAck, c3);
    OneMore(c, c3, C.DeliverAck(Ack(Some(1), 1000)), Connected());
  }

  lemma LosesData()
    ensures Leads(Connected(), DataLost())
  {
    PushesData();
    SendsData();
    hide MaybeSend, Push, Leads;
    var c := Connected();
    LeadsNowhere(c);
    var c1 := c.(sender := c.sender.(out := Stream(1, [7], 0, false, false)));
    assert Fresh(1).Push([7]) == c1.sender.out;
    OneMore(c, c, C.Local(S.Write([7])), c1);
    var c2 := c1.(sender := S.World(Queueing(), Stream(1, [7], 1, false, false), 0));
    OneMore(c, c1, C.Local(S.PushAll), c2);
    assert {SYN} + {DATA} == {SYN, DATA};
    OneMore(c, c2, C.Transmit, DataLost());
  }

  lemma SendsTheEnd()
    ensures Leads(DataLost(), FinSent())
  {
    PushesNothing();
    SendsFin();
    hide MaybeSend, Push, Leads;
    var c := DataLost();
    LeadsNowhere(c);
    var c1 := c.(sender := c.sender.(out := Stream(1, [7], 1, true, false)));
    OneMore(c, c, C.Local(S.Finish), c1);
    var c2 := c1.(sender := c1.sender.(s := Finishing()));
    OneMore(c, c1, C.Local(S.PushAll), c2);
    assert {SYN, DATA} + {FIN} == {SYN, DATA, FIN};
    OneMore(c, c2, C.Transmit, FinSent());
  }

  lemma Misleads()
    ensures Leads(FinSent(), Lost())
  {
    TakesFin();
    HearsTooMuch();
    hide Received, Acknowledge, Receive, Leads;
    var c := FinSent();
    LeadsNowhere(c);
    var c1 := c.(receiver := ClosedEarly());
    OneMore(c, c, C.DeliverSegment(FIN), c1);
    var c2 := c1.(acks := Lost().acks);
    assert {Ack(Some(1), 1000)} + {Ack(Some(2), 1000)} == c2.acks;
    OneMore(c, c1, C.SendAck, c2);
    OneMore(c, c2, C.DeliverAck(Ack(Some(2), 1000)), Lost());
  }

  /** Without usable FIN segments, bytes can be lost: from the start a state is reached in which the byte that
      the sender has taken is neither written by the receiver nor carried by any outstanding segment. */
  lemma ByteIsLost()
    ensures Leads(C.Begin(0, 1000, 1, 1000), Lost())
    ensures var c := Lost();
      && c.sender.out.pushed == [7] && c.sender.out.popped == 1
      && c.receiver.assembly.First() == 0 && c.receiver.assembly.out.closed
      && forall k: nat :: !C.Carries(c.sender.s, k, 0, 7)
  {
    Connects();
    LosesData();
    SendsTheEnd();
    Misleads();
    assert Outstanding(Misled()) == [FIN];
    hide Leads;
    LeadsThrough(DataLost(), FinSent(), Lost());
    LeadsThrough(Connected(), DataLost(), Lost());
    LeadsThrough(C.Begin(0, 1000, 1, 1000), Connected(), Lost());
  }
}
