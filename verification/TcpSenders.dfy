/** The sender of src/tcp_sender.cc as a mutable object, proved to take the steps of `SenderModel`. */
module TcpSenders {
  import opened Words
  import Wrap32
  import opened ByteStreams
  import opened TcpMessages
  import M = SenderModel

  class RetransmissionTimer {
    var isOn: bool
    const initialRto: U64
    var rto: U64
    var timeout: U64

    constructor (initial: U64)
      ensures Value() == M.Timer(false, initial, initial, initial)
    {
      isOn, initialRto, rto, timeout := false, initial, initial, initial;
    }

    ghost function Value(): M.Timer
      reads this
    {
      M.Timer(isOn, initialRto, rto, timeout)
    }

    method Tick(ms: nat)
      modifies this
      ensures Value() == old(Value()).Tick(ms)
    {
      timeout := if timeout <= ms then 0 else timeout - ms;
    }

    predicate HasExpired()
      requires isOn
      reads this
    {
      timeout == 0
    }

    method DoubleRto()
      requires isOn
      modifies this
      ensures Value() == old(Value()).DoubleRto()
    {
      rto := Low64(rto * 2);
    }

    method ResetRto()
      requires isOn
      modifies this
      ensures Value() == old(Value()).ResetRto()
    {
      rto := initialRto;
    }

    method Start()
      modifies this
      ensures Value() == old(Value()).Start()
    {
      isOn := true;
      timeout := rto;
    }

    method Stop()
      modifies this
      ensures Value() == old(Value()).Stop()
    {
      isOn := false;
    }
  }

  class TCPSender {
    const isn: U32
    var synUnsent: bool
    var finUnsent: bool
    var streamFinished: bool
    var probe: bool
    var unsentMsgs: seq<M.Queued>
    var unackedMsgs: seq<Segment>
    var unsentSeqnos: U32
    var unackedSeqnos: U32
    var nextSeqno: U64
    var windowSize: U16
    var retransmissions: U32
    const timer: RetransmissionTimer

    ghost function Value(): M.Sender
      reads this, timer
    {
      M.Sender(isn, synUnsent, finUnsent, streamFinished, probe, unsentMsgs, unackedMsgs, unsentSeqnos, unackedSeqnos,
               nextSeqno, windowSize, retransmissions, timer.Value())
    }

    constructor (initialRto: U64, fixedIsn: U32)
      ensures Value() == M.NewSender(fixedIsn, initialRto) && fresh(timer)
    {
      isn := fixedIsn;
      synUnsent, finUnsent, streamFinished, probe := true, true, false, false;
      unsentMsgs, unackedMsgs, unsentSeqnos, unackedSeqnos := [], [], 0, 0;
      nextSeqno, windowSize, retransmissions := 0, 1, 0;
      timer := new RetransmissionTimer(initialRto);
    }

    function SequenceNumbersInFlight(): (n: nat)
      reads this, timer
      ensures n == Value().InFlight()
    {
      Low32(unsentSeqnos + unackedSeqnos)
    }

    method MaybeSend() returns (sent: Option<Segment>)
      modifies this, timer
      ensures (Value(), sent) == M.MaybeSend(old(Value()))
    {
      hide M.SendFlags, M.SendFirst;
      if unsentMsgs == [] {
        sent := SendFlags();
      } else {
        sent := SendFirst();
      }
    }

    method StartTimer()
      modifies timer
      ensures Value() == old(Value()).(timer := old(Value()).timer.StartIfOff())
    {
      if !timer.isOn {
        timer.Start();
      }
    }

    method SendFlags() returns (sent: Option<Segment>)
      modifies this, timer
      ensures (Value(), sent) == M.SendFlags(old(Value()))
    {
      hide Wrap32.Wrap, Low32, Low64, M.Timer.StartIfOff, M.Timer.Start;
      var canSendFin := finUnsent && streamFinished;
      if (synUnsent || canSendFin) && ((windowSize == 0 && probe) || windowSize > Low32(unackedSeqnos + unsentSeqnos)) {
        var msg := Segment(Wrap32.Wrap(nextSeqno, isn), synUnsent, [], canSendFin);
        nextSeqno := Low64(nextSeqno + (Count(synUnsent) + Count(canSendFin)));
        unackedSeqnos := Low32(unackedSeqnos + (Count(synUnsent) + Count(canSendFin)));
        unackedMsgs := unackedMsgs + [msg];
        synUnsent := false;
        finUnsent := !canSendFin;
        probe := probe && windowSize != 0;
        StartTimer();
        return Some(msg);
      }
      return None;
    }

    method SendFirst() returns (sent: Option<Segment>)
      requires unsentMsgs != []
      modifies this, timer
      ensures (Value(), sent) == M.SendFirst(old(Value()))
    {
      hide Low32;
      var wrapper := unsentMsgs[0];
      var msg := wrapper.msg;
      if synUnsent {
        msg := msg.(syn := true);
        synUnsent := false;
      }
      var seqLength := msg.Length();
      unsentSeqnos := Low32(unsentSeqnos - seqLength);
      unackedSeqnos := Low32(unackedSeqnos + seqLength);
      unsentMsgs := unsentMsgs[1..];
      if wrapper.retransmitted {
        unackedMsgs := [msg] + unackedMsgs;
      } else {
        unackedMsgs := unackedMsgs + [msg];
      }
      StartTimer();
      sent := Some(msg);
    }

    method Push(outbound: ByteStream)
      requires outbound.Valid()
      modifies this, outbound, outbound.buffer
      ensures outbound.Valid() && outbound.buffer.storage == old(outbound.buffer.storage)
      ensures (Value(), outbound.State()) == M.Push(old(Value()), old(outbound.State()))
    {
      hide M.AttachFin;
      CutLoop(outbound);
      FinishPush(outbound.IsFinished());
    }

    /** The segmentation loop: a view of the stream taken once, and an index into it. */
    method CutLoop(outbound: ByteStream)
      requires outbound.Valid()
      modifies this, outbound, outbound.buffer
      ensures outbound.Valid() && outbound.buffer.storage == old(outbound.buffer.storage)
      ensures (Value(), outbound.State()) == M.CutAll(old(Value()), old(outbound.State()))
    {
      hide M.CutAll, M.Cut, M.Queueing, Low32, Low64, Wrap32.Wrap, ByteStream.Valid, ByteStream.State;
      var data := outbound.Peek();
      var dataIndex := 0;
      ghost var s, out, all := Value(), outbound.State(), M.CutAll(Value(), outbound.State());
      while dataIndex < |data|
        invariant outbound.Valid() && outbound.buffer.storage == old(outbound.buffer.storage)
        invariant Value() == s && outbound.State() == out
        invariant out.View() == Rest(data, dataIndex)
        invariant M.CutAll(s, out) == all
        decreases |data| - dataIndex
      {
        if !((windowSize == 0 && probe) || windowSize > Low32(unackedSeqnos + unsentSeqnos)) {
          break;
        }
        CutIs(s, out, data, dataIndex, Min(s.Room(), M.MAX_PAYLOAD_SIZE));
        var dataLength := CutOne(data, dataIndex, outbound);
        s, out := Value(), outbound.State();
        dataIndex := dataIndex + dataLength;
      }
      CutAllStops(s, out);
    }

    /** One turn of the loop. */
    method CutOne(data: seq<Byte>, dataIndex: nat, outbound: ByteStream) returns (dataLength: nat)
      requires outbound.Valid() && dataIndex < |data| && outbound.State().View() == data[dataIndex..] && Value().MaySend()
      modifies this, outbound, outbound.buffer
      ensures outbound.Valid() && outbound.buffer.storage == old(outbound.buffer.storage)
      ensures dataLength == Min(old(Value()).Room(), M.MAX_PAYLOAD_SIZE)
      ensures (Value(), outbound.State()) == M.Cut(old(Value()), old(outbound.State()))
    {
      hide M.Cut, M.Queueing, Low32, Low64, Wrap32.Wrap;
      dataLength := Min(if windowSize == 0 then 1 else windowSize - Low32(unackedSeqnos + unsentSeqnos), M.MAX_PAYLOAD_SIZE);
      CutIs(Value(), outbound.State(), data, dataIndex, dataLength);
      var payload := data[dataIndex..Min(dataIndex + dataLength, |data|)];
      outbound.Pop(dataLength);
      Queue(Segment(Wrap32.Wrap(nextSeqno, isn), false, payload, false));
    }

    /** `emplace_back` on the unsent queue, with the counters. */
    method Queue(msg: Segment)
      modifies this
      ensures Value() == M.Queueing(old(Value()), msg)
    {
      hide Low32, Low64;
      unsentMsgs := unsentMsgs + [M.Queued(msg, false)];
      unsentSeqnos := Low32(unsentSeqnos + msg.Length());
      nextSeqno := Low64(nextSeqno + msg.Length());
      probe := probe && windowSize != 0;
    }

    method FinishPush(finished: bool)
      modifies this
      ensures Value() == M.AttachFin(old(Value()), finished)
    {
      hide Low32, Low64;
      streamFinished := finished;
      var fin := finUnsent && streamFinished && windowSize >= Low32(unackedSeqnos + unsentSeqnos + 1);
      if unsentMsgs != [] {
        var k := |unsentMsgs| - 1;
        unsentMsgs := unsentMsgs[k := unsentMsgs[k].(msg := unsentMsgs[k].msg.(fin := fin))];
        finUnsent := finUnsent && !fin;
        unsentSeqnos := Low32(unsentSeqnos + Count(fin));
        nextSeqno := Low64(nextSeqno + Count(fin));
      }
    }

    method SendEmptyMessage() returns (msg: Segment)
      ensures msg == M.EmptyMessage(Value())
    {
      msg := Segment(Wrap32.Wrap(nextSeqno, isn), false, [], false);
    }

    method Receive(msg: Ack)
      requires unackedMsgs != [] ==> timer.isOn
      modifies this, timer
      ensures Value() == M.Receive(old(Value()), msg)
    {
      hide Wrap32.Unwrap, M.Drop, M.AckedCount;
      windowSize := msg.windowSize;
      probe := msg.windowSize == 0;
      if msg.ackno.None? {
        return;
      }
      var absoluteAckno := Wrap32.Unwrap(msg.ackno.value, isn, nextSeqno);
      if absoluteAckno > nextSeqno {
        return;
      }
      DropAcked(absoluteAckno);
    }

    method DropAcked(absoluteAckno: U64)
      requires unackedMsgs != [] ==> timer.isOn
      modifies this, timer
      ensures Value() == M.Drop(old(Value()), M.AckedCount(old(Value()), old(unackedMsgs), absoluteAckno))
    {
      hide Wrap32.Unwrap, M.AckedCount, Low32, M.Total;
      var receiveAck := DropLoop(absoluteAckno);
      if receiveAck {
        timer.ResetRto();
        retransmissions := 0;
        if unackedMsgs == [] {
          timer.Stop();
        } else {
          timer.Start();
        }
      }
    }

    /** The acknowledgement loop: pops acknowledged segments from the front until one is not. */
    method DropLoop(absoluteAckno: U64) returns (receiveAck: bool)
      modifies this`unackedMsgs, this`unackedSeqnos
      ensures var n := M.AckedCount(old(Value()), old(unackedMsgs), absoluteAckno);
        && unackedMsgs == old(unackedMsgs)[n..]
        && unackedSeqnos == Low32(old(unackedSeqnos) - M.Total(old(unackedMsgs)[..n]))
        && (receiveAck <==> n > 0)
        && (n == 0 ==> unackedMsgs == old(unackedMsgs) && unackedSeqnos == old(unackedSeqnos))
    {
      hide Wrap32.Unwrap, M.Acked, M.AckedCount, Low32, M.Total;
      ghost var s, all, n := Value(), unackedMsgs, 0;
      receiveAck := false;
      NothingDropped(s, all, absoluteAckno);
      while unackedMsgs != []
        invariant n <= |all| && unackedMsgs == all[n..]
        invariant M.AckedCount(s, all, absoluteAckno) == n + M.AckedCount(s, all[n..], absoluteAckno)
        invariant unackedSeqnos == Low32(s.unackedSeqnos - M.Total(all[..n]))
        invariant receiveAck <==> n > 0
        invariant n == 0 ==> unackedMsgs == all && unackedSeqnos == s.unackedSeqnos
        decreases |unackedMsgs|
      {
        CountSoFar(s, all, n, absoluteAckno);
        AckedSame(s, Value(), unackedMsgs[0], absoluteAckno);
        if !IsAcked(unackedMsgs[0], absoluteAckno) {
          break;
        }
        TotalGrows(all, n);
        Low32OfDifference(s.unackedSeqnos, M.Total(all[..n]), all[n].Length());
        PopFront();
        receiveAck := true;
        n := n + 1;
      }
      CountSoFar(s, all, n, absoluteAckno);
    }

    method PopFront()
      requires unackedMsgs != []
      modifies this`unackedMsgs, this`unackedSeqnos
      ensures unackedMsgs == old(unackedMsgs)[1..] && unackedSeqnos == Low32(old(unackedSeqnos) - old(unackedMsgs)[0].Length())
    {
      unackedSeqnos := Low32(unackedSeqnos - unackedMsgs[0].Length());
      unackedMsgs := unackedMsgs[1..];
    }

    predicate IsAcked(m: Segment, ackno: U64)
      reads this, timer
      ensures IsAcked(m, ackno) == M.Acked(Value(), m, ackno)
    {
      Low64(Wrap32.Unwrap(m.seqno, isn, nextSeqno) + m.Length()) <= ackno
    }

    method Tick(ms: nat)
      requires M.Expires(Value(), ms) ==> unackedMsgs != []
      modifies this, timer
      ensures Value() == M.Tick(old(Value()), ms)
    {
      if timer.isOn {
        timer.Tick(ms);
        if timer.HasExpired() {
          var msg := unackedMsgs[0];
          var seqLength := msg.Length();
          unackedSeqnos := Low32(unackedSeqnos - seqLength);
          unsentSeqnos := Low32(unsentSeqnos + seqLength);
          unackedMsgs := unackedMsgs[1..];
          unsentMsgs := [M.Queued(msg, true)] + unsentMsgs;
          if windowSize != 0 {
            retransmissions := Low32(retransmissions + 1);
            timer.DoubleRto();
          }
          timer.Start();
        }
      }
    }
  }

  lemma CountSoFar(s: M.Sender, all: seq<Segment>, n: nat, ackno: U64)
    requires n <= |all|
    ensures M.AckedCount(s, all[n..], ackno)
      == if n < |all| && M.Acked(s, all[n], ackno) then 1 + M.AckedCount(s, all[n + 1..], ackno) else 0
    ensures all[0..] == all && all[..0] == []
  {
    if n < |all| {
      assert all[n..][1..] == all[n + 1..];
    }
  }

  lemma AckedSame(s: M.Sender, t: M.Sender, m: Segment, ackno: U64)
    requires s.isn == t.isn && s.nextSeqno == t.nextSeqno
    ensures M.Acked(s, m, ackno) <==> M.Acked(t, m, ackno)
  {
  }

  lemma NothingDropped(s: M.Sender, all: seq<Segment>, ackno: U64)
    ensures all[0..] == all && all[..0] == []
    ensures Low32(s.unackedSeqnos - M.Total(all[..0])) == s.unackedSeqnos
  {
  }

  /** What is left of the view taken at the start; an index past the end leaves nothing. */
  function Rest(data: seq<Byte>, i: nat): seq<Byte> {
    if i < |data| then data[i..] else []
  }

  lemma CutIs(s: M.Sender, out: Stream, data: seq<Byte>, i: nat, len: nat)
    requires out.Valid() && i < |data| && out.View() == data[i..] && s.MaySend()
    requires len == Min(s.Room(), M.MAX_PAYLOAD_SIZE)
    ensures len > 0
    ensures var m := Segment(Wrap32.Wrap(s.nextSeqno, s.isn), false, data[i..Min(i + len, |data|)], false);
      M.Cut(s, out) == (M.Queueing(s, m), out.Pop(len))
    ensures out.Pop(len).View() == Rest(data, i + len)
    ensures M.CutAll(s, out) == M.CutAll(M.Cut(s, out).0, M.Cut(s, out).1)
  {
    hide Wrap32.Wrap, Low32, Low64, M.Queueing;
    assert data[i..Min(i + len, |data|)] == out.View()[..Min(len, |out.View()|)];
  }

  lemma CutAllStops(s: M.Sender, out: Stream)
    requires out.Valid() && (out.View() == [] || !s.MaySend())
    ensures M.CutAll(s, out) == (s, out)
  {
  }

  lemma {:induction false} TotalGrows(all: seq<Segment>, n: nat)
    requires n < |all|
    ensures M.Total(all[..n + 1]) == M.Total(all[..n]) + all[n].Length()
    decreases n
  {
    if n == 0 {
      assert all[..1][1..] == [];
    } else {
      TotalGrows(all[1..], n - 1);
      assert all[..n + 1][1..] == all[1..][..n] && all[..n][1..] == all[1..][..n - 1];
    }
  }

  lemma Low32OfDifference(x: int, a: int, b: int)
    ensures Low32(Low32(x - a) - b) == Low32(x - (a + b))
  {
    Low32OfSum(x - a, -b);
  }
}
