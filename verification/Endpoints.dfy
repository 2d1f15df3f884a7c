/** The connection on the objects themselves: a sender with its stream, a receiver with its reassembler and
    stream, and a network that keeps every message ever sent. Any run of `Connection` is what the code does. */
module Endpoints {
  import opened Words
  import opened ByteStreams
  import opened Reassembly
  import opened Reassemblers
  import opened TcpMessages
  import opened TcpReceivers
  import opened TcpSenders
  import M = SenderModel
  import Q = SenderInvariant
  import S = SenderRuns
  import C = Connection
  import B = Boundaries

  class Endpoints {
    const sender: TCPSender
    const outbound: ByteStream
    const receiver: TCPReceiver
    const reassembler: Reassembler
    const inbound: ByteStream
    var segments: set<Segment>
    var acks: set<Ack>
    ghost var zeros: nat

    ghost predicate Valid()
      reads this, sender, sender.timer, outbound, outbound.buffer, outbound.buffer.storage
      reads receiver, reassembler, reassembler.bitmap, inbound, inbound.buffer, inbound.buffer.storage
    {
      && outbound.Valid() && receiver.Valid(reassembler, inbound)
      && outbound != inbound && outbound.buffer != inbound.buffer && outbound.buffer.storage != inbound.buffer.storage
    }

    ghost function Value(): C.System
      requires Valid()
      reads this, sender, sender.timer, outbound, outbound.buffer, outbound.buffer.storage
      reads receiver, reassembler, reassembler.bitmap, inbound, inbound.buffer, inbound.buffer.storage
    {
      C.System(S.World(sender.Value(), outbound.State(), zeros), receiver.Value(reassembler, inbound), segments, acks)
    }

    constructor (isn: U32, initialRto: U64, sendCapacity: nat, receiveCapacity: nat)
      ensures Valid() && Value() == C.Begin(isn, initialRto, sendCapacity, receiveCapacity)
      ensures fresh(sender) && fresh(sender.timer) && fresh(outbound) && fresh(outbound.buffer) && fresh(outbound.buffer.storage)
      ensures fresh(receiver) && fresh(reassembler) && fresh(reassembler.bitmap)
      ensures fresh(inbound) && fresh(inbound.buffer) && fresh(inbound.buffer.storage)
    {
      var s := new TCPSender(initialRto, isn);
      var output := new ByteStream(sendCapacity);
      var input := new ByteStream(receiveCapacity);
      var assembler := new Reassembler(input);
      var r := new TCPReceiver(assembler, input);
      sender, outbound, receiver, reassembler, inbound := s, output, r, assembler, input;
      segments, acks, zeros := {}, {}, 0;
    }

    /** A call of the sender, or the application writing or closing. */
    method Call(e: S.Event)
      requires Valid() && S.Holds(Value().sender) && S.InOrder(Value().sender, e) && (e.Write? || e.Finish? || e.PushAll? || e.Wait?)
      modifies sender, sender.timer, outbound, outbound.buffer, outbound.buffer.storage
      ensures Valid() && outbound.buffer.storage == old(outbound.buffer.storage)
      ensures var c := old(Value()); Value() == c.(sender := S.After(c.sender, e))
    {
      hide M.Push, M.Tick, TCPReceiver.Valid, TCPReceiver.Value, ByteStream.Valid, ByteStream.State, S.Holds;
      match e
      case Write(data) => outbound.Push(data);
      case Finish => outbound.Close();
      case PushAll => sender.Push(outbound);
      case Wait(ms) => sender.Tick(ms);
    }

    /** `maybe_send`, into the network. */
    method Transmit()
      requires Valid()
      modifies this`segments, sender, sender.timer
      ensures Valid()
      ensures var c := old(Value());
        var (s, sent) := M.MaybeSend(c.sender.s);
        Value() == c.(sender := c.sender.(s := s), segments := c.segments + if sent.Some? then {sent.value} else {})
    {
      hide M.MaybeSend, TCPReceiver.Valid, TCPReceiver.Value, ByteStream.Valid, ByteStream.State;
      var sent := sender.MaybeSend();
      segments := segments + if sent.Some? then {sent.value} else {};
    }

    method Deliver(m: Segment)
      requires Valid() && Handled(receiver.Value(reassembler, inbound), Arrives(m))
      modifies receiver, reassembler, reassembler.bitmap, inbound, inbound.buffer, inbound.buffer.storage
      ensures Valid() && inbound.buffer.storage == old(inbound.buffer.storage)
      ensures var c := old(Value()); Value() == c.(receiver := Received(c.receiver, m))
    {
      hide Received, Handled, TCPReceiver.Valid, TCPReceiver.Value, ByteStream.Valid, ByteStream.State;
      receiver.Receive(m, reassembler, inbound);
    }

    method ReadInbound(len: nat)
      requires Valid()
      modifies inbound, inbound.buffer
      ensures Valid() && inbound.buffer.storage == old(inbound.buffer.storage)
      ensures var c := old(Value()); Value() == c.(receiver := Read(c.receiver, len))
    {
      hide Reassembler.Valid, Reassembler.Value, ByteStream.Valid, ByteStream.State, Assembly.Valid;
      reassembler.ValueIs(inbound);
      reassembler.LetRead(len, inbound);
    }

    method SendAck()
      requires Valid()
      modifies this`acks
      ensures Valid()
      ensures var c := old(Value()); Value() == c.(acks := c.acks + {Acknowledge(c.receiver)})
    {
      hide Acknowledge, TCPReceiver.Valid, TCPReceiver.Value, ByteStream.Valid, ByteStream.State;
      var a := receiver.Send(reassembler, inbound);
      acks := acks + {a};
    }

    method Hear(a: Ack)
      requires Valid() && S.Holds(Value().sender) && S.InOrder(Value().sender, S.Hear(a))
      modifies this`zeros, sender, sender.timer
      ensures Valid()
      ensures var c := old(Value()); Value() == c.(sender := S.After(c.sender, S.Hear(a)))
    {
      hide M.Receive, TCPReceiver.Valid, TCPReceiver.Value, ByteStream.Valid, ByteStream.State, S.Holds, S.InOrder;
      TimerIsOn(Value().sender);
      sender.Receive(a);
      zeros := zeros + Count(a.windowSize == 0);
    }

    /** One step of the connection. */
    method Take(step: C.Step)
      requires Valid() && B.Sound(Value()) && C.Enabled(Value(), step) && inbound.capacity < TWO64 / 8
      modifies this, sender, sender.timer, outbound, outbound.buffer, outbound.buffer.storage
      modifies receiver, reassembler, reassembler.bitmap, inbound, inbound.buffer, inbound.buffer.storage
      ensures Valid() && outbound.buffer.storage == old(outbound.buffer.storage) && inbound.buffer.storage == old(inbound.buffer.storage)
      ensures Value() == C.Next(old(Value()), step)
    {
      hide Valid, Value, B.Sound, S.Holds, S.InOrder, S.After, C.Enabled, Handled, Received, Read, Acknowledge, M.MaybeSend;
      StepIsAllowed(Value(), step);
      CapacityIs();
      match step
      case Local(e) => Call(e);
      case Transmit => Transmit();
      case DeliverSegment(m) => Deliver(m);
      case SendAck => SendAck();
      case DeliverAck(a) => Hear(a);
      case ReadInbound(len) => ReadInbound(len);
    }

    lemma CapacityIs()
      requires Valid()
      ensures Value().receiver.assembly.out.capacity == inbound.capacity
      ensures Value().receiver == receiver.Value(reassembler, inbound)
    {
      hide Reassembler.RingHolds, Reassembler.Unallocated;
    }

    /** A whole run. */
    method Replay(path: seq<C.Step>, ghost end: C.System)
      requires Valid() && B.Sound(Value()) && C.IsRun(Value(), path, end) && inbound.capacity < TWO64 / 8
      modifies this, sender, sender.timer, outbound, outbound.buffer, outbound.buffer.storage
      modifies receiver, reassembler, reassembler.bitmap, inbound, inbound.buffer, inbound.buffer.storage
      ensures Valid() && Value() == end
    {
      hide Valid, Value, B.Sound, C.Enabled, C.Next;
      ghost var output, input := outbound.buffer.storage, inbound.buffer.storage;
      assert path[0..] == path;
      for i := 0 to |path|
        invariant Valid() && B.Sound(Value()) && C.IsRun(Value(), path[i..], end)
        invariant outbound.buffer.storage == output && inbound.buffer.storage == input
      {
        assert path[i..][0] == path[i] && path[i..][1..] == path[i + 1..];
        B.StepStaysSound(Value(), path[i]);
        Take(path[i]);
      }
    }
  }

  lemma TimerIsOn(w: S.World)
    requires S.Holds(w)
    ensures w.s.unacked != [] ==> w.s.timer.isOn
  {
    hide Q.Tiled, Q.Counted, Q.WindowInv, Q.Pow2;
  }

  lemma StepIsAllowed(c: C.System, step: C.Step)
    requires B.Sound(c) && C.Enabled(c, step)
    ensures S.Holds(c.sender)
    ensures step.Local? ==> S.InOrder(c.sender, step.e) && (step.e.Write? || step.e.Finish? || step.e.PushAll? || step.e.Wait?)
    ensures step.Transmit? ==> S.After(c.sender, S.SendOne) == c.sender.(s := M.MaybeSend(c.sender.s).0)
    ensures step.DeliverAck? ==> S.InOrder(c.sender, S.Hear(step.a))
    ensures step.DeliverSegment? && c.receiver.assembly.out.capacity < TWO64 / 8 ==> Handled(c.receiver, Arrives(step.m))
  {
    var cuts :| B.CutsInv(c, cuts);
    if step.DeliverSegment? && c.receiver.assembly.out.capacity < TWO64 / 8 {
      B.ArrivalIsHandled(c, step.m, cuts);
    }
    hide S.Holds, Handled, B.CutsInv, M.MaybeSend;
  }

  /** End-to-end safety of the code: the objects, driven by any run with loss, repetition and reordering, write
      to the inbound stream a prefix of what the sender has popped from the outbound one, and every call on
      the way meets its precondition. */
  method Run(isn: U32, initialRto: U64, sendCapacity: nat, receiveCapacity: nat, path: seq<C.Step>, ghost end: C.System)
      returns (p: Endpoints)
    requires C.IsRun(C.Begin(isn, initialRto, sendCapacity, receiveCapacity), path, end) && receiveCapacity < TWO64 / 8
    ensures p.Valid() && p.Value() == end
    ensures p.outbound.bytesPopped <= |p.outbound.State().pushed|
    ensures p.inbound.State().pushed <= p.outbound.State().pushed[..p.outbound.bytesPopped]
  {
    B.BeginsSound(isn, initialRto, sendCapacity, receiveCapacity);
    C.DeliversPrefix(isn, initialRto, sendCapacity, receiveCapacity, path, end);
    hide C.IsRun, B.Sound;
    p := new Endpoints(isn, initialRto, sendCapacity, receiveCapacity);
    p.CapacityIs();
    p.Replay(path, end);
    hide Reassembler.RingHolds, Reassembler.Unallocated;
  }
}
