/** The sending half (src/tcp_sender.cc, src/tcp_sender.hh) as value-level steps. Every counter keeps
    its C++ width. */
module SenderModel {
  import opened Words
  import Wrap32
  import opened ByteStreams
  import opened TcpMessages

  const MAX_PAYLOAD_SIZE: nat := 1000

  /** The retransmission timer. */
  datatype Timer = Timer(isOn: bool, initialRto: U64, rto: U64, timeout: U64) {
    function Tick(ms: nat): Timer {
      this.(timeout := if timeout <= ms then 0 else timeout - ms)
    }

    function DoubleRto(): Timer {
      this.(rto := Low64(rto * 2))
    }

    function ResetRto(): Timer {
      this.(rto := initialRto)
    }

    function Start(): Timer {
      this.(isOn := true, timeout := rto)
    }

    function StartIfOff(): Timer {
      if isOn then this else Start()
    }

    function Stop(): Timer {
      this.(isOn := false)
    }
  }

  /** A segment waiting to be sent; the flag says whether it has been sent before. */
  datatype Queued = Queued(msg: Segment, retransmitted: bool)

  datatype Sender = Sender(
    isn: U32,
    synUnsent: bool, finUnsent: bool, streamFinished: bool, probe: bool,
    unsent: seq<Queued>, unacked: seq<Segment>, unsentSeqnos: U32, unackedSeqnos: U32,
    nextSeqno: U64, window: U16, retransmissions: U32, timer: Timer) {

    /** `sequence_numbers_in_flight`: a 32-bit sum. */
    function InFlight(): U32 {
      Low32(unackedSeqnos + unsentSeqnos)
    }

    /** Something may be sent: the window has room, or it is zero and has not been probed yet. */
    predicate MaySend() {
      (window == 0 && probe) || window > InFlight()
    }

    /** How many sequence numbers the next segment may use when `MaySend` holds. */
    function Room(): nat
      requires MaySend()
    {
      if window == 0 then 1 else window - InFlight()
    }
  }

  function NewSender(isn: U32, initialRto: U64): Sender {
    Sender(isn, true, true, false, false, [], [], 0, 0, 0, 1, 0, Timer(false, initialRto, initialRto, initialRto))
  }

  // ----- maybe_send -----

  /** With nothing queued, a SYN or FIN (or both) may still have to go out. */
  function SendFlags(s: Sender): (Sender, Option<Segment>) {
    var fin := s.finUnsent && s.streamFinished;
    if (s.synUnsent || fin) && s.MaySend() then
      var n := Count(s.synUnsent) + Count(fin);
      var msg := Segment(Wrap32.Wrap(s.nextSeqno, s.isn), s.synUnsent, [], fin);
      (s.(nextSeqno := Low64(s.nextSeqno + n),
          unackedSeqnos := Low32(s.unackedSeqnos + n),
          unacked := s.unacked + [msg],
          synUnsent := false, finUnsent := !fin,
          probe := s.probe && s.window != 0,
          timer := s.timer.StartIfOff()), Some(msg))
    else
      (s, None)
  }

  /** The first queued segment goes out; a retransmission returns to the front of the unacknowledged ones. */
  function SendFirst(s: Sender): (Sender, Option<Segment>)
    requires s.unsent != []
  {
    var msg := s.unsent[0].msg.(syn := s.unsent[0].msg.syn || s.synUnsent);
    (s.(synUnsent := false,
        unsentSeqnos := Low32(s.unsentSeqnos - msg.Length()),
        unackedSeqnos := Low32(s.unackedSeqnos + msg.Length()),
        unsent := s.unsent[1..],
        unacked := if s.unsent[0].retransmitted then [msg] + s.unacked else s.unacked + [msg],
        timer := s.timer.StartIfOff()), Some(msg))
  }

  function MaybeSend(s: Sender): (Sender, Option<Segment>) {
    if s.unsent == [] then SendFlags(s) else SendFirst(s)
  }

  // ----- push -----

  /** The next segment to cut from the stream: limited by the window, the payload limit and the data. */
  function NextSegment(s: Sender, out: Stream): Segment
    requires out.Valid() && s.MaySend()
  {
    var len := Min(Min(s.Room(), MAX_PAYLOAD_SIZE), |out.View()|);
    Segment(Wrap32.Wrap(s.nextSeqno, s.isn), false, out.View()[..len], false)
  }

  /** A new segment at the end of the unsent queue; a zero-window probe is used up. */
  function Queueing(s: Sender, m: Segment): Sender {
    s.(unsent := s.unsent + [Queued(m, false)],
       unsentSeqnos := Low32(s.unsentSeqnos + m.Length()),
       nextSeqno := Low64(s.nextSeqno + m.Length()),
       probe := s.probe && s.window != 0)
  }

  function Cut(s: Sender, out: Stream): (Sender, Stream)
    requires out.Valid() && s.MaySend()
  {
    (Queueing(s, NextSegment(s, out)), out.Pop(Min(s.Room(), MAX_PAYLOAD_SIZE)))
  }

  /** Cutting goes on while there is data and the window has room. */
  function CutAll(s: Sender, out: Stream): (r: (Sender, Stream))
    requires out.Valid()
    ensures r.1.Valid()
    decreases |out.View()|
  {
    if out.View() != [] && s.MaySend() then CutAll(Cut(s, out).0, Cut(s, out).1) else (s, out)
  }

  /** The FIN flag is written on the last queued segment, whatever it is. */
  function AttachFin(s: Sender, finished: bool): Sender {
    var fin := s.finUnsent && finished && s.window >= Low32(s.unackedSeqnos + s.unsentSeqnos + 1);
    var t := s.(streamFinished := finished);
    if s.unsent == [] then t
    else
      var k := |s.unsent| - 1;
      t.(unsent := s.unsent[k := s.unsent[k].(msg := s.unsent[k].msg.(fin := fin))],
         finUnsent := s.finUnsent && !fin,
         unsentSeqnos := Low32(s.unsentSeqnos + Count(fin)),
         nextSeqno := Low64(s.nextSeqno + Count(fin)))
  }

  function Push(s: Sender, out: Stream): (r: (Sender, Stream))
    requires out.Valid()
    ensures r.1.Valid()
  {
    var (t, rest) := CutAll(s, out);
    (AttachFin(t, rest.IsFinished()), rest)
  }

  // ----- receive -----

  /** A segment is acknowledged when its end does not lie beyond the acknowledgement number. */
  predicate Acked(s: Sender, m: Segment, ackno: U64) {
    Low64(Wrap32.Unwrap(m.seqno, s.isn, s.nextSeqno) + m.Length()) <= ackno
  }

  /** How many segments are acknowledged, looking from the front and stopping at the first that is not. */
  function AckedCount(s: Sender, q: seq<Segment>, ackno: U64): (n: nat)
    ensures n <= |q|
  {
    if q != [] && Acked(s, q[0], ackno) then 1 + AckedCount(s, q[1..], ackno) else 0
  }

  function Total(q: seq<Segment>): nat {
    if q == [] then 0 else q[0].Length() + Total(q[1..])
  }

  /** Dropping the first `n` unacknowledged segments; progress restarts the timer. */
  function Drop(s: Sender, n: nat): Sender
    requires n <= |s.unacked|
  {
    if n == 0 then s
    else
      var rest := s.unacked[n..];
      var timer := s.timer.ResetRto();
      s.(unacked := rest,
         unackedSeqnos := Low32(s.unackedSeqnos - Total(s.unacked[..n])),
         retransmissions := 0,
         timer := if rest == [] then timer.Stop() else timer.Start())
  }

  /** The window is taken over from every message, even when the acknowledgement number is impossible. */
  function Receive(s: Sender, ack: Ack): Sender {
    var t := s.(window := ack.windowSize, probe := ack.windowSize == 0);
    if ack.ackno.None? then t
    else
      var ackno := Wrap32.Unwrap(ack.ackno.value, s.isn, s.nextSeqno);
      if ackno > s.nextSeqno then t else Drop(t, AckedCount(t, t.unacked, ackno))
  }

  // ----- tick -----

  predicate Expires(s: Sender, ms: nat) {
    s.timer.isOn && s.timer.timeout <= ms
  }

  function Tick(s: Sender, ms: nat): Sender
    requires Expires(s, ms) ==> s.unacked != []
  {
    if !s.timer.isOn then s
    else
      var timer := s.timer.Tick(ms);
      if timer.timeout != 0 then s.(timer := timer)
      else
        var msg := s.unacked[0];
        var backOff := s.window != 0;
        s.(unacked := s.unacked[1..],
           unackedSeqnos := Low32(s.unackedSeqnos - msg.Length()),
           unsentSeqnos := Low32(s.unsentSeqnos + msg.Length()),
           unsent := [Queued(msg, true)] + s.unsent,
           retransmissions := if backOff then Low32(s.retransmissions + 1) else s.retransmissions,
           timer := (if backOff then timer.DoubleRto() else timer).Start())
  }

  function EmptyMessage(s: Sender): Segment {
    Segment(Wrap32.Wrap(s.nextSeqno, s.isn), false, [], false)
  }
}
