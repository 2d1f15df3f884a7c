/** The address resolution of src/network_interface.cc as a timed map. */
module ArpModel {
  import opened Words

  type Datagram = seq<Byte>
  type EthernetAddress = a: seq<Byte> | |a| == 6 witness [0, 0, 0, 0, 0, 0]

  const MAPPING_TIMEOUT_MS: nat := 30000
  const REQUEST_WAITING_MS: nat := 5000
  const BROADCAST: EthernetAddress := [0xFF, 0xFF, 0xFF, 0xFF, 0xFF, 0xFF]

  datatype Arp = Request | Reply

  datatype ArpMessage = ArpMessage(
    op: Arp, senderEthernet: EthernetAddress, senderIp: U32, targetEthernet: EthernetAddress, targetIp: U32)

  /** A frame's type and well-formed content. */
  datatype Payload = Ip(datagram: Datagram) | ArpPayload(msg: ArpMessage) | Unknown

  datatype Frame = Frame(dst: EthernetAddress, src: EthernetAddress, payload: Payload)

  datatype Learned = Learned(ethernet: EthernetAddress, at: nat)

  /** `known` holds the mappings that have not expired, `asked` when an outstanding request was sent,
      `pending` what waits for an answer, `frames` what waits to be transmitted. */
  datatype Interface = Interface(
    ethernet: EthernetAddress, ip: U32, now: nat,
    known: map<U32, Learned>, asked: map<U32, nat>, pending: map<U32, seq<Datagram>>, frames: seq<Frame>) {

    function Pending(dst: U32): seq<Datagram> {
      if dst in pending then pending[dst] else []
    }

    /** Nothing expired is remembered, and nothing waits for a known address. */
    ghost predicate Valid() {
      && (forall i :: i in known ==> known[i].at <= now < known[i].at + 30000)
      && (forall i :: i in asked ==> asked[i] <= now < asked[i] + 5000)
      && (forall i :: i in known ==> Pending(i) == [])
    }
  }

  function NewInterface(ethernet: EthernetAddress, ip: U32): Interface {
    Interface(ethernet, ip, 0, map[], map[], map[], [])
  }

  const NO_ETHERNET: EthernetAddress := [0, 0, 0, 0, 0, 0]

  function RequestFrame(a: Interface, dst: U32): Frame {
    Frame(BROADCAST, a.ethernet, ArpPayload(ArpMessage(Request, a.ethernet, a.ip, NO_ETHERNET, dst)))
  }

  function IpFrame(a: Interface, dst: EthernetAddress, d: Datagram): Frame {
    Frame(dst, a.ethernet, Ip(d))
  }

  /** A datagram for a known address is framed; otherwise it waits behind a new request, or is dropped
      while a request is outstanding. */
  function SendDatagram(a: Interface, d: Datagram, nextHop: U32): Interface {
    if nextHop in a.known then
      a.(frames := a.frames + [IpFrame(a, a.known[nextHop].ethernet, d)])
    else if nextHop !in a.asked then
      a.(frames := a.frames + [RequestFrame(a, nextHop)],
         pending := a.pending[nextHop := a.Pending(nextHop) + [d]],
         asked := a.asked[nextHop := a.now])
    else a
  }

  /** One frame per datagram, in order. */
  function IpFrames(a: Interface, dst: EthernetAddress, ds: seq<Datagram>): seq<Frame> {
    seq(|ds|, i requires 0 <= i < |ds| => IpFrame(a, dst, ds[i]))
  }

  /** A mapping not remembered is learned, and everything waiting for it goes out. */
  function Learn(a: Interface, sender: U32, ethernet: EthernetAddress): Interface {
    if sender in a.known then a
    else a.(known := a.known[sender := Learned(ethernet, a.now)],
            frames := a.frames + IpFrames(a, ethernet, a.Pending(sender)),
            pending := a.pending - {sender})
  }

  function Answer(a: Interface, msg: ArpMessage): Interface {
    if msg.op.Request? then
      a.(frames := a.frames + [Frame(msg.senderEthernet, a.ethernet,
        ArpPayload(ArpMessage(Reply, a.ethernet, a.ip, msg.senderEthernet, msg.senderIp)))])
    else a
  }

  /** What the receiver of a frame gets back; an unknown frame type is an exception. */
  datatype Received = Nothing | Got(datagram: Datagram) | InvalidType

  function ReceiveFrame(a: Interface, f: Frame): (Interface, Received) {
    if f.dst != a.ethernet && f.dst != BROADCAST then (a, Nothing)
    else match f.payload
      case Ip(d) => (a, Got(d))
      case ArpPayload(msg) =>
        if msg.targetIp != a.ip then (a, Nothing)
        else (Answer(Learn(a, msg.senderIp, msg.senderEthernet), msg), Nothing)
      case Unknown => (a, InvalidType)
  }

  function StillKnown(known: map<U32, Learned>, now: nat): map<U32, Learned> {
    map i | i in known && now < known[i].at + MAPPING_TIMEOUT_MS :: known[i]
  }

  function StillAsked(asked: map<U32, nat>, now: nat): map<U32, nat> {
    map i | i in asked && now < asked[i] + REQUEST_WAITING_MS :: asked[i]
  }

  /** Time passes: the whole map is filtered. */
  function Tick(a: Interface, ms: nat): Interface {
    a.(now := a.now + ms, known := StillKnown(a.known, a.now + ms), asked := StillAsked(a.asked, a.now + ms))
  }

  function MaybeSend(a: Interface): (Interface, Option<Frame>) {
    if a.frames == [] then (a, None) else (a.(frames := a.frames[1..]), Some(a.frames[0]))
  }

  // ----- runs -----

  datatype Event = Submit(d: Datagram, nextHop: U32) | Hear(f: Frame) | Wait(ms: nat) | Transmit

  function After(a: Interface, e: Event): Interface {
    match e
    case Submit(d, nextHop) => SendDatagram(a, d, nextHop)
    case Hear(f) => ReceiveFrame(a, f).0
    case Wait(ms) => Tick(a, ms)
    case Transmit => MaybeSend(a).0
  }

  function Run(a: Interface, events: seq<Event>): Interface
    decreases |events|
  {
    if events == [] then a else Run(After(a, events[0]), events[1..])
  }

  lemma SendKeepsValid(a: Interface, d: Datagram, nextHop: U32)
    requires a.Valid()
    ensures SendDatagram(a, d, nextHop).Valid()
  {
  }

  lemma ReceiveKeepsValid(a: Interface, f: Frame)
    requires a.Valid()
    ensures ReceiveFrame(a, f).0.Valid()
  {
    hide IpFrames;
    if f.payload.ArpPayload? {
      LearnKeepsValid(a, f.payload.msg.senderIp, f.payload.msg.senderEthernet);
      hide Learn;
    }
  }

  lemma LearnKeepsValid(a: Interface, sender: U32, ethernet: EthernetAddress)
    requires a.Valid()
    ensures Learn(a, sender, ethernet).Valid()
  {
    hide IpFrames;
  }

  lemma StepKeepsValid(a: Interface, e: Event)
    requires a.Valid()
    ensures After(a, e).Valid()
  {
    hide SendDatagram, ReceiveFrame;
    match e
    case Submit(d, nextHop) => SendKeepsValid(a, d, nextHop);
    case Hear(f) => ReceiveKeepsValid(a, f);
    case Wait(ms) =>
    case Transmit =>
  }

  lemma {:induction false} RunKeepsValid(a: Interface, events: seq<Event>)
    requires a.Valid()
    ensures Run(a, events).Valid()
    decreases |events|
  {
    if events != [] {
      StepKeepsValid(a, events[0]);
      hide After;
      RunKeepsValid(After(a, events[0]), events[1..]);
    }
  }

  // ----- requests -----

  predicate AsksFor(f: Frame, dst: U32) {
    f.payload.ArpPayload? && f.payload.msg.op.Request? && f.payload.msg.targetIp == dst
  }

  /** How many requests for `dst` are among the frames. */
  function Requests(frames: seq<Frame>, dst: U32): nat {
    if frames == [] then 0 else Count(AsksFor(frames[0], dst)) + Requests(frames[1..], dst)
  }

  /** The frames an event puts behind those that wait. */
  function Queued(a: Interface, e: Event): seq<Frame> {
    if e.Transmit? || |After(a, e).frames| < |a.frames| then [] else After(a, e).frames[|a.frames|..]
  }

  predicate Asks(a: Interface, e: Event, dst: U32) {
    e.Submit? && e.nextHop == dst && dst !in a.known && dst !in a.asked
  }

  lemma {:induction false} NoRequests(frames: seq<Frame>, dst: U32)
    requires forall i :: 0 <= i < |frames| ==> !AsksFor(frames[i], dst)
    ensures Requests(frames, dst) == 0
  {
    if frames != [] {
      NoRequests(frames[1..], dst);
    }
  }

  /** An event queues a request for `dst` exactly when a datagram is submitted for it, its mapping is unknown and
      no request is outstanding, and then one. Nothing else about the frames that wait changes. */
  lemma AsksOnce(a: Interface, e: Event, dst: U32)
    ensures Requests(Queued(a, e), dst) == Count(Asks(a, e, dst))
    ensures !e.Transmit? ==> After(a, e).frames == a.frames + Queued(a, e)
  {
    hide IpFrames, StillKnown, StillAsked;
    match e
    case Submit(d, nextHop) =>
      OneRequest(a, d, nextHop, dst);
    case Hear(f) =>
      AnswersAskNothing(a, f, dst);
    case Wait(_) =>
      assert a.frames[|a.frames|..] == [];
    case Transmit =>
  }

  lemma OneRequest(a: Interface, d: Datagram, nextHop: U32, dst: U32)
    ensures var more := SendDatagram(a, d, nextHop).frames;
      && |more| >= |a.frames| && more == a.frames + more[|a.frames|..]
      && Requests(more[|a.frames|..], dst) == Count(nextHop == dst && dst !in a.known && dst !in a.asked)
  {
    var more := SendDatagram(a, d, nextHop).frames;
    if nextHop in a.known {
      assert more[|a.frames|..] == [IpFrame(a, a.known[nextHop].ethernet, d)];
    } else if nextHop !in a.asked {
      assert more[|a.frames|..] == [RequestFrame(a, nextHop)];
    } else {
      assert more[|a.frames|..] == [];
    }
  }

  lemma AnswersAskNothing(a: Interface, f: Frame, dst: U32)
    ensures var more := ReceiveFrame(a, f).0.frames;
      && |more| >= |a.frames| && more == a.frames + more[|a.frames|..]
      && Requests(more[|a.frames|..], dst) == 0
  {
    var more := ReceiveFrame(a, f).0.frames;
    NoRequests(more[|a.frames|..], dst);
  }

  /** When requests for `dst` are queued over a run: one entry per request frame. */
  function RequestTimes(a: Interface, events: seq<Event>, dst: U32): seq<nat>
    decreases |events|
  {
    if events == [] then []
    else seq(Requests(Queued(a, events[0]), dst), _ => a.now) + RequestTimes(After(a, events[0]), events[1..], dst)
  }

  lemma TimesUnfold(a: Interface, events: seq<Event>, dst: U32)
    requires events != []
    ensures RequestTimes(a, events, dst)
      == (if Asks(a, events[0], dst) then [a.now] else []) + RequestTimes(After(a, events[0]), events[1..], dst)
  {
    AsksOnce(a, events[0], dst);
    hide Requests, Queued, After, Asks;
  }

  lemma TimePasses(a: Interface, e: Event, dst: U32)
    requires a.Valid()
    ensures a.now <= After(a, e).now
    ensures dst in a.asked && After(a, e).now < a.asked[dst] + REQUEST_WAITING_MS ==> dst in After(a, e).asked && After(a, e).asked[dst] == a.asked[dst]
  {
  }

  /** No request before the waiting time after an outstanding one is over. */
  lemma {:induction false} NoEarlyRequest(a: Interface, events: seq<Event>, dst: U32, asked: nat)
    requires a.Valid() && asked <= a.now
    requires a.now < asked + REQUEST_WAITING_MS ==> dst in a.asked && a.asked[dst] == asked
    ensures forall i :: 0 <= i < |RequestTimes(a, events, dst)| ==> RequestTimes(a, events, dst)[i] >= asked + REQUEST_WAITING_MS
    decreases |events|
  {
    if events != [] {
      StepKeepsValid(a, events[0]);
      TimePasses(a, events[0], dst);
      TimesUnfold(a, events, dst);
      hide After, RequestTimes;
      NoEarlyRequest(After(a, events[0]), events[1..], dst, asked);
    }
  }

  ghost predicate Spaced(times: seq<nat>) {
    forall i, j :: 0 <= i < j < |times| ==> times[j] >= times[i] + 5000
  }

  lemma SpacedInFront(t: nat, times: seq<nat>)
    requires Spaced(times) && forall i :: 0 <= i < |times| ==> times[i] >= t + REQUEST_WAITING_MS
    ensures Spaced([t] + times)
  {
    forall i, j | 0 <= i < j < |[t] + times|
      ensures ([t] + times)[j] >= ([t] + times)[i] + REQUEST_WAITING_MS
    {
      assert ([t] + times)[j] == times[j - 1];
      assert i > 0 ==> ([t] + times)[i] == times[i - 1];
    }
  }

  /** Over every run, any two request frames queued for the same address are at least 5000 ms apart. */
  lemma {:induction false} RequestsAreSpaced(a: Interface, events: seq<Event>, dst: U32)
    requires a.Valid()
    ensures Spaced(RequestTimes(a, events, dst))
    decreases |events|
  {
    if events != [] {
      var b := After(a, events[0]);
      StepKeepsValid(a, events[0]);
      RequestsAreSpaced(b, events[1..], dst);
      TimesUnfold(a, events, dst);
      hide RequestTimes;
      if Asks(a, events[0], dst) {
        NoEarlyRequest(b, events[1..], dst, a.now);
        SpacedInFront(a.now, RequestTimes(b, events[1..], dst));
      } else {
        assert [] + RequestTimes(b, events[1..], dst) == RequestTimes(b, events[1..], dst);
      }
    }
  }

  // ----- what is handed up, answered and ignored -----

  /** A frame is for this interface when it is addressed to its Ethernet address or to the all-ones address. */
  predicate Addressed(a: Interface, f: Frame) {
    f.dst == a.ethernet || f.dst == [0xFF, 0xFF, 0xFF, 0xFF, 0xFF, 0xFF]
  }

  /** A datagram is handed up exactly when a frame for this interface carries it, an unknown frame type is
      an exception exactly on such a frame, and either way the interface is as it was. */
  lemma HandsUpExactly(a: Interface, f: Frame)
    ensures forall d :: ReceiveFrame(a, f).1 == Got(d) <==> Addressed(a, f) && f.payload == Ip(d)
    ensures ReceiveFrame(a, f).1 == InvalidType <==> Addressed(a, f) && f.payload.Unknown?
    ensures !(Addressed(a, f) && f.payload.ArpPayload?) ==> ReceiveFrame(a, f).0 == a
  {
    hide Learn, Answer;
  }

  /** An ARP message is taken in exactly when its frame and its target address are for this interface. Then its
      sender is known, as it was or from now on, what waited for it is framed, and a request, and nothing else,
      is answered: from this interface to the asker. */
  lemma TakesInExactly(a: Interface, f: Frame)
    requires f.payload.ArpPayload? && Addressed(a, f)
    ensures var b, msg, n := ReceiveFrame(a, f).0, f.payload.msg, |a.frames|;
      && (msg.targetIp != a.ip ==> b == a)
      && (msg.targetIp == a.ip ==>
            && var ds := if msg.senderIp in a.known then [] else a.Pending(msg.senderIp);
            && b.known == (if msg.senderIp in a.known then a.known else a.known[msg.senderIp := Learned(msg.senderEthernet, a.now)])
            && |b.frames| == n + |ds| + (if msg.op == Request then 1 else 0) && b.frames[..n] == a.frames
            && (forall i :: 0 <= i < |ds| ==> b.frames[n + i] == Frame(msg.senderEthernet, a.ethernet, Ip(ds[i])))
            && (msg.op == Request ==> b.frames[n + |ds|] == Frame(msg.senderEthernet, a.ethernet,
                  ArpPayload(ArpMessage(Reply, a.ethernet, a.ip, msg.senderEthernet, msg.senderIp))))
            && b.asked == a.asked && b.now == a.now && b.ethernet == a.ethernet && b.ip == a.ip
            && (forall i :: i != msg.senderIp ==> b.Pending(i) == a.Pending(i))
            && (msg.senderIp !in a.known ==> b.Pending(msg.senderIp) == []))
  {
  }

  /** The request frame itself: broadcast, from this interface, asking for `nextHop`. */
  lemma AsksWithFrame(a: Interface, d: Datagram, nextHop: U32)
    requires nextHop !in a.known && nextHop !in a.asked
    ensures SendDatagram(a, d, nextHop).frames == a.frames + [Frame([0xFF, 0xFF, 0xFF, 0xFF, 0xFF, 0xFF], a.ethernet,
      ArpPayload(ArpMessage(Request, a.ethernet, a.ip, [0, 0, 0, 0, 0, 0], nextHop)))]
    ensures SendDatagram(a, d, nextHop).Pending(nextHop) == a.Pending(nextHop) + [d]
  {
  }

  // ----- how long a mapping lasts -----

  /** The time that passes over a run. */
  function Waited(events: seq<Event>): nat {
    if events == [] then 0 else (if events[0].Wait? then events[0].ms else 0) + Waited(events[1..])
  }

  /** The clock is the sum of the waits and nothing else. */
  lemma {:induction false} ClockIsWaiting(a: Interface, events: seq<Event>)
    ensures Run(a, events).now == a.now + Waited(events)
    decreases |events|
  {
    if events != [] {
      ClockIsWaiting(After(a, events[0]), events[1..]);
    }
  }

  lemma MappingStays(a: Interface, e: Event, i: U32)
    requires i in a.known && After(a, e).now < a.known[i].at + 30000
    ensures i in After(a, e).known && After(a, e).known[i] == a.known[i]
  {
    hide IpFrames;
  }

  lemma {:induction false} TimeOnlyPasses(a: Interface, events: seq<Event>)
    requires a.Valid()
    ensures a.now <= Run(a, events).now
    decreases |events|
  {
    if events != [] {
      TimePasses(a, events[0], 0);
      StepKeepsValid(a, events[0]);
      hide After;
      TimeOnlyPasses(After(a, events[0]), events[1..]);
    }
  }

  /** Over every run, whatever is heard meanwhile: a mapping stays as it was learned for 30000 ms, and then it
      has gone unless it was learned anew. */
  lemma {:induction false} MappingLasts(a: Interface, events: seq<Event>, i: U32)
    requires a.Valid() && i in a.known
    ensures var b := Run(a, events);
      && (b.now < a.known[i].at + 30000 ==> i in b.known && b.known[i] == a.known[i])
      && (b.now >= a.known[i].at + 30000 ==> i !in b.known || b.known[i].at > a.known[i].at)
    decreases |events|
  {
    RunKeepsValid(a, events);
    if events != [] {
      var b := After(a, events[0]);
      StepKeepsValid(a, events[0]);
      TimeOnlyPasses(b, events[1..]);
      if b.now < a.known[i].at + 30000 {
        MappingStays(a, events[0], i);
        hide After;
        MappingLasts(b, events[1..], i);
      }
    }
  }

  // ----- in what order frames leave -----

  /** The frames handed to the network over a run. */
  function Transmitted(a: Interface, events: seq<Event>): seq<Frame>
    decreases |events|
  {
    if events == [] then []
    else
      (if events[0].Transmit? && MaybeSend(a).1.Some? then [MaybeSend(a).1.value] else [])
      + Transmitted(After(a, events[0]), events[1..])
  }

  /** The frames queued over a run. */
  function AllQueued(a: Interface, events: seq<Event>): seq<Frame>
    decreases |events|
  {
    if events == [] then [] else Queued(a, events[0]) + AllQueued(After(a, events[0]), events[1..])
  }

  lemma OneStepInOrder(a: Interface, e: Event)
    ensures (if e.Transmit? && MaybeSend(a).1.Some? then [MaybeSend(a).1.value] else []) + After(a, e).frames == a.frames + Queued(a, e)
  {
    hide IpFrames, SendDatagram, ReceiveFrame, Tick;
    if !e.Transmit? {
      AsksOnce(a, e, 0);
      assert [] + After(a, e).frames == After(a, e).frames;
    } else if a.frames != [] {
      assert [a.frames[0]] + a.frames[1..] == a.frames + [];
    }
  }

  /** First in, first out: over every run, the frames transmitted followed by those that wait are those that waited
      at the start followed by those queued, and a call transmits nothing only when nothing waits. */
  lemma {:induction false} TransmitsInOrder(a: Interface, events: seq<Event>)
    ensures Transmitted(a, events) + Run(a, events).frames == a.frames + AllQueued(a, events)
    ensures MaybeSend(a).1 == None <==> a.frames == []
    decreases |events|
  {
    if events != [] {
      var b := After(a, events[0]);
      OneStepInOrder(a, events[0]);
      TransmitsInOrder(b, events[1..]);
      hide After, Queued, MaybeSend;
      Words.Glue(if events[0].Transmit? && MaybeSend(a).1.Some? then [MaybeSend(a).1.value] else [],
           Transmitted(b, events[1..]), Run(b, events[1..]).frames,
           b.frames, AllQueued(b, events[1..]), a.frames, Queued(a, events[0]));
    }
  }

  /** Transmitting `k` times in a row hands out the first `k` frames that wait. */
  lemma {:induction false} TransmitsAll(a: Interface, k: nat)
    requires k <= |a.frames|
    ensures Transmitted(a, seq(k, _ => Transmit)) == a.frames[..k]
    decreases k
  {
    var events := seq(k, _ => Transmit);
    if k > 0 {
      assert events[0] == Transmit && events[1..] == seq(k - 1, _ => Transmit);
      TransmitsAll(After(a, Transmit), k - 1);
      assert a.frames[..k] == [a.frames[0]] + a.frames[1..][..k - 1];
    }
  }

  // ----- two interfaces -----

  /** Address resolution works: a request that reaches the interface owning the address is answered to the
      asker, and the answer, whenever it comes, gives the asker the owner's Ethernet address and sends
      everything that waited for it there, in order; the owner has learned the asker's address too. */
  lemma RequestAndReplyResolve(a: Interface, b: Interface, d: Datagram, ms: nat)
    requires a.Valid() && b.Valid() && b.ip !in a.known && b.ip !in a.asked
    ensures var asking := SendDatagram(a, d, b.ip);
      && |asking.frames| == |a.frames| + 1
      && var answering := ReceiveFrame(b, asking.frames[|a.frames|]).0;
      && |answering.frames| > |b.frames| && b.frames <= answering.frames
      && a.ip in answering.known && (a.ip !in b.known ==> answering.known[a.ip] == Learned(a.ethernet, b.now))
      && var reply := answering.frames[|answering.frames| - 1];
      && var resolved := ReceiveFrame(Tick(asking, ms), reply).0;
      && resolved.known.Keys == Tick(asking, ms).known.Keys + {b.ip}
      && resolved.known[b.ip] == Learned(b.ethernet, a.now + ms)
      && var n, ds := |asking.frames|, a.Pending(b.ip) + [d];
      && |resolved.frames| == n + |ds| && resolved.frames[..n] == asking.frames
      && (forall i :: 0 <= i < |ds| ==> resolved.frames[n + i] == Frame(b.ethernet, a.ethernet, Ip(ds[i])))
      && resolved.Pending(b.ip) == []
  {
    var asking := SendDatagram(a, d, b.ip);
    var waited := Tick(asking, ms);
    assert b.ip !in waited.known && waited.Pending(b.ip) == a.Pending(b.ip) + [d];
    var request := asking.frames[|a.frames|].payload.msg;
    hide IpFrames, Tick, Interface.Pending;
    var answering := Answer(Learn(b, request.senderIp, request.senderEthernet), request);
    assert ReceiveFrame(b, asking.frames[|a.frames|]).0 == answering;
    Answered(a, b, d, waited, answering.frames[|answering.frames| - 1]);
  }

  /** From submission to delivery: once resolved as above, everything that waits is transmitted, the datagram's
      frame last; delivered to the owner of the address, at whatever state that has reached, it is handed up. */
  lemma DatagramArrives(a: Interface, b: Interface, d: Datagram, ms: nat, later: Interface)
    requires a.Valid() && b.Valid() && b.ip !in a.known && b.ip !in a.asked && later.ethernet == b.ethernet
    ensures var asking := SendDatagram(a, d, b.ip);
      var answering := ReceiveFrame(b, asking.frames[|a.frames|]).0;
      var resolved := ReceiveFrame(Tick(asking, ms), answering.frames[|answering.frames| - 1]).0;
      var sent := Transmitted(resolved, seq(|resolved.frames|, _ => Transmit));
      && sent != [] && ReceiveFrame(later, sent[|sent| - 1]) == (later, Got(d))
  {
    RequestAndReplyResolve(a, b, d, ms);
    var asking := SendDatagram(a, d, b.ip);
    var answering := ReceiveFrame(b, asking.frames[|a.frames|]).0;
    var resolved := ReceiveFrame(Tick(asking, ms), answering.frames[|answering.frames| - 1]).0;
    hide SendDatagram, Tick, Learn, Answer;
    TransmitsAll(resolved, |resolved.frames|);
    var f := resolved.frames[|resolved.frames| - 1];
    assert f == Frame(b.ethernet, a.ethernet, Ip(d)) by {
      hide ReceiveFrame;
      var ds := a.Pending(b.ip) + [d];
      assert f == resolved.frames[|asking.frames| + (|ds| - 1)];
    }
    HandsUpExactly(later, f);
  }

  /** The answer arrives where the datagram waits. */
  lemma Answered(a: Interface, b: Interface, d: Datagram, waited: Interface, reply: Frame)
    requires waited.ethernet == a.ethernet && waited.ip == a.ip && b.ip !in waited.known
    requires waited.Pending(b.ip) == a.Pending(b.ip) + [d]
    requires reply == Frame(a.ethernet, b.ethernet, ArpPayload(ArpMessage(Reply, b.ethernet, b.ip, a.ethernet, a.ip)))
    ensures var resolved := ReceiveFrame(waited, reply).0;
      && resolved.known == waited.known[b.ip := Learned(b.ethernet, waited.now)]
      && var n, ds := |waited.frames|, a.Pending(b.ip) + [d];
      && |resolved.frames| == n + |ds| && resolved.frames[..n] == waited.frames
      && (forall i :: 0 <= i < |ds| ==> resolved.frames[n + i] == Frame(b.ethernet, a.ethernet, Ip(ds[i])))
      && resolved.Pending(b.ip) == []
  {
  }

  lemma SameFraming(a: Interface, b: Interface, dst: EthernetAddress, ds: seq<Datagram>)
    requires a.ethernet == b.ethernet
    ensures IpFrames(a, dst, ds) == IpFrames(b, dst, ds)
  {
  }

  // ----- what becomes of the datagrams for one address -----

  /** Datagrams for `dst` framed by one event. */
  function FramedBy(a: Interface, e: Event, dst: U32): seq<Datagram> {
    match e
    case Submit(d, nextHop) => if nextHop == dst && dst in a.known then [d] else []
    case Hear(f) => if Learns(a, f, dst) then a.Pending(dst) else []
    case Wait(_) => []
    case Transmit => []
  }

  predicate Learns(a: Interface, f: Frame, dst: U32) {
    && (f.dst == a.ethernet || f.dst == BROADCAST) && f.payload.ArpPayload?
    && f.payload.msg.targetIp == a.ip && f.payload.msg.senderIp == dst && dst !in a.known
  }

  /** A submitted datagram is kept unless a request for its unknown address is outstanding. */
  function KeptBy(a: Interface, e: Event, dst: U32): seq<Datagram> {
    if e.Submit? && e.nextHop == dst && (dst in a.known || dst !in a.asked) then [e.d] else []
  }

  function Framed(a: Interface, events: seq<Event>, dst: U32): seq<Datagram>
    decreases |events|
  {
    if events == [] then [] else FramedBy(a, events[0], dst) + Framed(After(a, events[0]), events[1..], dst)
  }

  function Kept(a: Interface, events: seq<Event>, dst: U32): seq<Datagram>
    decreases |events|
  {
    if events == [] then [] else KeptBy(a, events[0], dst) + Kept(After(a, events[0]), events[1..], dst)
  }

  lemma OneStepConserves(a: Interface, e: Event, dst: U32)
    requires a.Valid()
    ensures FramedBy(a, e, dst) + After(a, e).Pending(dst) == a.Pending(dst) + KeptBy(a, e, dst)
  {
  }

  /** The frames one event adds for `dst`: one per datagram of `FramedBy`, in order, from this interface's Ethernet
      address to the one of the mapping in force, carrying just that datagram; with at most ARP messages behind. */
  lemma FramesAdded(a: Interface, e: Event, dst: U32)
    requires a.Valid() && (e.Submit? ==> e.nextHop == dst) && (e.Hear? ==> Learns(a, e.f, dst)) && !e.Transmit?
    ensures var b := After(a, e);
      var ds, n := FramedBy(a, e, dst), |a.frames|;
      && |b.frames| >= n + |ds| && b.frames[..n] == a.frames
      && (ds != [] ==> dst in b.known)
      && (forall i :: 0 <= i < |ds| ==>
            && b.frames[n + i].dst == b.known[dst].ethernet
            && b.frames[n + i].src == a.ethernet
            && b.frames[n + i].payload == Ip(ds[i]))
      && (forall i :: n + |ds| <= i < |b.frames| ==> b.frames[i].payload.ArpPayload?)
  {
  }

  /** Over every run and for every address: what was framed, followed by what still waits, is what waited at
      the start followed by what was kept, in order. Every other submitted datagram was dropped because a
      request was outstanding. */
  lemma {:induction false} FramedOrPending(a: Interface, events: seq<Event>, dst: U32)
    requires a.Valid()
    ensures Framed(a, events, dst) + Run(a, events).Pending(dst) == a.Pending(dst) + Kept(a, events, dst)
    decreases |events|
  {
    if events != [] {
      var b := After(a, events[0]);
      StepKeepsValid(a, events[0]);
      OneStepConserves(a, events[0], dst);
      hide After, FramedBy, KeptBy;
      FramedOrPending(b, events[1..], dst);
      Glue(FramedBy(a, events[0], dst), Framed(b, events[1..], dst), Run(b, events[1..]).Pending(dst),
           b.Pending(dst), Kept(b, events[1..], dst), a.Pending(dst), KeptBy(a, events[0], dst));
    }
  }
}
