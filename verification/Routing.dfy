/** Longest-prefix-match forwarding (src/router.cc). Addresses are 32-bit numbers; the bit test works on their bits. */
module Routing {
  import opened Words
  import opened BitBlocks
  import opened IPv4Headers

  type Address = U32

  datatype Route = Route(prefix: Address, length: nat, nextHop: Option<Address>) {
    ghost predicate Valid() {
      length <= 32
    }
  }

  type Table = seq<seq<Route>>

  ghost predicate ValidTable(table: Table) {
    forall j, k :: 0 <= j < |table| && 0 <= k < |table[j]| ==> table[j][k].Valid()
  }

  // ----- the bit test -----

  /** 2 to the power of `n`. */
  function Power(n: nat): (p: nat)
    ensures p > 0
  {
    if n == 0 then 1 else 2 * Power(n - 1)
  }

  /** Bit `i` of a number. */
  predicate NumberBit(x: nat, i: nat) {
    x / Power(i) % 2 == 1
  }

  /** The bits of a number from `i` on, as a machine word. */
  function BlockFrom(x: U32, i: nat): Block
    requires i <= 32
    decreases 32 - i
  {
    if i == 32 then 0 else Joined(BlockFrom(x, i + 1), if NumberBit(x, i) then OneBit(i) else 0)
  }

  function BlockOf(x: U32): Block { BlockFrom(x, 0) }

  lemma {:induction false} BlockFromBits(x: U32, i: nat, j: nat)
    requires i <= 32 && j < 32
    ensures Bit(BlockFrom(x, i), j) <==> i <= j && NumberBit(x, j)
    decreases 32 - i
  {
    hide Bit, OneBit, Joined, NumberBit, Masked, Cleared, StartMask, EndMask;
    ZeroHasNoBit(j);
    if i < 32 {
      BlockFromBits(x, i + 1, j);
      LogicBits(BlockFrom(x, i + 1), if NumberBit(x, i) then OneBit(i) else 0, j);
      MaskBits(i, j);
    }
  }

  /** Two numbers agree from bit `k` up exactly when they agree after division by 2^k. */
  lemma {:induction false} TopBitsAgree(x: U32, y: U32, k: nat)
    requires k <= 32
    ensures (forall j: nat :: k <= j < 32 ==> (NumberBit(x, j) <==> NumberBit(y, j))) <==> x / Power(k) == y / Power(k)
    decreases 32 - k
  {
    if k == 32 {
      PowerIs32();
    } else {
      TopBitsAgree(x, y, k + 1);
      QuotientOfQuotient(x, Power(k), 2);
      QuotientOfQuotient(y, Power(k), 2);
      var a, b := x / Power(k), y / Power(k);
      assert a / 2 == x / Power(k + 1) && b / 2 == y / Power(k + 1);
      assert NumberBit(x, k) <==> a % 2 == 1;
      assert NumberBit(y, k) <==> b % 2 == 1;
      hide NumberBit, Power;
      assert a == b <==> a / 2 == b / 2 && a % 2 == b % 2;
    }
  }

  lemma PowerIs32()
    ensures Power(32) == 0x1_0000_0000
  {
    assert Power(8) == 256;
    assert Power(16) == 65536;
    assert Power(24) == 16777216;
  }

  /** `ipPrefixMatched`. */
  predicate PrefixMatched(dst: Address, prefix: Address, length: nat)
    requires length <= 32
  {
    if length == 0 then true
    else
      var mask := StartMask(32 - length);
      Masked(BlockOf(dst), mask) == Masked(BlockOf(prefix), mask)
  }

  // Two blocks that agree on every bit are equal: the shifted-out part grows bit by bit.

  function Up(a: Block, s: bv6): Block
    requires s < 32
  {
    a << s
  }

  lemma OneMoreBit(a: Block, b: Block, s: bv6)
    requires 0 < s < 32 && Up(a, s) == Up(b, s) && (BitAt(a, 32 - s) <==> BitAt(b, 32 - s))
    ensures Up(a, s - 1) == Up(b, s - 1)
  {
  }

  lemma LowestBit(a: Block, b: Block)
    requires BitAt(a, 0) <==> BitAt(b, 0)
    ensures Up(a, 31) == Up(b, 31)
  {
  }

  lemma AmountBelow(i: nat)
    requires 0 < i < 32
    ensures Amount(i) > 0 && Amount(i - 1) == Amount(i) - 1 && Amount(32 - i) == 32 - Amount(i)
  {
  }

  ghost predicate SameUp(a: Block, b: Block, i: nat)
    requires i < 32
  {
    Up(a, Amount(i)) == Up(b, Amount(i))
  }

  lemma SameUpStepAt(a: Block, b: Block, s: bv6, below: bv6, t: bv6)
    requires 0 < s < 32 && below == s - 1 && t == 32 - s
    requires Up(a, s) == Up(b, s) && (BitAt(a, t) <==> BitAt(b, t))
    ensures below < 32 && Up(a, below) == Up(b, below)
  {
    hide BitAt, Up;
    OneMoreBit(a, b, s);
  }

  lemma SameUpStep(a: Block, b: Block, i: nat)
    requires 0 < i < 32 && SameUp(a, b, i) && (Bit(a, 32 - i) <==> Bit(b, 32 - i))
    ensures SameUp(a, b, i - 1)
  {
    hide BitAt, Up, Amount;
    AmountBelow(i);
    SameUpStepAt(a, b, Amount(i), Amount(i - 1), Amount(32 - i));
  }

  lemma SameUpTop(a: Block, b: Block)
    requires Bit(a, 0) <==> Bit(b, 0)
    ensures SameUp(a, b, 31)
  {
    assert Amount(0) == 0 && Amount(31) == 31;
    hide BitAt, Up;
    LowestBit(a, b);
  }

  lemma SameUpAll(a: Block, b: Block)
    requires SameUp(a, b, 0)
    ensures a == b
  {
    assert Amount(0) == 0;
  }

  lemma {:induction false} SameLowBits(a: Block, b: Block, i: nat)
    requires i < 32 && forall j: nat :: j < 32 ==> (Bit(a, j) <==> Bit(b, j))
    ensures SameUp(a, b, i)
    decreases 32 - i
  {
    hide Bit, SameUp;
    if i == 31 {
      SameUpTop(a, b);
    } else {
      SameLowBits(a, b, i + 1);
      SameUpStep(a, b, i + 1);
    }
  }

  lemma SameBitsSameBlock(a: Block, b: Block)
    requires forall j: nat :: j < 32 ==> (Bit(a, j) <==> Bit(b, j))
    ensures a == b
  {
    hide Bit, SameUp;
    SameLowBits(a, b, 0);
    SameUpAll(a, b);
  }

  lemma MasksAgree(dst: Block, prefix: Block, length: nat)
    requires 0 < length <= 32
    ensures Masked(dst, StartMask(32 - length)) == Masked(prefix, StartMask(32 - length))
       <==> forall j: nat :: 32 - length <= j < 32 ==> (Bit(dst, j) <==> Bit(prefix, j))
  {
    hide Bit, StartMask, Masked;
    MaskedBits(dst, 32 - length);
    MaskedBits(prefix, 32 - length);
    var a, b := Masked(dst, StartMask(32 - length)), Masked(prefix, StartMask(32 - length));
    if forall j: nat :: 32 - length <= j < 32 ==> (Bit(dst, j) <==> Bit(prefix, j)) {
      SameBitsSameBlock(a, b);
    } else {
      var j: nat :| 32 - length <= j < 32 && !(Bit(dst, j) <==> Bit(prefix, j));
      assert Bit(a, j) != Bit(b, j);
    }
  }

  /** A prefix matches exactly when it and the address are the same number after division by 2^(32 - length), that
      is, when their top `length` bits agree. */
  lemma PrefixMatchedIff(dst: Address, prefix: Address, length: nat)
    requires length <= 32
    ensures PrefixMatched(dst, prefix, length) <==> dst / Power(32 - length) == prefix / Power(32 - length)
    ensures PrefixMatched(dst, prefix, length)
       <==> forall j: nat :: 32 - length <= j < 32 ==> (NumberBit(dst, j) <==> NumberBit(prefix, j))
  {
    hide Bit, StartMask, Masked, BlockOf, NumberBit, Power;
    TopBitsAgree(dst, prefix, 32 - length);
    if length > 0 {
      MasksAgree(BlockOf(dst), BlockOf(prefix), length);
      forall j: nat | j < 32
        ensures Bit(BlockOf(dst), j) <==> NumberBit(dst, j)
        ensures Bit(BlockOf(prefix), j) <==> NumberBit(prefix, j)
      {
        BlockOfBits(dst, j);
        BlockOfBits(prefix, j);
      }
    } else {
      PowerOfNothing(dst, prefix);
    }
  }

  lemma BlockOfBits(x: U32, j: nat)
    requires j < 32
    ensures Bit(BlockOf(x), j) <==> NumberBit(x, j)
  {
    hide Bit, NumberBit, BlockFrom;
    BlockFromBits(x, 0, j);
  }

  lemma PowerOfNothing(x: U32, y: U32)
    ensures x / Power(32 - 0) == y / Power(32 - 0) == 0
  {
    PowerIs32();
  }

  lemma MaskedBits(a: Block, from: nat)
    requires from < 32
    ensures forall j: nat :: j < 32 ==> (Bit(Masked(a, StartMask(from)), j) <==> Bit(a, j) && from <= j)
  {
    hide Bit, StartMask, Masked, OneBit, EndMask, Cleared, Joined;
    forall j: nat | j < 32
      ensures Bit(Masked(a, StartMask(from)), j) <==> Bit(a, j) && from <= j
    {
      LogicBits(a, StartMask(from), j);
      MaskBits(from, j);
    }
  }

  // ----- the longest match -----

  /** A route's place: the interface and the position among that interface's routes. */
  datatype Place = Place(interfaceNum: nat, index: nat)

  ghost predicate InTable(table: Table, p: Place) {
    p.interfaceNum < |table| && p.index < |table[p.interfaceNum]|
  }

  function At(table: Table, p: Place): Route
    requires InTable(table, p)
  {
    table[p.interfaceNum][p.index]
  }

  ghost predicate Matches(table: Table, dst: Address, p: Place)
    requires ValidTable(table)
  {
    InTable(table, p) && PrefixMatched(dst, At(table, p).prefix, At(table, p).length)
  }

  /** The order in which the scan meets the routes. */
  predicate Before(p: Place, q: Place) {
    p.interfaceNum < q.interfaceNum || (p.interfaceNum == q.interfaceNum && p.index < q.index)
  }

  /** `p` matches, no matching route has a longer prefix, and among equally long ones it is the last. */
  ghost predicate IsBest(table: Table, dst: Address, p: Place)
    requires ValidTable(table)
  {
    && Matches(table, dst, p)
    && forall q :: Matches(table, dst, q) ==>
         At(table, q).length < At(table, p).length || (At(table, q).length == At(table, p).length && (q == p || Before(q, p)))
  }

  lemma BestIsUnique(table: Table, dst: Address, p: Place, q: Place)
    requires ValidTable(table) && IsBest(table, dst, p) && IsBest(table, dst, q)
    ensures p == q
  {
    hide PrefixMatched;
    assert Matches(table, dst, p) && Matches(table, dst, q);
  }

  /** The best among the routes the scan has met before `here`. */
  ghost predicate BestBefore(table: Table, dst: Address, here: Place, best: Option<Place>)
    requires ValidTable(table)
  {
    match best
    case None => forall q :: Matches(table, dst, q) ==> !Before(q, here)
    case Some(p) =>
      && Matches(table, dst, p) && Before(p, here)
      && forall q :: Matches(table, dst, q) && Before(q, here) ==>
           At(table, q).length < At(table, p).length || (At(table, q).length == At(table, p).length && (q == p || Before(q, p)))
  }

  /** What the decision comes to: interface and next hop. */
  datatype Hop = Hop(interfaceNum: nat, nextHop: Option<Address>)

  method Lookup(table: Table, dst: Address) returns (hop: Option<Hop>)
    requires ValidTable(table)
    ensures hop.None? ==> forall q :: !Matches(table, dst, q)
    ensures hop.Some? ==> exists p :: IsBest(table, dst, p) && hop.value == Hop(p.interfaceNum, At(table, p).nextHop)
  {
    hide PrefixMatched;
    var maxMatchedLen := 0;
    hop := None;
    ghost var place: Option<Place> := None;
    for j := 0 to |table|
      invariant BestBefore(table, dst, Place(j, 0), place)
      invariant hop == HopOf(table, place) && maxMatchedLen == LengthOf(table, place)
    {
      for k := 0 to |table[j]|
        invariant BestBefore(table, dst, Place(j, k), place)
        invariant hop == HopOf(table, place) && maxMatchedLen == LengthOf(table, place)
      {
        var route := table[j][k];
        NextRoute(table, dst, Place(j, k), place);
        if PrefixMatched(dst, route.prefix, route.length) && route.length >= maxMatchedLen {
          maxMatchedLen := route.length;
          hop := Some(Hop(j, route.nextHop));
          place := Some(Place(j, k));
        }
      }
      NextRow(table, dst, j, place);
    }
    assert forall q :: Matches(table, dst, q) ==> Before(q, Place(|table|, 0));
    assert place.Some? ==> IsBest(table, dst, place.value);
  }

  ghost function HopOf(table: Table, place: Option<Place>): Option<Hop> {
    if place.Some? && InTable(table, place.value) then Some(Hop(place.value.interfaceNum, At(table, place.value).nextHop)) else None
  }

  ghost function LengthOf(table: Table, place: Option<Place>): nat {
    if place.Some? && InTable(table, place.value) then At(table, place.value).length else 0
  }

  lemma NextRoute(table: Table, dst: Address, here: Place, best: Option<Place>)
    requires ValidTable(table) && InTable(table, here) && BestBefore(table, dst, here, best)
    ensures BestBefore(table, dst, here.(index := here.index + 1),
      if Matches(table, dst, here) && At(table, here).length >= LengthOf(table, best) then Some(here) else best)
  {
    hide PrefixMatched;
  }

  lemma NextRow(table: Table, dst: Address, j: nat, best: Option<Place>)
    requires ValidTable(table) && j < |table| && BestBefore(table, dst, Place(j, |table[j]|), best)
    ensures BestBefore(table, dst, Place(j + 1, 0), best)
  {
    hide PrefixMatched;
  }

  // ----- the table -----

  /** `resize` to one row more than the interface number, then append. */
  function WithRoute(table: Table, route: Route, interfaceNum: nat): Table {
    var rows := seq(interfaceNum + 1, j requires 0 <= j < interfaceNum + 1 => if j < |table| then table[j] else []);
    rows[interfaceNum := rows[interfaceNum] + [route]]
  }

  /** Every route keeps its place exactly when no route belongs to a higher interface number:
      adding routes in non-decreasing interface order never loses one, any other order does. */
  lemma AddRouteKeepsIff(table: Table, route: Route, interfaceNum: nat)
    ensures var t := WithRoute(table, route, interfaceNum);
      (forall p :: InTable(table, p) ==> InTable(t, p) && At(t, p) == At(table, p))
      <==> forall p :: InTable(table, p) ==> p.interfaceNum <= interfaceNum
    ensures var t, added := WithRoute(table, route, interfaceNum), Place(interfaceNum, if interfaceNum < |table| then |table[interfaceNum]| else 0);
      InTable(t, added) && At(t, added) == route
  {
    var t := WithRoute(table, route, interfaceNum);
    forall p | InTable(table, p)
      ensures InTable(t, p) && At(t, p) == At(table, p) <==> p.interfaceNum <= interfaceNum
    {
      if p.interfaceNum <= interfaceNum {
        assert t[p.interfaceNum] == if p.interfaceNum == interfaceNum then table[p.interfaceNum] + [route] else table[p.interfaceNum];
      }
    }
  }

  // ----- forwarding -----

  datatype Datagram = Datagram(header: Header, payload: seq<Byte>)

  /** `header.ttl--`: nothing else is touched, the checksum included. */
  function CountedDown(d: Datagram): Datagram
    requires d.header.ttl > 0
  {
    d.(header := d.header.(ttl := d.header.ttl - 1))
  }

  /** A call of `send_datagram` on an interface. */
  datatype Sent = Sent(datagram: Datagram, nextHop: Address)

  /** Received datagrams waiting at each interface, and what each interface was told to send. */
  datatype Network = Network(inbox: seq<seq<Datagram>>, outbox: seq<seq<Sent>>)

  /** What becomes of one datagram: sent on by the interface of the best route, with TTL one less, or dropped. */
  ghost predicate Decides(table: Table, d: Datagram, verdict: Option<(nat, Sent)>)
    requires ValidTable(table)
  {
    match verdict
    case None => d.header.ttl <= 1 || forall q :: !Matches(table, d.header.dst, q)
    case Some((i, sent)) =>
      && d.header.ttl > 1
      && exists p :: IsBest(table, d.header.dst, p) && i == p.interfaceNum
           && sent == Sent(CountedDown(d), match At(table, p).nextHop case Some(hop) => hop case None => d.header.dst)
  }

  /** Forwarding is decided: a datagram is sent on exactly when a route matches and its TTL exceeds one,
      and there is only one way to send it. */
  lemma VerdictIsUnique(table: Table, d: Datagram, v: Option<(nat, Sent)>, w: Option<(nat, Sent)>)
    requires ValidTable(table) && Decides(table, d, v) && Decides(table, d, w)
    ensures v == w
  {
    hide PrefixMatched;
    if v.Some? && w.Some? {
      var p :| IsBest(table, d.header.dst, p) && v.value.0 == p.interfaceNum
           && v.value.1 == Sent(CountedDown(d), match At(table, p).nextHop case Some(hop) => hop case None => d.header.dst);
      var q :| IsBest(table, d.header.dst, q) && w.value.0 == q.interfaceNum
           && w.value.1 == Sent(CountedDown(d), match At(table, q).nextHop case Some(hop) => hop case None => d.header.dst);
      BestIsUnique(table, d.header.dst, p, q);
    }
  }

  /** The route leads to the address: both are the same number after division by 2^(32 - length). */
  ghost predicate LeadsTo(route: Route, dst: U32)
    requires route.Valid()
  {
    dst / Power(32 - route.length) == route.prefix / Power(32 - route.length)
  }

  /** Route `k` of interface `i` leads to the address, no route that does is longer, and among equally long ones it
      is the last. */
  ghost predicate LongestTo(table: Table, dst: U32, i: nat, k: nat)
    requires ValidTable(table)
  {
    && i < |table| && k < |table[i]| && LeadsTo(table[i][k], dst)
    && forall j, l :: 0 <= j < |table| && 0 <= l < |table[j]| && LeadsTo(table[j][l], dst) ==>
         || table[j][l].length < table[i][k].length
         || (table[j][l].length == table[i][k].length && (j < i || (j == i && l <= k)))
  }

  lemma MatchesByNumber(table: Table, dst: U32, p: Place)
    requires ValidTable(table) && InTable(table, p)
    ensures Matches(table, dst, p) <==> LeadsTo(table[p.interfaceNum][p.index], dst)
  {
    hide PrefixMatched, Power;
    PrefixMatchedIff(dst, At(table, p).prefix, At(table, p).length);
  }

  lemma BestIsLongest(table: Table, dst: U32, p: Place)
    requires ValidTable(table) && IsBest(table, dst, p)
    ensures LongestTo(table, dst, p.interfaceNum, p.index)
  {
    hide PrefixMatched, LeadsTo;
    MatchesByNumber(table, dst, p);
    forall j, l | 0 <= j < |table| && 0 <= l < |table[j]| && LeadsTo(table[j][l], dst)
      ensures table[j][l].length < At(table, p).length
           || (table[j][l].length == At(table, p).length && (j < p.interfaceNum || (j == p.interfaceNum && l <= p.index)))
    {
      var q := Place(j, l);
      MatchesByNumber(table, dst, q);
      assert Matches(table, dst, q) && At(table, q) == table[j][l];
    }
  }

  /** Forwarding in numbers: a datagram is sent on exactly when its time to live exceeds one and some route leads to
      its destination address. It goes out of the interface of the longest such route, to that route's next hop or
      straight to the destination address, with the time to live one less and otherwise as it came. */
  lemma VerdictByNumbers(table: Table, d: Datagram, verdict: Option<(nat, Sent)>)
    requires ValidTable(table) && Decides(table, d, verdict)
    ensures verdict.Some?
       <==> (d.header.ttl > 1 && exists j, k :: 0 <= j < |table| && 0 <= k < |table[j]| && LeadsTo(table[j][k], d.header.dst))
    ensures verdict.Some? ==>
      var (i, sent) := verdict.value;
      && (exists k: nat :: LongestTo(table, d.header.dst, i, k)
            && sent.nextHop == match table[i][k].nextHop case Some(hop) => hop case None => d.header.dst)
      && sent.datagram.payload == d.payload && sent.datagram.header == d.header.(ttl := sent.datagram.header.ttl)
      && sent.datagram.header.ttl + 1 == d.header.ttl
  {
    hide PrefixMatched, LeadsTo;
    if verdict.Some? {
      var p :| IsBest(table, d.header.dst, p) && verdict.value.0 == p.interfaceNum
           && verdict.value.1.nextHop == match At(table, p).nextHop case Some(hop) => hop case None => d.header.dst;
      BestIsLongest(table, d.header.dst, p);
      assert LongestTo(table, d.header.dst, verdict.value.0, p.index);
    } else if d.header.ttl > 1 {
      forall j: nat, k: nat | j < |table| && k < |table[j]|
        ensures !LeadsTo(table[j][k], d.header.dst)
      {
        MatchesByNumber(table, d.header.dst, Place(j, k));
      }
    }
  }

  /** Only the destination address decides: two datagrams with the same one that are both sent on take the same
      interface and next hop. */
  lemma SameDestinationSameWay(table: Table, d: Datagram, e: Datagram, v: Option<(nat, Sent)>, w: Option<(nat, Sent)>)
    requires ValidTable(table) && Decides(table, d, v) && Decides(table, e, w)
    requires d.header.dst == e.header.dst && d.header.ttl > 1 && e.header.ttl > 1
    ensures v.Some? <==> w.Some?
    ensures v.Some? ==> v.value.0 == w.value.0 && v.value.1.nextHop == w.value.1.nextHop
  {
    hide LeadsTo, PrefixMatched;
    VerdictByNumbers(table, d, v);
    VerdictByNumbers(table, e, w);
    if v.Some? {
      var k: nat :| LongestTo(table, d.header.dst, v.value.0, k)
            && v.value.1.nextHop == match table[v.value.0][k].nextHop case Some(hop) => hop case None => d.header.dst;
      var l: nat :| LongestTo(table, e.header.dst, w.value.0, l)
            && w.value.1.nextHop == match table[w.value.0][l].nextHop case Some(hop) => hop case None => e.header.dst;
      assert v.value.0 == w.value.0 && k == l;
    }
  }

  /** Whatever the router sends on is rejected by the next `parse`: its header was right, and with the time to
      live counted down and the checksum left as it was it no longer is. */
  lemma ForwardedIsRejected(table: Table, d: Datagram, verdict: Option<(nat, Sent)>)
    requires ValidTable(table) && Decides(table, d, verdict) && verdict.Some?
    requires IPv4Headers.Fits(d.header) && d.header.ver == 4 && d.header.cksum == Checksum(d.header)
    ensures var h := verdict.value.1.datagram.header;
      h.cksum != Checksum(h) && !Accepts(HeaderBytes(h) + d.payload)
  {
    hide PrefixMatched, Accepts, Checksum, HeaderBytes;
    CountedDownIsRejected(d.header, d.payload);
  }

  /** One interface's turn. */
  ghost predicate TurnTaken(table: Table, a: Network, i: nat, b: Network)
    requires ValidTable(table) && i < |a.inbox|
  {
    if a.inbox[i] == [] then b == a
    else exists verdict :: Decides(table, a.inbox[i][0], verdict) && b == Carried(a, i, verdict)
  }

  /** The first datagram of interface `i` leaves its inbox, and the verdict is carried out. */
  function Carried(a: Network, i: nat, verdict: Option<(nat, Sent)>): Network
    requires i < |a.inbox| && a.inbox[i] != []
  {
    var inbox := a.inbox[i := a.inbox[i][1..]];
    match verdict
    case None => Network(inbox, a.outbox)
    case Some((j, sent)) => Network(inbox, if j < |a.outbox| then a.outbox[j := a.outbox[j] + [sent]] else a.outbox)
  }

  /** A whole `route()`: every interface in turn, at most one datagram each. */
  ghost predicate Routed(table: Table, a: Network, n: nat, b: Network)
    requires ValidTable(table) && n <= |a.inbox|
  {
    if n == 0 then b == a
    else exists m :: Routed(table, a, n - 1, m) && |m.inbox| == |a.inbox| && TurnTaken(table, m, n - 1, b)
  }

  /** What goes to interface `j`, in the order of the interfaces it came from. */
  function ToInterface(verdicts: seq<Option<(nat, Sent)>>, j: nat): seq<Sent> {
    if verdicts == [] then []
    else
      var last := verdicts[|verdicts| - 1];
      ToInterface(verdicts[..|verdicts| - 1], j) + if last.Some? && last.value.0 == j then [last.value.1] else []
  }

  /** What one call of `route()` does to the whole network: every interface with a datagram waiting gives up its
      first one and keeps the others, and what is sent on is put behind what each interface had, in order. */
  ghost predicate MovesOneEach(table: Table, a: Network, n: nat, b: Network, verdicts: seq<Option<(nat, Sent)>>)
    requires ValidTable(table) && n <= |a.inbox|
  {
    && |verdicts| == n && |b.inbox| == |a.inbox| && |b.outbox| == |a.outbox|
    && (forall i :: 0 <= i < n ==>
          if a.inbox[i] == [] then verdicts[i] == None && b.inbox[i] == []
          else Decides(table, a.inbox[i][0], verdicts[i]) && a.inbox[i] == [a.inbox[i][0]] + b.inbox[i])
    && (forall i :: n <= i < |a.inbox| ==> b.inbox[i] == a.inbox[i])
    && (forall j :: 0 <= j < |a.outbox| ==> b.outbox[j] == a.outbox[j] + ToInterface(verdicts, j))
  }

  lemma TurnMoves(table: Table, a: Network, n: nat, m: Network, b: Network, before: seq<Option<(nat, Sent)>>)
      returns (verdicts: seq<Option<(nat, Sent)>>)
    requires ValidTable(table) && n < |a.inbox| == |m.inbox|
    requires MovesOneEach(table, a, n, m, before) && TurnTaken(table, m, n, b)
    ensures MovesOneEach(table, a, n + 1, b, verdicts)
  {
    hide Decides;
    var verdict := None;
    if m.inbox[n] != [] {
      verdict :| Decides(table, m.inbox[n][0], verdict) && b == Carried(m, n, verdict);
      assert a.inbox[n] == [a.inbox[n][0]] + a.inbox[n][1..];
    }
    verdicts := before + [verdict];
    assert verdicts[..n] == before;
    forall j | 0 <= j < |a.outbox|
      ensures b.outbox[j] == a.outbox[j] + ToInterface(verdicts, j)
    {
      assert ToInterface(verdicts, j) == ToInterface(before, j) + if verdict.Some? && verdict.value.0 == j then [verdict.value.1] else [];
    }
  }

  lemma {:induction false} RoutedMovesOneEach(table: Table, a: Network, n: nat, b: Network) returns (verdicts: seq<Option<(nat, Sent)>>)
    requires ValidTable(table) && n <= |a.inbox| && Routed(table, a, n, b)
    ensures MovesOneEach(table, a, n, b, verdicts)
  {
    hide Decides, TurnTaken, MovesOneEach;
    if n == 0 {
      verdicts := [];
      NothingMoved(table, a);
    } else {
      var m :| Routed(table, a, n - 1, m) && |m.inbox| == |a.inbox| && TurnTaken(table, m, n - 1, b);
      var before := RoutedMovesOneEach(table, a, n - 1, m);
      verdicts := TurnMoves(table, a, n - 1, m, b, before);
    }
  }

  lemma NothingMoved(table: Table, a: Network)
    requires ValidTable(table)
    ensures MovesOneEach(table, a, 0, a, [])
  {
    hide Decides;
  }

  class Router {
    var table: Table
    var inbox: seq<seq<Datagram>>
    var outbox: seq<seq<Sent>>

    ghost predicate Valid()
      reads this
    {
      ValidTable(table) && |outbox| == |inbox|
    }

    /** Every route names an interface that exists. */
    ghost predicate Connected()
      reads this
    {
      forall p :: InTable(table, p) ==> p.interfaceNum < |outbox|
    }

    ghost function Value(): Network
      reads this
    {
      Network(inbox, outbox)
    }

    constructor ()
      ensures Valid() && table == [] && Value() == Network([], [])
    {
      table, inbox, outbox := [], [], [];
    }

    method AddInterface() returns (index: nat)
      requires Valid()
      modifies this
      ensures Valid() && table == old(table) && index == |old(inbox)|
      ensures Value() == Network(old(inbox) + [[]], old(outbox) + [[]])
    {
      inbox, outbox := inbox + [[]], outbox + [[]];
      index := |inbox| - 1;
    }

    method AddRoute(prefix: Address, length: nat, nextHop: Option<Address>, interfaceNum: nat)
      requires Valid() && length <= 32
      modifies this`table
      ensures Valid() && table == WithRoute(old(table), Route(prefix, length, nextHop), interfaceNum)
    {
      ghost var before := table;
      table := WithRoute(table, Route(prefix, length, nextHop), interfaceNum);
      assert forall j, k :: 0 <= j < |table| && 0 <= k < |table[j]| && j < |before| && k < |before[j]| ==> table[j][k] == before[j][k];
    }

    method TakeTurn(i: nat)
      requires Valid() && Connected() && i < |inbox|
      modifies this`inbox, this`outbox
      ensures Valid() && Connected() && TurnTaken(table, old(Value()), i, Value())
      ensures |inbox| == |old(inbox)|
    {
      hide PrefixMatched;
      if inbox[i] == [] {
        return;
      }
      ghost var before := Value();
      var d := inbox[i][0];
      inbox := inbox[i := inbox[i][1..]];
      var hop := Lookup(table, d.header.dst);
      ghost var verdict: Option<(nat, Sent)> := None;
      if hop.Some? && d.header.ttl != 1 && d.header.ttl != 0 {
        var j := hop.value.interfaceNum;
        var sent := Sent(CountedDown(d), match hop.value.nextHop case Some(next) => next case None => d.header.dst);
        ghost var p :| IsBest(table, d.header.dst, p) && hop.value == Hop(p.interfaceNum, At(table, p).nextHop);
        assert InTable(table, p);
        outbox := outbox[j := outbox[j] + [sent]];
        verdict := Some((j, sent));
      }
      assert Decides(table, before.inbox[i][0], verdict);
    }

    method RouteAll()
      requires Valid() && Connected()
      modifies this`inbox, this`outbox
      ensures Valid() && Connected() && Routed(table, old(Value()), |old(inbox)|, Value())
    {
      hide Decides, TurnTaken;
      ghost var start := Value();
      for i := 0 to |inbox|
        invariant Valid() && Connected() && |inbox| == |start.inbox|
        invariant Routed(table, start, i, Value())
      {
        ghost var m := Value();
        TakeTurn(i);
        assert Routed(table, start, i, m) && TurnTaken(table, m, i, Value());
      }
    }
  }
}
