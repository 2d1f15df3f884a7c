/** The two queues of the sender as one contiguous retransmission queue. */
module SenderQueues {
  import opened Words
  import Wrap32
  import opened ByteStreams
  import opened TcpMessages
  import opened SenderModel

  // ----- the queue -----

  function Msgs(u: seq<Queued>): seq<Segment> {
    seq(|u|, i requires 0 <= i < |u| => u[i].msg)
  }

  /** The retransmissions at the head of the unsent queue, oldest first: the reverse of their order there. */
  function Again(u: seq<Queued>): seq<Segment> {
    if u == [] || !u[0].retransmitted then [] else Again(u[1..]) + [u[0].msg]
  }

  /** What follows the retransmissions: segments never sent. */
  function New(u: seq<Queued>): seq<Segment> {
    if u == [] then [] else if u[0].retransmitted then New(u[1..]) else Msgs(u)
  }

  /** Retransmissions come first. */
  ghost predicate AgainFirst(u: seq<Queued>) {
    forall i, j :: 0 <= i < j < |u| && u[j].retransmitted ==> u[i].retransmitted
  }

  /** Everything outstanding, in sequence order. */
  function Outstanding(s: Sender): seq<Segment> {
    Again(s.unsent) + s.unacked + New(s.unsent)
  }

  lemma {:induction false} TotalOfSum(q: seq<Segment>, r: seq<Segment>)
    ensures Total(q + r) == Total(q) + Total(r)
  {
    if q == [] {
      assert q + r == r;
    } else {
      assert (q + r)[0] == q[0] && (q + r)[1..] == q[1..] + r;
      TotalOfSum(q[1..], r);
    }
  }

  lemma TotalOfOne(m: Segment)
    ensures Total([m]) == m.Length()
  {
    assert [m][1..] == [];
  }

  lemma {:induction false} TotalOfSplit(u: seq<Queued>)
    ensures Total(Again(u)) + Total(New(u)) == Total(Msgs(u))
  {
    if u != [] && u[0].retransmitted {
      TotalOfSplit(u[1..]);
      TotalOfSum(Again(u[1..]), [u[0].msg]);
      TotalOfOne(u[0].msg);
      assert Msgs(u)[1..] == Msgs(u[1..]);
    } else {
      assert Again(u) == [] && New(u) == Msgs(u);
    }
  }

  lemma OutstandingTotal(s: Sender)
    ensures Total(Outstanding(s)) == Total(s.unacked) + Total(Msgs(s.unsent))
  {
    TotalOfSplit(s.unsent);
    TotalOfSum(Again(s.unsent) + s.unacked, New(s.unsent));
    TotalOfSum(Again(s.unsent), s.unacked);
  }

  // ----- what a segment at an absolute sequence number carries -----

  /** SYN sits at 0, stream byte `i` at `i + 1`, FIN after the last byte of a closed stream. */
  ghost predicate SegmentAt(m: Segment, lo: nat, isn: U32, out: Stream) {
    var from := if m.syn then 0 else lo - 1;
    && lo < TWO64 && m.seqno == Wrap32.Wrap(lo, isn)
    && (m.syn <==> lo == 0)
    && (m.syn ==> m.payload == [])
    && m.Length() > 0 && |m.payload| <= MAX_PAYLOAD_SIZE
    && from + |m.payload| <= out.popped <= |out.pushed|
    && m.payload == out.pushed[from..from + |m.payload|]
    && (m.fin ==> from + |m.payload| == |out.pushed| && out.closed)
  }

  /** The segments follow one another from `lo` without gap or overlap. */
  ghost predicate Tiles(q: seq<Segment>, lo: nat, isn: U32, out: Stream) {
    q == [] || (SegmentAt(q[0], lo, isn, out) && Tiles(q[1..], lo + q[0].Length(), isn, out))
  }

  lemma {:induction false} TilesOfSum(q: seq<Segment>, r: seq<Segment>, lo: nat, isn: U32, out: Stream)
    ensures Tiles(q + r, lo, isn, out) <==> Tiles(q, lo, isn, out) && Tiles(r, lo + Total(q), isn, out)
  {
    hide SegmentAt;
    if q == [] {
      assert q + r == r;
    } else {
      assert (q + r)[0] == q[0] && (q + r)[1..] == q[1..] + r;
      TilesOfSum(q[1..], r, lo + q[0].Length(), isn, out);
    }
  }

  lemma TilesOfOne(m: Segment, lo: nat, isn: U32, out: Stream)
    ensures Tiles([m], lo, isn, out) <==> SegmentAt(m, lo, isn, out)
  {
    hide SegmentAt;
    assert [m][1..] == [];
  }

  /** The stream only moved on: more was written unless it was closed, more was read. */
  ghost predicate MovedOn(a: Stream, b: Stream) {
    && a.pushed <= b.pushed && a.popped <= b.popped && b.Valid()
    && (a.closed ==> b.closed && b.pushed == a.pushed)
  }

  lemma SegmentStays(m: Segment, lo: nat, isn: U32, a: Stream, b: Stream)
    requires SegmentAt(m, lo, isn, a) && MovedOn(a, b)
    ensures SegmentAt(m, lo, isn, b)
  {
    hide Wrap32.Wrap;
    var from := if m.syn then 0 else lo - 1;
    assert a.pushed == b.pushed[..|a.pushed|];
    assert a.pushed[from..from + |m.payload|] == b.pushed[from..from + |m.payload|];
  }

  lemma {:induction false} TilesStay(q: seq<Segment>, lo: nat, isn: U32, a: Stream, b: Stream)
    requires Tiles(q, lo, isn, a) && MovedOn(a, b)
    ensures Tiles(q, lo, isn, b)
  {
    hide SegmentAt, MovedOn;
    if q != [] {
      SegmentStays(q[0], lo, isn, a, b);
      TilesStay(q[1..], lo + q[0].Length(), isn, a, b);
    }
  }

  /** The segment at position `i` of a tiling and where it lies. */
  lemma {:induction false} TileAt(q: seq<Segment>, i: nat, lo: nat, isn: U32, out: Stream)
    requires Tiles(q, lo, isn, out) && i < |q|
    ensures SegmentAt(q[i], lo + Total(q[..i]), isn, out)
    ensures Total(q[..i]) + q[i].Length() + Total(q[i + 1..]) == Total(q)
  {
    assert q == q[..i] + ([q[i]] + q[i + 1..]);
    TilesOfSum(q[..i], [q[i]] + q[i + 1..], lo, isn, out);
    TotalOfSum(q[..i], [q[i]] + q[i + 1..]);
    TotalOfSum([q[i]], q[i + 1..]);
    TotalOfOne(q[i]);
    assert ([q[i]] + q[i + 1..])[0] == q[i];
  }
}
