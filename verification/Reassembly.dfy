/** What `Reassembler::insert` computes (src/reassembler.cc), without ring, bitmap or loops:
    merge the offered bytes into the held ones, then write out the contiguous run. */
module Reassembly {
  import opened Words
  import opened ByteStreams

  /** `pending` maps each held stream index to its byte; `out` is the stream being written. */
  datatype Assembly = Assembly(pending: map<nat, Byte>, reachEnd: bool, out: Stream) {
    /** The first index not yet written. */
    function First(): nat {
      |out.pushed|
    }

    /** The first index beyond the stream's available capacity. */
    function Limit(): nat {
      out.popped + out.capacity
    }

    ghost predicate Valid() {
      && out.Valid()
      && forall g :: g in pending ==> First() < g < Limit()
    }
  }

  function Start(capacity: nat): Assembly {
    Assembly(map[], false, Fresh(capacity))
  }

  /** Where the usable part of the data ends; the sum is a 64-bit sum. */
  function Tail(a: Assembly, index: U64, data: seq<Byte>): nat {
    Min(Low64(index + |data|), a.Limit())
  }

  /** The bytes of the data that lie inside the window. */
  ghost function Offered(a: Assembly, index: U64, data: seq<Byte>): map<nat, Byte> {
    map g | g in Interval(Max(index, a.First()), Tail(a, index, data)) :: data[g - index]
  }

  /** In-order data replaces held bytes; out-of-order data only fills gaps. */
  ghost function Known(a: Assembly, index: U64, data: seq<Byte>): map<nat, Byte> {
    if index <= a.First() then a.pending + Offered(a, index, data) else Offered(a, index, data) + a.pending
  }

  /** The first index from `i` on that is not known, looking no further than `limit`. */
  function RunEnd(known: map<nat, Byte>, i: nat, limit: nat): (end: nat)
    requires i <= limit
    ensures i <= end <= limit
    ensures forall g :: i <= g < end ==> g in known
    ensures end < limit ==> end !in known
    decreases limit - i
  {
    if i < limit && i in known then RunEnd(known, i + 1, limit) else i
  }

  function Stretch(known: map<nat, Byte>, lo: nat, hi: nat): seq<Byte>
    requires lo <= hi && forall g :: lo <= g < hi ==> g in known
  {
    seq(hi - lo, k requires 0 <= k < hi - lo => known[lo + k])
  }

  function Beyond(known: map<nat, Byte>, end: nat): map<nat, Byte> {
    map g | g in known && g >= end :: known[g]
  }

  /** Where the bytes go: merge, write out the run from the first unassembled index, hold the rest. */
  ghost function Merge(a: Assembly, index: U64, data: seq<Byte>): (b: Assembly)
    requires a.Valid()
    ensures b.Valid() && b.out.popped == a.out.popped && b.out.capacity == a.out.capacity
    ensures a.out.pushed <= b.out.pushed
  {
    var known := Known(a, index, data);
    var end := RunEnd(known, a.First(), a.Limit());
    var out := a.out.(pushed := a.out.pushed + Stretch(known, a.First(), end));
    assert |out.pushed| == end;
    assert forall g :: g in known ==> g < a.Limit();
    Assembly(Beyond(known, end), a.reachEnd, out)
  }

  function Announce(a: Assembly, last: bool): Assembly {
    a.(reachEnd := a.reachEnd || last)
  }

  ghost function Insert(a: Assembly, index: U64, data: seq<Byte>, last: bool): (b: Assembly)
    requires a.Valid()
    ensures b.Valid() && b.out.popped == a.out.popped && b.out.capacity == a.out.capacity
    ensures a.out.pushed <= b.out.pushed
  {
    Settle(Merge(Announce(a, last), index, data))
  }

  /** The close check that runs on every exit from `insert`. */
  function Settle(a: Assembly): Assembly {
    if a.reachEnd && a.pending == map[] then a.(out := a.out.(closed := true)) else a
  }
}
