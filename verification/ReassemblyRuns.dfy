/** What a run of insertions guarantees, stated with the set of delivered indices only. */
module ReassemblyRuns {
  import opened Words
  import opened ByteStreams
  import opened Reassembly
  import opened Reassemblers
  import opened Ring

  /** `got` is the set of stream indices delivered so far while inside the window: the written stream is
      the source up to the least index not delivered, and the held bytes are the delivered ones beyond it. */
  ghost predicate Tracks(a: Assembly, got: set<nat>, source: seq<Byte>) {
    && a.Valid()
    && a.First() !in got && (forall i: nat :: i < a.First() ==> i in got)
    && (forall i :: i in a.pending <==> i in got && i > a.First())
    && (forall i :: i in got ==> i < |source|)
    && a.First() <= |source| && a.out.pushed == source[..a.First()]
    && (forall i :: i in a.pending ==> a.pending[i] == source[i])
  }

  /** The indices of a substring that lie inside the window on arrival. */
  ghost function Delivered(a: Assembly, index: nat, len: nat): set<nat> {
    Interval(index, Min(index + len, a.out.popped + a.out.capacity))
  }

  /** The data is the source at that index, and it is flagged last only at the end of the source. */
  ghost predicate Consistent(source: seq<Byte>, index: U64, data: seq<Byte>, last: bool) {
    && index + |data| <= |source| < TWO64
    && data == source[index..index + |data|]
    && (last ==> index + |data| == |source|)
  }

  lemma OfferedBytes(a: Assembly, source: seq<Byte>, index: U64, data: seq<Byte>)
    requires a.Valid() && Consistent(source, index, data, false)
    ensures var offered := Offered(a, index, data);
      && (forall g: nat :: g in offered <==> Max(index, a.First()) <= g < Min(index + |data|, a.Limit()))
      && (forall g :: g in offered ==> offered[g] == source[g])
  {
    assert Low64(index + |data|) == index + |data|;
  }

  lemma KnownBytes(a: Assembly, got: set<nat>, source: seq<Byte>, index: U64, data: seq<Byte>)
    requires Tracks(a, got, source) && Consistent(source, index, data, false)
    ensures var known := Known(a, index, data);
      && (forall g :: g in known ==> a.First() <= g < Min(|source|, a.Limit()) && known[g] == source[g])
      && (forall g: nat :: g in got + Delivered(a, index, |data|) <==> g < a.First() || g in known)
  {
    OfferedBytes(a, source, index, data);
    hide Offered;
  }

  lemma InsertShape(a: Assembly, index: U64, data: seq<Byte>, last: bool)
    requires a.Valid()
    ensures var b, known := Insert(a, index, data, last), Known(a, index, data);
      var end := RunEnd(known, a.First(), a.Limit());
      && b.First() == end && b.out.pushed == a.out.pushed + Stretch(known, a.First(), end)
      && b.pending == Beyond(known, end)
      && b.reachEnd == (a.reachEnd || last)
      && b.out.closed == (a.out.closed || (b.reachEnd && b.pending == map[]))
  {
    hide RunEnd, Beyond;
    assert Known(Announce(a, last), index, data) == Known(a, index, data) by {
      assert Offered(Announce(a, last), index, data) == Offered(a, index, data);
    }
    hide Known;
  }

  // ----- which bytes count, also when substrings contradict one another -----

  lemma ArrivingIsKnown(a: Assembly, index: U64, data: seq<Byte>)
    requires a.Valid() && index <= a.First() && index + |data| < TWO64
    ensures var known := Known(a, index, data);
      forall g: nat :: a.First() <= g < index + |data| && g < a.Limit() ==> g in known && known[g] == data[g - index]
  {
    assert Low64(index + |data|) == index + |data|;
  }

  lemma RunCovers(known: map<nat, Byte>, i: nat, to: nat, limit: nat)
    requires i <= to <= limit && forall g :: i <= g < to ==> g in known
    ensures RunEnd(known, i, limit) >= to
  {
    var end := RunEnd(known, i, limit);
    assert end < to ==> end in known;
  }

  /** Data at the first unassembled index that fits the window is written out, whatever is held. */
  lemma InOrderIsWritten(a: Assembly, data: seq<Byte>, last: bool)
    requires a.Valid() && data != [] && a.First() + |data| <= a.out.popped + a.out.capacity && a.First() + |data| < TWO64
    ensures a.out.pushed + data <= Insert(a, a.First(), data, last).out.pushed
  {
    hide Insert, Known, RunEnd, Low64;
    InsertShape(a, a.First(), data, last);
    ArrivingIsKnown(a, a.First(), data);
    var known := Known(a, a.First(), data);
    RunCovers(known, a.First(), a.First() + |data|, a.Limit());
    assert Stretch(known, a.First(), RunEnd(known, a.First(), a.Limit()))[..|data|] == data;
  }

  /** An arriving substring that reaches the first unassembled index wins over what is held: every byte of it
      inside the window is written as it arrived. */
  lemma ArrivingBytesWin(a: Assembly, index: U64, data: seq<Byte>, last: bool, g: nat)
    requires a.Valid() && index <= a.First() <= g < index + |data| < TWO64 && g < a.out.popped + a.out.capacity
    ensures var b := Insert(a, index, data, last); g < b.First() && b.out.pushed[g] == data[g - index]
  {
    hide Insert, Known, RunEnd, Low64;
    InsertShape(a, index, data, last);
    ArrivingIsKnown(a, index, data);
    var known := Known(a, index, data);
    RunCovers(known, a.First(), g + 1, a.Limit());
  }

  /** An arriving substring ahead of a gap only fills gaps: held bytes stay as they are. */
  lemma HeldBytesStay(a: Assembly, index: U64, data: seq<Byte>, last: bool, g: nat)
    requires a.Valid() && a.First() < index && |data| < TWO64 / 2 && g in a.pending
    ensures var b := Insert(a, index, data, last);
      && g in b.pending && b.pending[g] == a.pending[g] && b.out.pushed == a.out.pushed
  {
    InsertShape(a, index, data, last);
    OutOfOrder(a, index, data);
    hide Insert, Known, RunEnd;
    assert a.out.pushed + [] == a.out.pushed;
  }

  /** One insertion keeps the relation, with the newly delivered indices added. */
  lemma InsertTracks(a: Assembly, got: set<nat>, source: seq<Byte>, index: U64, data: seq<Byte>, last: bool)
    requires Tracks(a, got, source) && Consistent(source, index, data, last)
    ensures Tracks(Insert(a, index, data, last), got + Delivered(a, index, |data|), source)
  {
    KnownBytes(a, got, source, index, data);
    InsertShape(a, index, data, last);
    hide Known, Delivered, Insert, RunEnd, Tracks, Beyond, Stretch;
    AdvanceTracks(a, got, got + Delivered(a, index, |data|), source, Known(a, index, data), Insert(a, index, data, last));
  }

  lemma AdvanceTracks(a: Assembly, got: set<nat>, got': set<nat>, source: seq<Byte>, known: map<nat, Byte>, b: Assembly)
    requires Tracks(a, got, source)
    requires forall g :: g in known ==> a.First() <= g < |source| && known[g] == source[g]
    requires forall g: nat :: g in got' <==> g < a.First() || g in known
    requires b.Valid() && b.First() == RunEnd(known, a.First(), a.Limit())
    requires b.out.pushed == a.out.pushed + Stretch(known, a.First(), b.First()) && b.pending == Beyond(known, b.First())
    requires forall g :: g in known ==> g < a.Limit()
    ensures Tracks(b, got', source)
  {
    hide RunEnd;
    assert |source| !in known;
    assert b.First() <= |source|;
    assert source[..a.First()] + Stretch(known, a.First(), b.First()) == source[..b.First()];
  }

  /** A reader taking bytes only widens the window. */
  lemma ReadTracks(a: Assembly, got: set<nat>, source: seq<Byte>, len: nat)
    requires Tracks(a, got, source)
    ensures Tracks(a.(out := a.out.Pop(len)), got, source)
  {
  }

  /** What can happen to a reassembler and its stream: a substring of the source arrives, or the reader reads. */
  datatype Event = Arrive(index: U64, len: nat, last: bool) | Read(len: nat)

  ghost predicate Fits(source: seq<Byte>, e: Event) {
    e.Arrive? ==> e.index + e.len <= |source| && (e.last ==> e.index + e.len == |source|)
  }

  ghost predicate AllFit(source: seq<Byte>, events: seq<Event>) {
    |source| < TWO64 && forall i :: 0 <= i < |events| ==> Fits(source, events[i])
  }

  ghost function Step(a: Assembly, source: seq<Byte>, e: Event): (b: Assembly)
    requires a.Valid() && Fits(source, e)
    ensures b.Valid()
  {
    match e
    case Arrive(index, len, last) => Insert(a, index, source[index..index + len], last)
    case Read(len) => a.(out := a.out.Pop(len))
  }

  ghost function Run(a: Assembly, source: seq<Byte>, events: seq<Event>): (b: Assembly)
    requires a.Valid() && AllFit(source, events)
    ensures b.Valid()
    decreases |events|
  {
    if events == [] then a else Run(Step(a, source, events[0]), source, events[1..])
  }

  /** The reassembler may be called: the arriving range is none that the bitmap leaves uncleared. */
  ghost predicate Handled(a: Assembly, source: seq<Byte>, e: Event)
    requires a.Valid() && Fits(source, e) && |source| < TWO64
  {
    e.Arrive? ==> Manageable(a, e.index, source[e.index..e.index + e.len])
  }

  ghost predicate AllHandled(a: Assembly, source: seq<Byte>, events: seq<Event>)
    requires a.Valid() && AllFit(source, events)
    decreases |events|
  {
    events == [] || (Handled(a, source, events[0]) && AllHandled(Step(a, source, events[0]), source, events[1..]))
  }

  ghost function NewlyDelivered(a: Assembly, e: Event): set<nat> {
    if e.Arrive? then Delivered(a, e.index, e.len) else {}
  }

  /** All indices delivered inside the window over a run. */
  ghost function Got(a: Assembly, source: seq<Byte>, events: seq<Event>): set<nat>
    requires a.Valid() && AllFit(source, events)
    decreases |events|
  {
    if events == [] then {}
    else NewlyDelivered(a, events[0]) + Got(Step(a, source, events[0]), source, events[1..])
  }

  lemma StepTracks(a: Assembly, got: set<nat>, source: seq<Byte>, e: Event)
    requires Tracks(a, got, source) && Fits(source, e) && |source| < TWO64
    ensures Tracks(Step(a, source, e), got + NewlyDelivered(a, e), source)
  {
    hide Tracks, Insert;
    match e
    case Arrive(index, len, last) =>
      InsertTracks(a, got, source, index, source[index..index + len], last);
    case Read(len) =>
      ReadTracks(a, got, source, len);
      assert got + {} == got;
  }

  /** Over every run: the written stream is the source up to the least undelivered index and the held
      bytes are the delivered ones beyond it. */
  lemma {:induction false} RunTracks(a: Assembly, got: set<nat>, source: seq<Byte>, events: seq<Event>)
    requires Tracks(a, got, source) && AllFit(source, events) && AllHandled(a, source, events)
    ensures Tracks(Run(a, source, events), got + Got(a, source, events), source)
    decreases |events|
  {
    if events == [] {
      assert got + {} == got;
    } else {
      var b, more := Step(a, source, events[0]), NewlyDelivered(a, events[0]);
      StepTracks(a, got, source, events[0]);
      hide Tracks, Step, NewlyDelivered;
      RunTracks(b, got + more, source, events[1..]);
      var rest := Got(b, source, events[1..]);
      assert got + more + rest == got + (more + rest);
    }
  }

  /** The refinement, spelled out from a fresh reassembler. */
  lemma ReassemblesPrefix(capacity: nat, source: seq<Byte>, events: seq<Event>)
    requires AllFit(source, events) && AllHandled(Start(capacity), source, events)
    ensures var a, got := Run(Start(capacity), source, events), Got(Start(capacity), source, events);
      && a.First() !in got && (forall i: nat :: i < a.First() ==> i in got)
      && a.First() <= |source| && a.out.pushed == source[..a.First()]
      && a.pending.Keys == (set i | i in got && i > a.First())
      && (forall i :: i in a.pending ==> i < |source| && a.pending[i] == source[i])
  {
    RunTracks(Start(capacity), {}, source, events);
    assert {} + Got(Start(capacity), source, events) == Got(Start(capacity), source, events);
  }

  lemma {:induction false} ShortStepsAreHandled(a: Assembly, got: set<nat>, source: seq<Byte>, events: seq<Event>)
    requires Tracks(a, got, source) && AllFit(source, events)
    requires |source| + 2 * a.out.capacity < TWO64 / 2
    requires forall i :: 0 <= i < |events| && events[i].Arrive? ==> events[i].len + 31 <= a.out.capacity
    ensures AllHandled(a, source, events)
    decreases |events|
  {
    if events != [] {
      StepTracks(a, got, source, events[0]);
      if events[0].Arrive? {
        assert a.Limit() <= |source| + a.out.capacity;
        ShortDataIsManageable(a, events[0].index, source[events[0].index..events[0].index + events[0].len]);
      }
      hide Tracks, Insert, Manageable, Delivered;
      ShortStepsAreHandled(Step(a, source, events[0]), got + NewlyDelivered(a, events[0]), source, events[1..]);
    }
  }

  /** Substrings at least 31 bytes shorter than the capacity may be handed in at any time, in any order. */
  lemma ShortRunsAreHandled(capacity: nat, source: seq<Byte>, events: seq<Event>)
    requires AllFit(source, events) && |source| + 2 * capacity < TWO64 / 2
    requires forall i :: 0 <= i < |events| && events[i].Arrive? ==> events[i].len + 31 <= capacity
    ensures AllHandled(Start(capacity), source, events)
  {
    ShortStepsAreHandled(Start(capacity), {}, source, events);
  }

  // ----- The code over whole runs -----

  /** One event on the objects. */
  method Take(r: Reassembler, output: ByteStream, source: seq<Byte>, e: Event)
    requires r.Valid(output) && Fits(source, e) && |source| < TWO64 && Handled(r.Value(output), source, e)
    modifies r, r.bitmap, output, output.buffer, output.buffer.storage
    ensures r.Valid(output) && output.buffer.storage == old(output.buffer.storage)
    ensures r.Value(output) == Step(old(r.Value(output)), source, e)
  {
    hide Reassembler.Valid, Reassembler.Value, Insert, Manageable;
    match e
    case Arrive(index, len, last) => r.Insert(index, source[index..index + len], last, output);
    case Read(len) => r.LetRead(len, output);
  }

  /** The events of a run, one after the other, on ring, bitmap and stream. */
  method Replay(r: Reassembler, output: ByteStream, source: seq<Byte>, events: seq<Event>)
    requires r.Valid(output) && AllFit(source, events) && AllHandled(r.Value(output), source, events)
    modifies r, r.bitmap, output, output.buffer, output.buffer.storage
    ensures r.Valid(output)
    ensures r.Value(output) == Run(old(r.Value(output)), source, events)
  {
    hide Reassembler.Valid, Reassembler.Value, Step, Handled, Fits, ByteStream.Valid, ByteStream.State;
    ghost var storage := output.buffer.storage;
    assert events[0..] == events;
    for i := 0 to |events|
      invariant r.Valid(output) && output.buffer.storage == storage
      invariant AllFit(source, events[i..]) && AllHandled(r.Value(output), source, events[i..])
      invariant Run(r.Value(output), source, events[i..]) == Run(old(r.Value(output)), source, events)
    {
      assert events[i..][0] == events[i] && events[i..][1..] == events[i + 1..];
      Take(r, output, source, events[i]);
    }
  }

  /** The code itself reassembles: after any run from the start whose ranges may be handed in, the stream
      object holds the source up to the first unassembled index, which is the least one not delivered, and
      the counter of pending bytes is the number of delivered indices beyond it. */
  method Reassembled(capacity: nat, source: seq<Byte>, events: seq<Event>) returns (r: Reassembler, output: ByteStream)
    requires AllFit(source, events) && AllHandled(Start(capacity), source, events)
    ensures r.Valid(output)
    ensures var got := Got(Start(capacity), source, events);
      && r.firstUnassembled !in got && (forall i: nat :: i < r.firstUnassembled ==> i in got)
      && r.firstUnassembled <= |source| && output.State().pushed == source[..r.firstUnassembled]
      && output.bytesPushed == r.firstUnassembled
      && r.bytesPending == |set i | i in got && i > r.firstUnassembled|
  {
    output := new ByteStream(capacity);
    r := new Reassembler(output);
    Replay(r, output, source, events);
    ReassemblesPrefix(capacity, source, events);
    r.ValueIs(output);
    r.PendingCount(output);
    hide Run, Got, AllHandled;
    SizeOfKeys(r.held);
  }

  lemma SizeOfKeys(m: map<nat, Byte>)
    ensures |m| == |m.Keys|
  {
  }

  // ----- When the stream is closed -----

  /** Once the end has been announced, the last byte is written or held: it can no longer be missed. */
  ghost predicate EndSecured(a: Assembly, source: seq<Byte>) {
    a.reachEnd ==> a.First() == |source| || |source| - 1 in a.pending
  }

  /** Closed at the right moment: the end has been announced and every byte is written. */
  ghost predicate ClosedExactly(a: Assembly, source: seq<Byte>) {
    a.out.closed <==> a.reachEnd && a.First() == |source|
  }

  /** What a caller can check before passing the substring flagged last: nothing is missing before it,
      its last byte is already held, or it is non-empty and ends inside the window. */
  ghost predicate LastIsUsable(a: Assembly, source: seq<Byte>, len: nat) {
    a.First() == |source| || |source| - 1 in a.pending || (len > 0 && |source| <= a.out.popped + a.out.capacity)
  }

  /** The first substring flagged last secures the end exactly when it is usable. */
  lemma EndSecuredIff(a: Assembly, got: set<nat>, source: seq<Byte>, index: U64, data: seq<Byte>)
    requires Tracks(a, got, source) && Consistent(source, index, data, true)
    ensures EndSecured(Insert(a, index, data, true), source) <==> LastIsUsable(a, source, |data|)
  {
    var b, got' := Insert(a, index, data, true), got + Delivered(a, index, |data|);
    InsertTracks(a, got, source, index, data, true);
    assert b.reachEnd;
    hide Insert;
    if |source| > 0 {
      assert |source| - 1 in got' <==> b.First() == |source| || |source| - 1 in b.pending;
      assert |source| - 1 in got <==> a.First() == |source| || |source| - 1 in a.pending;
    }
  }

  /** From there on the stream is closed by the insertion that writes the last byte, and not before. */
  lemma InsertClosesExactly(a: Assembly, got: set<nat>, source: seq<Byte>, index: U64, data: seq<Byte>, last: bool)
    requires Tracks(a, got, source) && Consistent(source, index, data, last)
    requires EndSecured(a, source) && ClosedExactly(a, source)
    requires last && !a.reachEnd ==> LastIsUsable(a, source, |data|)
    ensures var b := Insert(a, index, data, last);
      EndSecured(b, source) && ClosedExactly(b, source) && (a.out.closed ==> b.out.closed)
  {
    InsertTracks(a, got, source, index, data, last);
    if last {
      EndSecuredIff(a, got, source, index, data);
    }
    InsertFlags(a, index, data, last);
    hide Tracks, Insert, EndSecured, ClosedExactly, Consistent, LastIsUsable, Delivered;
    ClosingIsExact(a, Insert(a, index, data, last), got, got + Delivered(a, index, |data|), source);
  }

  lemma InsertFlags(a: Assembly, index: U64, data: seq<Byte>, last: bool)
    requires a.Valid()
    ensures var b := Insert(a, index, data, last);
      b.reachEnd == (a.reachEnd || last) && b.out.closed == (a.out.closed || (b.reachEnd && b.pending == map[]))
  {
    hide Known, RunEnd, Stretch, Beyond;
    InsertShape(a, index, data, last);
  }

  lemma StepClosesExactly(a: Assembly, got: set<nat>, source: seq<Byte>, e: Event)
    requires a.Valid() && Tracks(a, got, source) && Fits(source, e) && |source| < TWO64
    requires EndSecured(a, source) && ClosedExactly(a, source)
    requires e.Arrive? && e.last && !a.reachEnd ==> LastIsUsable(a, source, e.len)
    ensures EndSecured(Step(a, source, e), source) && ClosedExactly(Step(a, source, e), source)
  {
    hide Tracks, Insert, EndSecured, ClosedExactly, LastIsUsable;
    match e
    case Arrive(index, len, last) =>
      InsertClosesExactly(a, got, source, index, source[index..index + len], last);
    case Read(len) =>
      ReadClosesExactly(a, source, len);
  }

  lemma ReadClosesExactly(a: Assembly, source: seq<Byte>, len: nat)
    requires a.Valid() && EndSecured(a, source) && ClosedExactly(a, source)
    ensures var b := a.(out := a.out.Pop(len)); EndSecured(b, source) && ClosedExactly(b, source)
  {
  }

  lemma ClosingIsExact(a: Assembly, b: Assembly, got: set<nat>, got': set<nat>, source: seq<Byte>)
    requires Tracks(a, got, source) && Tracks(b, got', source) && got <= got'
    requires EndSecured(a, source) && ClosedExactly(a, source)
    requires b.out.closed == (a.out.closed || (b.reachEnd && b.pending == map[]))
    requires a.reachEnd ==> b.reachEnd
    requires b.reachEnd && !a.reachEnd ==> EndSecured(b, source)
    ensures EndSecured(b, source) && ClosedExactly(b, source)
  {
    if b.reachEnd && |source| > 0 {
      assert |source| - 1 in got' ==> b.First() == |source| || |source| - 1 in b.pending;
      assert a.reachEnd ==> |source| - 1 in got;
    }
    assert b.First() == |source| ==> b.pending == map[];
  }

  /** Every first flagged substring of the run is usable when it arrives. */
  ghost predicate LastsAreUsable(a: Assembly, source: seq<Byte>, events: seq<Event>)
    requires a.Valid() && AllFit(source, events)
    decreases |events|
  {
    events == [] ||
    ((events[0].Arrive? && events[0].last && !a.reachEnd ==> LastIsUsable(a, source, events[0].len))
     && LastsAreUsable(Step(a, source, events[0]), source, events[1..]))
  }

  lemma {:induction false} RunClosesExactly(a: Assembly, got: set<nat>, source: seq<Byte>, events: seq<Event>)
    requires Tracks(a, got, source) && AllFit(source, events) && AllHandled(a, source, events)
    requires EndSecured(a, source) && ClosedExactly(a, source)
    requires LastsAreUsable(a, source, events)
    ensures EndSecured(Run(a, source, events), source) && ClosedExactly(Run(a, source, events), source)
    decreases |events|
  {
    if events != [] {
      StepTracks(a, got, source, events[0]);
      StepClosesExactly(a, got, source, events[0]);
      hide Tracks, Step, NewlyDelivered, EndSecured, ClosedExactly, LastIsUsable;
      RunClosesExactly(Step(a, source, events[0]), got + NewlyDelivered(a, events[0]), source, events[1..]);
    }
  }

  /** A single byte may always be handed in: its range starts and ends in the same slot. */
  lemma SmallIsHandled(a: Assembly, source: seq<Byte>, index: U64, len: nat)
    requires a.Valid() && len <= 1 && index + len <= |source| < TWO64 && a.Limit() + a.out.capacity < TWO64 / 2
    ensures Handled(a, source, Arrive(index, len, false))
  {
    hide Slot;
    assert Low64(index + len) == index + len;
    var size := a.out.capacity;
    if size > 0 && index <= a.First() < Tail(a, index, source[index..index + len]) {
      SlotOfSum(a.First(), size, size);
    }
  }

  lemma GapBeforeEnd(a: Assembly, got: set<nat>, source: seq<Byte>)
    requires Tracks(a, got, source) && a.reachEnd && !EndSecured(a, source) && a.pending != map[]
    ensures a.First() + 1 < |source| && |source| - 1 !in got
  {
    var g :| g in a.pending;
    assert g in got && g < |source| && g != |source| - 1;
  }

  lemma StillUnsecured(a: Assembly, got: set<nat>, b: Assembly, source: seq<Byte>)
    requires Tracks(b, got + {a.First()}, source) && (forall i: nat :: i < a.First() ==> i in got)
    requires b.reachEnd && a.First() + 1 < |source| && |source| - 1 !in got
    ensures !EndSecured(b, source) && b.First() > a.First()
  {
    assert forall i: nat :: i <= a.First() ==> i in got + {a.First()};
    assert |source| - 1 !in got + {a.First()};
  }

  /** The byte at the first unassembled index, with something held behind it, leaves the end unsecured. */
  lemma OneByteIn(a: Assembly, got: set<nat>, source: seq<Byte>)
    requires Tracks(a, got, source) && |source| < TWO64 && a.reachEnd && !EndSecured(a, source) && a.pending != map[]
    ensures a.First() + 1 <= |source|
    ensures var b := Step(a, source, Arrive(a.First(), 1, false));
      && Tracks(b, got + {a.First()}, source) && b.reachEnd && !EndSecured(b, source) && b.First() > a.First()
      && b.out.capacity == a.out.capacity && b.out.popped == a.out.popped
  {
    GapBeforeEnd(a, got, source);
    var i, data := a.First(), source[a.First()..a.First() + 1];
    InsertTracks(a, got, source, i, data, false);
    InsertFlags(a, i, data, false);
    assert Delivered(a, i, 1) == {i} by {
      assert exists g :: g in a.pending;
    }
    StillUnsecured(a, got, Insert(a, i, data, false), source);
    hide Insert, Tracks, EndSecured, Delivered;
  }

  lemma EmptyTriggersClose(a: Assembly, source: seq<Byte>)
    requires a.Valid() && a.pending == map[] && a.reachEnd && |source| < TWO64
    ensures var b := Step(a, source, Arrive(0, 0, false)); b.out.closed && b.First() == a.First()
  {
    NothingArrives(a, 0, false);
    hide Insert;
  }

  /** If the announced end is not secured, further genuine substrings, each of which may be handed in when it
      arrives, close the stream with bytes missing: the condition of `EndSecuredIff` cannot be weakened. */
  lemma {:induction false} UnsecuredEndClosesEarly(a: Assembly, got: set<nat>, source: seq<Byte>) returns (events: seq<Event>)
    requires Tracks(a, got, source) && |source| < TWO64 && a.Limit() + a.out.capacity < TWO64 / 2
    requires a.reachEnd && !EndSecured(a, source)
    ensures AllFit(source, events) && AllHandled(a, source, events)
    ensures var b := Run(a, source, events); b.out.closed && b.First() < |source|
    decreases |source| - a.First()
  {
    var e, rest := Arrive(0, 0, false), [];
    if a.pending == map[] {
      SmallIsHandled(a, source, 0, 0);
      EmptyTriggersClose(a, source);
    } else {
      e := Arrive(a.First(), 1, false);
      OneByteIn(a, got, source);
      SmallIsHandled(a, source, a.First(), 1);
      rest := UnsecuredEndClosesEarly(Step(a, source, e), got + {a.First()}, source);
    }
    events := [e] + rest;
    hide Step, Handled, Tracks, EndSecured;
    OneThenRest(a, source, e, rest);
  }

  lemma OneThenRest(a: Assembly, source: seq<Byte>, e: Event, rest: seq<Event>)
    requires a.Valid() && |source| < TWO64 && Fits(source, e) && AllFit(source, rest)
    requires Handled(a, source, e) && AllHandled(Step(a, source, e), source, rest)
    ensures AllFit(source, [e] + rest) && AllHandled(a, source, [e] + rest)
    ensures Run(a, source, [e] + rest) == Run(Step(a, source, e), source, rest)
  {
    hide Step, Handled, Fits;
    var events := [e] + rest;
    assert events[0] == e && events[1..] == rest;
    forall i | 0 <= i < |events|
      ensures Fits(source, events[i])
    {
      assert i > 0 ==> events[i] == rest[i - 1];
    }
  }

  /** With nothing held, an empty substring moves no byte; it only triggers the close check. */
  lemma NothingArrives(a: Assembly, index: U64, last: bool)
    requires a.Valid() && a.pending == map[]
    ensures Insert(a, index, [], last) == Assembly(map[], a.reachEnd || last, a.out.(closed := a.out.closed || a.reachEnd || last))
  {
    InsertShape(a, index, [], last);
    NothingKnown(a, index);
    hide Insert, RunEnd, Known;
    var known := Known(a, index, []);
    assert RunEnd(known, a.First(), a.Limit()) == a.First();
    assert Beyond(known, a.First()).Keys == {};
    assert a.out.pushed + [] == a.out.pushed;
    InsertTouches(a, index, [], last);
  }

  lemma InsertTouches(a: Assembly, index: U64, data: seq<Byte>, last: bool)
    requires a.Valid()
    ensures Insert(a, index, data, last).out.error == a.out.error
  {
    hide Known, RunEnd, Stretch, Beyond;
  }

  lemma NothingKnown(a: Assembly, index: U64)
    requires a.Valid() && a.pending == map[]
    ensures Known(a, index, []) == map[]
  {
    assert Low64(index + 0) == index;
    assert Tail(a, index, []) <= index;
    assert Offered(a, index, []).Keys == {};
  }

  /** Concretely: of the one-byte source, only the empty substring behind its byte arrives, flagged last;
      the stream is closed and the byte is missing. */
  lemma EarlyCloseAheadOfGap()
    ensures Consistent([7], 1, [], true) && !LastIsUsable(Start(4), [7], 0)
    ensures var b := Insert(Start(4), 1, [], true); b.out.closed && b.out.pushed == []
  {
    NothingArrives(Start(4), 1, true);
  }

  /** Concretely: two bytes flagged last arrive where only one fits; the stream is closed after one. */
  lemma EarlyCloseOnTruncation()
    ensures Consistent([7, 8], 0, [7, 8], true) && !LastIsUsable(Start(1), [7, 8], 2)
    ensures var b := Insert(Start(1), 0, [7, 8], true); b.out.closed && b.First() == 1
  {
    var a, data := Start(1), [7, 8];
    InsertShape(a, 0, data, true);
    var known := Known(a, 0, data);
    assert Low64(2) == 2;
    assert known.Keys == {0} by {
      assert Offered(a, 0, data).Keys == {0};
    }
    hide Insert, Known;
    assert RunEnd(known, 0, 1) == 1;
    assert Beyond(known, 1).Keys == {};
  }
}
