/** The reassembler of src/reassembler.cc: ring window, packed bitmap and loops, proved to compute
    `Reassembly.Insert`. */
module Reassemblers {
  import opened Words
  import opened Bitmaps
  import opened Ring
  import opened SlidingWindow
  import opened ByteStreams
  import opened Reassembly

  lemma RunEndIs(known: map<nat, Byte>, i: nat, end: nat, limit: nat)
    requires i <= end <= limit && forall g :: i <= g < end ==> g in known
    requires end == limit || end !in known
    ensures RunEnd(known, i, limit) == end
  {
    var r := RunEnd(known, i, limit);
    assert r < end ==> r in known;
  }

  /** In-order data: clear the covered stretch, then drain what follows it. */
  lemma InOrder(a: Assembly, index: U64, data: seq<Byte>, tail: nat, end: nat)
    requires a.Valid() && tail == Tail(a, index, data) && index <= a.First() < tail <= index + |data|
    requires var rest := a.pending - Interval(a.First(), tail);
      end == RunEnd(rest, tail, a.Limit())
    ensures var rest, known := a.pending - Interval(a.First(), tail), Known(a, index, data);
      && end == RunEnd(known, a.First(), a.Limit())
      && Stretch(known, a.First(), end) == data[a.First() - index..tail - index] + Stretch(rest, tail, end)
      && Beyond(known, end) == Beyond(rest, end)
  {
    hide RunEnd;
    var rest, known := a.pending - Interval(a.First(), tail), Known(a, index, data);
    InOrderKnown(a, index, data, tail);
    hide Known;
    assert forall g :: tail <= g < end ==> g in known;
    RunEndIs(known, a.First(), end, a.Limit());
  }

  lemma InOrderKnown(a: Assembly, index: U64, data: seq<Byte>, tail: nat)
    requires a.Valid() && tail == Tail(a, index, data) && index <= a.First() < tail <= index + |data|
    ensures var rest, known := a.pending - Interval(a.First(), tail), Known(a, index, data);
      && (forall g :: a.First() <= g < tail ==> g in known && known[g] == data[g - index])
      && (forall g :: g >= tail ==> (g in known <==> g in rest) && (g in known ==> known[g] == rest[g]))
      && (forall g :: g in rest ==> g >= tail)
  {
  }

  /** What the callers of `insert` must respect: sizes and indices far from the 64-bit limit, and no
      batch range of the shape that `Bitmap.PopCountAndUnsetBatch` does not clear (unless nothing held is in it). */
  ghost predicate Manageable(a: Assembly, index: U64, data: seq<Byte>)
    requires a.Valid()
  {
    && |data| < TWO64 / 2 && a.Limit() + a.out.capacity < TWO64 / 2
    && var from, to, size := a.First(), Tail(a, index, data), a.out.capacity;
      size > 0 && index <= from < to ==>
        || !WrapsInOneBlock(Slot(from, size), Slot(to + size - 1, size))
        || a.pending.Keys !! Interval(from, to)
  }

  /** Data at least 31 bytes shorter than the capacity is always manageable: 1000-byte payloads and the
      default capacity of 64000 are far inside. */
  lemma ShortDataIsManageable(a: Assembly, index: U64, data: seq<Byte>)
    requires a.Valid() && |data| + 31 <= a.out.capacity && a.Limit() + a.out.capacity < TWO64 / 2
    ensures Manageable(a, index, data)
  {
    hide Slot, WrapsInOneBlock;
    var from, to, size := a.First(), Tail(a, index, data), a.out.capacity;
    if index <= from < to {
      ShortRangesAreSafe(from, to, size);
    }
  }

  /** The writer's own truncation cuts the pushed data exactly at the window, and never cuts drained bytes. */
  lemma PushedRun(a: Assembly, index: U64, data: seq<Byte>, tail: nat, end: nat, run: seq<Byte>)
    requires a.Valid() && |data| < TWO64 / 2 && a.Limit() < TWO64 / 2
    requires tail == Tail(a, index, data) && index <= a.First() < tail <= end <= a.Limit() && |run| == end - tail
    ensures a.out.Push((data + run)[a.First() - index..])
         == a.out.(pushed := a.out.pushed + (data[a.First() - index..tail - index] + run))
  {
    var from := a.First() - index;
    assert Low64(index + |data|) == index + |data|;
    if tail < index + |data| {
      assert tail == end == a.Limit() && run == [];
      assert (data + run)[from..][..tail - a.First()] == data[from..tail - index] + run;
    } else {
      assert (data + run)[from..] == data[from..tail - index] + run;
    }
  }

  /** The end flag plays no part in where bytes go. */
  lemma SameDemands(a: Assembly, b: Assembly, index: U64, data: seq<Byte>)
    requires a.Valid() && b == a.(reachEnd := b.reachEnd)
    ensures Manageable(a, index, data) <==> Manageable(b, index, data)
  {
    hide Slot, WrapsInOneBlock;
    assert Tail(a, index, data) == Tail(b, index, data);
  }

  lemma StoredIsOffered(a: Assembly, index: U64, data: seq<Byte>)
    requires a.Valid() && a.First() < index <= Tail(a, index, data) && |data| < TWO64 / 2
    ensures Tail(a, index, data) <= index + |data|
    ensures Filled(a.pending, index, data, Tail(a, index, data)) == Offered(a, index, data) + a.pending
  {
  }

  /** Out-of-order data writes nothing out. */
  lemma OutOfOrder(a: Assembly, index: U64, data: seq<Byte>)
    requires a.Valid() && (a.First() < index || Tail(a, index, data) <= index || Tail(a, index, data) <= a.First())
    ensures var known := Known(a, index, data);
      && RunEnd(known, a.First(), a.Limit()) == a.First()
      && Stretch(known, a.First(), a.First()) == []
      && Beyond(known, a.First()) == Offered(a, index, data) + a.pending
  {
    var known := Known(a, index, data);
    assert a.First() !in known;
    assert known == Offered(a, index, data) + a.pending;
    assert Beyond(known, a.First()).Keys == known.Keys;
  }

  class Reassembler {
    var firstUnassembled: nat
    var bytesPending: nat
    var reachEnd: bool
    var bufferSize: nat
    var slidingWindow: seq<Byte>
    const bitmap: Bitmap
    ghost var held: map<nat, Byte>

    /** Ring, bitmap and counter all describe `held`, whose indices lie within one turn from `lo`. */
    ghost predicate RingHolds(lo: nat)
      reads this`bytesPending, this`bufferSize, this`slidingWindow, this`held, bitmap
    {
      && bitmap.Valid() && bitmap.Clean()
      && bufferSize == |slidingWindow| == bitmap.elementCapacity
      && Holds(held, bitmap.Contents(), slidingWindow, lo)
      && bytesPending == |held|
    }

    /** Before the first insertion nothing is allocated. */
    ghost predicate Unallocated()
      reads this, bitmap
    {
      && bitmap.Valid() && bitmap.Clean() && bitmap.Contents() == {}
      && slidingWindow == [] && bufferSize == bitmap.elementCapacity == 0
      && held == map[] && bytesPending == 0
    }

    /** The reassembler is the only writer of `output`. */
    ghost predicate Valid(output: ByteStream)
      reads this, bitmap, output, output.buffer, output.buffer.storage
    {
      && output.Valid()
      && firstUnassembled == output.bytesPushed
      && (forall g :: g in held ==> firstUnassembled < g < output.bytesPopped + output.capacity)
      && if slidingWindow == [] then Unallocated() && firstUnassembled == 0
         else RingHolds(output.bytesPopped) && bufferSize == output.capacity
    }

    ghost function Value(output: ByteStream): (a: Assembly)
      requires Valid(output)
      reads this, bitmap, output, output.buffer, output.buffer.storage
      ensures a.Valid()
    {
      Assembly(held, reachEnd, output.State())
    }

    lemma ValueIs(output: ByteStream)
      requires Valid(output)
      ensures Value(output).First() == firstUnassembled && Value(output).out.closed == output.closed
    {
    }

    constructor (output: ByteStream)
      requires output.Valid() && output.bytesPushed == 0
      ensures Valid(output) && fresh(bitmap)
      ensures Value(output) == Assembly(map[], false, output.State())
    {
      firstUnassembled, bytesPending, reachEnd, bufferSize := 0, 0, false, 0;
      slidingWindow, held := [], map[];
      bitmap := new Bitmap();
    }

    method Allocate(capacity: nat)
      requires Unallocated()
      modifies this`bufferSize, this`slidingWindow, bitmap
      ensures capacity == 0 ==> Unallocated()
      ensures capacity > 0 ==> RingHolds(0) && bufferSize == capacity
    {
      bufferSize := capacity;
      slidingWindow := seq(capacity, _ => 0);
      bitmap.Resize(capacity);
      assert bitmap.Contents() == {};
      if capacity > 0 {
        assert SlotSet({}, capacity) == {};
      }
    }

    /** Counts and clears the bits of the stretch that arriving data covers. */
    method ClearCovered(tail: nat, ghost lo: nat)
      requires RingHolds(lo) && lo <= firstUnassembled < tail <= lo + bufferSize
      requires !WrapsInOneBlock(Slot(firstUnassembled, bufferSize), Slot(tail + bufferSize - 1, bufferSize))
            || held.Keys !! Interval(firstUnassembled, tail)
      modifies this`bytesPending, this`held, bitmap
      ensures RingHolds(lo) && held == old(held) - Interval(firstUnassembled, tail)
    {
      hide Slot, Holds, WrapsInOneBlock, CircularRange, Interval, Recorded, Slots, SlotSet;
      var start, end := Slot(firstUnassembled, bufferSize), Slot(tail + bufferSize - 1, bufferSize);
      ghost var bits := bitmap.Contents();
      var n := bitmap.PopCountAndUnsetBatch(start, end);
      AfterBatch(held, bits, slidingWindow, lo, firstUnassembled, tail, n, bitmap.Contents());
      bytesPending := bytesPending - n;
      held := held - Interval(firstUnassembled, tail);
    }

    /** `bitmap_.get` at a stream index: is that very index held? */
    method IsHeld(g: nat, ghost lo: nat) returns (b: bool)
      requires RingHolds(lo) && lo <= g <= lo + bufferSize
      requires lo !in held || g < lo + bufferSize
      ensures b <==> g in held
      ensures b ==> g < lo + bufferSize
    {
      hide Slot, Holds;
      TestedBit(held, bitmap.Contents(), slidingWindow, lo, g);
      b := bitmap.Get(Slot(g, bufferSize));
    }

    /** One turn of the drain loop. */
    method TakeFront(ghost lo: nat) returns (b: Byte)
      requires RingHolds(lo) && firstUnassembled in held
      modifies this`bytesPending, this`held, this`firstUnassembled, bitmap
      ensures RingHolds(lo) && firstUnassembled == old(firstUnassembled) + 1
      ensures b == old(held[firstUnassembled]) && held == old(held - {firstUnassembled})
    {
      hide Slot, Holds;
      TakenByte(held, bitmap.Contents(), slidingWindow, lo, firstUnassembled);
      var windowIndex := Slot(firstUnassembled, bufferSize);
      bytesPending := bytesPending - 1;
      bitmap.Unset(windowIndex);
      b := slidingWindow[windowIndex];
      held := held - {firstUnassembled};
      firstUnassembled := firstUnassembled + 1;
    }

    /** Moves the held run that starts at the first unassembled index from the window to the end of `data`. */
    method Drain(data: seq<Byte>, ghost lo: nat) returns (longer: seq<Byte>)
      requires RingHolds(lo) && lo <= firstUnassembled <= lo + bufferSize
      requires forall g :: g in held ==> firstUnassembled <= g && lo < g
      modifies this`bytesPending, this`held, this`firstUnassembled, bitmap
      ensures var start, limit := old(firstUnassembled), lo + bufferSize;
        && firstUnassembled == RunEnd(old(held), start, limit)
        && longer == data + Stretch(old(held), start, firstUnassembled)
        && held == Beyond(old(held), firstUnassembled)
      ensures RingHolds(lo)
    {
      hide RingHolds, RunEnd;
      ghost var all, start, limit := held, firstUnassembled, lo + bufferSize;
      longer := data;
      assert Beyond(all, start) == all;
      var more := IsHeld(firstUnassembled, lo);
      while more
        invariant RingHolds(lo) && start <= firstUnassembled <= limit
        invariant forall g :: start <= g < firstUnassembled ==> g in all
        invariant held == Beyond(all, firstUnassembled)
        invariant longer == data + Stretch(all, start, firstUnassembled)
        invariant more <==> firstUnassembled in held
        invariant more ==> firstUnassembled < limit
        decreases limit - firstUnassembled
      {
        DrainStep(all, start, firstUnassembled);
        var b := TakeFront(lo);
        longer := longer + [b];
        more := IsHeld(firstUnassembled, lo);
      }
      RunEndIs(all, start, firstUnassembled, limit);
    }

    /** One turn of the buffering loop. */
    method StoreOne(g: nat, b: Byte, ghost lo: nat)
      requires RingHolds(lo) && lo <= g < lo + bufferSize
      modifies this`bytesPending, this`held, this`slidingWindow, bitmap
      ensures RingHolds(lo)
      ensures held == if g in old(held) then old(held) else old(held)[g := b]
    {
      hide Slot, Holds;
      var present := IsHeld(g, lo);
      if !present {
        var windowIndex := Slot(g, bufferSize);
        HoldsAfterStoring(held, bitmap.Contents(), slidingWindow, lo, g, b);
        bytesPending := bytesPending + 1;
        bitmap.Set(windowIndex);
        slidingWindow := slidingWindow[windowIndex := b];
        held := held[g := b];
      }
    }

    /** Out-of-order data: stores the bytes of the stretch that are not held yet. */
    method Store(index: nat, data: seq<Byte>, tail: nat, ghost lo: nat)
      requires RingHolds(lo) && lo <= index <= tail <= lo + bufferSize && tail - index <= |data|
      modifies this`bytesPending, this`held, this`slidingWindow, bitmap
      ensures RingHolds(lo)
      ensures held == Filled(old(held), index, data, tail)
    {
      hide RingHolds, Filled;
      ghost var before := held;
      PieceOfNothing(before, index, data);
      for i := 0 to tail - index
        invariant RingHolds(lo)
        invariant held == Filled(before, index, data, index + i)
      {
        FilledGrows(before, index, data, index + i);
        StoreOne(index + i, data[i], lo);
      }
    }

    /** Clears what arriving data covers up to `tail`, then drains the run behind it. */
    method TakeRun(data: seq<Byte>, tail: nat, ghost lo: nat) returns (longer: seq<Byte>)
      requires RingHolds(lo) && lo <= firstUnassembled < tail <= lo + bufferSize
      requires !WrapsInOneBlock(Slot(firstUnassembled, bufferSize), Slot(tail + bufferSize - 1, bufferSize))
            || held.Keys !! Interval(firstUnassembled, tail)
      requires forall g :: g in held ==> firstUnassembled < g
      modifies this`bytesPending, this`held, this`firstUnassembled, bitmap
      ensures RingHolds(lo)
      ensures var rest := old(held) - Interval(old(firstUnassembled), tail);
        && firstUnassembled == RunEnd(rest, tail, lo + bufferSize)
        && longer == data + Stretch(rest, tail, firstUnassembled)
        && held == Beyond(rest, firstUnassembled)
    {
      hide RingHolds, WrapsInOneBlock, Slot, RunEnd, Stretch, Beyond;
      ClearCovered(tail, lo);
      assert forall g :: g in held ==> g in old(held) && g !in Interval(old(firstUnassembled), tail);
      firstUnassembled := tail;
      longer := Drain(data, lo);
    }

    /** In-order data: covered bits are cleared, the run behind the data is drained, and all of it is pushed. */
    method Assemble(index: U64, data: seq<Byte>, tail: nat, output: ByteStream)
      requires Valid(output) && slidingWindow != [] && Manageable(Value(output), index, data)
      requires tail == Tail(Value(output), index, data) && index <= firstUnassembled < tail
      modifies this`bytesPending, this`held, this`firstUnassembled, bitmap, output, output.buffer, output.buffer.storage
      ensures Valid(output) && output.buffer.storage == old(output.buffer.storage)
      ensures Value(output) == Merge(old(Value(output)), index, data)
    {
      hide RingHolds, Known, WrapsInOneBlock, Slot, RunEnd;
      ghost var a := Value(output);
      ghost var rest := held - Interval(firstUnassembled, tail);
      var dataStart := firstUnassembled - index;
      var longer := TakeRun(data, tail, output.bytesPopped);
      InOrder(a, index, data, tail, firstUnassembled);
      PushedRun(a, index, data, tail, firstUnassembled, Stretch(rest, tail, firstUnassembled));
      output.Push(longer[dataStart..]);
    }

    /** Out-of-order data is stored, useless data discarded; either way nothing is written out. */
    method Keep(index: U64, data: seq<Byte>, tail: nat, output: ByteStream)
      requires Valid(output) && |data| < TWO64 / 2
      requires tail == Tail(Value(output), index, data)
      requires firstUnassembled < index || tail <= index || tail <= firstUnassembled
      requires slidingWindow == [] ==> output.capacity == 0
      modifies this`bytesPending, this`held, this`slidingWindow, bitmap
      ensures Valid(output)
      ensures held == Offered(old(Value(output)), index, data) + old(held)
      ensures slidingWindow == [] <==> old(slidingWindow) == []
    {
      hide RingHolds, Filled;
      ghost var a := Value(output);
      if index >= tail || firstUnassembled >= tail {
        assert Offered(a, index, data) + held == held;
      } else {
        StoredIsOffered(a, index, data);
        ghost var before := held;
        Store(index, data, tail, output.bytesPopped);
        assert forall g :: g in held ==> g in before || g in Offered(a, index, data);
        WindowStays(output);
      }
    }

    lemma WindowStays(output: ByteStream)
      requires output.Valid() && RingHolds(output.bytesPopped)
      ensures slidingWindow != []
    {
    }

    /** The three ways an insertion can go. */
    method Absorb(index: U64, data: seq<Byte>, output: ByteStream)
      requires Valid(output) && Manageable(Value(output), index, data)
      requires slidingWindow == [] ==> output.capacity == 0
      modifies this`bytesPending, this`held, this`firstUnassembled, this`slidingWindow, bitmap
      modifies output, output.buffer, output.buffer.storage
      ensures Valid(output) && output.buffer.storage == old(output.buffer.storage)
      ensures Value(output) == Merge(old(Value(output)), index, data)
    {
      hide RingHolds, Holds, Known, RunEnd, Beyond, Stretch;
      ghost var a := Value(output);
      var tail := Min(Low64(index + |data|), firstUnassembled + output.AvailableCapacity());
      if index < tail && firstUnassembled < tail && index <= firstUnassembled {
        Assemble(index, data, tail, output);
      } else {
        OutOfOrder(a, index, data);
        Keep(index, data, tail, output);
      }
    }

    method Insert(index: U64, data: seq<Byte>, last: bool, output: ByteStream)
      requires Valid(output) && Manageable(Value(output), index, data)
      modifies this, bitmap, output, output.buffer, output.buffer.storage
      ensures Valid(output) && output.buffer.storage == old(output.buffer.storage)
      ensures Value(output) == Reassembly.Insert(old(Value(output)), index, data, last)
    {
      hide RingHolds, Holds, Merge, Manageable;
      ghost var a := Value(output);
      if last {
        reachEnd := true;
      }
      if slidingWindow == [] {
        Prepare(output);
      }
      SameDemands(a, Announce(a, last), index, data);
      Absorb(index, data, output);
      PendingCount(output);
      if reachEnd && bytesPending == 0 {
        output.Close();
      }
    }

    /** The lazy allocation on the first insertion. */
    method Prepare(output: ByteStream)
      requires Valid(output) && slidingWindow == []
      modifies this`bufferSize, this`slidingWindow, bitmap
      ensures Valid(output) && (slidingWindow == [] ==> output.capacity == 0)
    {
      Allocate(output.AvailableCapacity());
    }

    /** Reading moves the turn on, past nothing that is held. */
    lemma LaterTurn(lo: nat, later: nat)
      requires RingHolds(lo) && lo <= later && forall g :: g in held ==> later <= g
      ensures RingHolds(later)
    {
      hide Slot;
    }

    lemma BeforeReading(len: nat, output: ByteStream)
      requires Valid(output)
      ensures output.Valid()
      ensures slidingWindow != [] ==> RingHolds(output.bytesPopped + Min(len, output.buffer.BytesBuffered()))
    {
      hide RingHolds, Unallocated;
      if slidingWindow != [] {
        LaterTurn(output.bytesPopped, output.bytesPopped + Min(len, output.buffer.BytesBuffered()));
      }
    }

    /** The reader takes bytes: the reassembler's relation to its stream stays. */
    method LetRead(len: nat, output: ByteStream)
      requires Valid(output)
      modifies output, output.buffer
      ensures Valid(output) && output.buffer.storage == old(output.buffer.storage)
      ensures var a := old(Value(output)); Value(output) == a.(out := a.out.Pop(len))
    {
      hide RingHolds, Unallocated, ByteStream.Valid, ByteStream.State;
      BeforeReading(len, output);
      output.Pop(len);
    }

    lemma PendingCount(output: ByteStream)
      requires Valid(output)
      ensures bytesPending == |held|
    {
    }
  }

  /** The bytes of `data`, placed at `index`, up to stream index `hi`. */
  ghost function Piece(index: nat, data: seq<Byte>, hi: nat): map<nat, Byte>
    requires hi <= index + |data|
  {
    map g | g in Interval(index, hi) :: data[g - index]
  }

  ghost function Filled(before: map<nat, Byte>, index: nat, data: seq<Byte>, hi: nat): map<nat, Byte>
    requires hi <= index + |data|
  {
    Piece(index, data, hi) + before
  }

  lemma PieceOfNothing(before: map<nat, Byte>, index: nat, data: seq<Byte>)
    ensures Filled(before, index, data, index) == before
  {
  }

  lemma FilledGrows(before: map<nat, Byte>, index: nat, data: seq<Byte>, g: nat)
    requires index <= g < index + |data|
    ensures Filled(before, index, data, g + 1)
         == if g in Filled(before, index, data, g) then Filled(before, index, data, g)
            else Filled(before, index, data, g)[g := data[g - index]]
  {
  }

  lemma TestedBit(held: map<nat, Byte>, bits: set<nat>, window: seq<Byte>, lo: nat, g: nat)
    requires Holds(held, bits, window, lo) && lo <= g <= lo + |window|
    requires lo !in held || g < lo + |window|
    ensures Slot(g, |window|) in bits <==> g in held
    ensures g in held ==> g < lo + |window|
  {
    hide Slot;
    if g < lo + |window| {
      BitMeansHeld(held.Keys, g, lo, |window|);
    } else {
      NextTurnIsEmpty(held.Keys, lo, |window|);
    }
  }

  lemma TakenByte(held: map<nat, Byte>, bits: set<nat>, window: seq<Byte>, lo: nat, g: nat)
    requires Holds(held, bits, window, lo) && g in held
    ensures window[Slot(g, |window|)] == held[g]
    ensures Holds(held - {g}, bits - {Slot(g, |window|)}, window, lo)
    ensures |held - {g}| == |held| - 1
  {
    hide Slot;
    HoldsAfterTaking(held, bits, window, lo, g);
    assert held == (held - {g})[g := held[g]];
  }

  lemma DrainStep(all: map<nat, Byte>, start: nat, i: nat)
    requires start <= i && (forall g :: start <= g < i ==> g in all) && i in all
    ensures Beyond(all, i) - {i} == Beyond(all, i + 1)
    ensures Stretch(all, start, i + 1) == Stretch(all, start, i) + [all[i]]
  {
  }

  /** The batch operation forgets exactly the stretch, and counts it, if and only if the range does not
      have the excluded shape or nothing in the stretch was held. */
  lemma AfterBatch(held: map<nat, Byte>, bits: set<nat>, window: seq<Byte>, lo: nat, from: nat, to: nat, n: nat, bits': set<nat>)
    requires Holds(held, bits, window, lo) && lo <= from < to <= lo + |window|
    requires (n, bits') == Batch(bits, Slot(from, |window|), Slot(to + |window| - 1, |window|), |window|)
    ensures Holds(held - Interval(from, to), bits', window, lo) && |held - Interval(from, to)| + n == |held|
       <==> !WrapsInOneBlock(Slot(from, |window|), Slot(to + |window| - 1, |window|)) || held.Keys !! Interval(from, to)
  {
    hide Slot, Slots, Interval, SlotSet, CircularRange, WrapsInOneBlock, Holds;
    SlotsAreCircular(from, to, |window|);
    HoldsAfterClearing(held, bits, window, lo, from, to);
    SizeAfterClearing(held, bits, window, lo, from, to);
    if held.Keys !! Interval(from, to) {
      assert held - Interval(from, to) == held;
    } else {
      assert |held - Interval(from, to)| < |held| by {
        Partition(held.Keys, Interval(from, to));
        assert (held - Interval(from, to)).Keys == held.Keys - Interval(from, to);
      }
    }
  }

  /** What happens in the excluded shape: the bit of a byte that the stretch covers stays set, and one turn
      later its slot reads as the index a full capacity further on, with the old byte. */
  lemma StaleBitShowsNextTurn(held: map<nat, Byte>, bits: set<nat>, window: seq<Byte>, lo: nat, from: nat, to: nat, g: nat)
    requires Holds(held, bits, window, lo) && lo <= from <= g < to <= lo + |window| && g in held
    requires WrapsInOneBlock(Slot(from, |window|), Slot(to + |window| - 1, |window|))
    ensures Batch(bits, Slot(from, |window|), Slot(to + |window| - 1, |window|), |window|) == (0, bits)
    ensures Slot(g + |window|, |window|) in bits && window[Slot(g + |window|, |window|)] == held[g]
  {
    hide Slot, WrapsInOneBlock;
    SlotOfSum(g, |window|, |window|);
    BitMeansHeld(held.Keys, g, lo, |window|);
  }
}
