/** The packed bitmap of util/bitmap.hpp (32-bit blocks), refined to a set of element indices. */
module Bitmaps {
  import opened Words
  import opened BitBlocks

  function BlocksFor(capacity: nat): nat {
    (capacity + 31) / 32
  }

  /** The set bits of each block. */
  ghost function Rows(data: seq<Block>): seq<set<nat>> {
    seq(|data|, k requires 0 <= k < |data| => Bits(data[k]))
  }

  /** The elements whose bit is set: what one cell per element would record (util/bitmap.hpp:179-207). */
  ghost function Elements(rows: seq<set<nat>>): set<nat> {
    set k: nat, i | k < |rows| && i in rows[k] :: 32 * k + i
  }

  ghost predicate Narrow(rows: seq<set<nat>>) {
    forall k: nat, i: nat :: k < |rows| && i in rows[k] ==> i < 32
  }

  lemma Split32(e: nat, k: nat, i: nat)
    requires i < 32
    ensures e == 32 * k + i <==> e / 32 == k && e % 32 == i
  {
  }

  lemma ElementsAt(rows: seq<set<nat>>, e: nat)
    requires Narrow(rows)
    ensures e in Elements(rows) <==> e / 32 < |rows| && e % 32 in rows[e / 32]
  {
    Split32(e, e / 32, e % 32);
    if e in Elements(rows) {
      var k: nat, i: nat :| k < |rows| && i in rows[k] && e == 32 * k + i;
      Split32(e, k, i);
    }
  }

  /** The elements of block `k` at the given bit positions. */
  ghost function InBlock(k: nat, positions: set<nat>): set<nat> {
    set i | i in positions :: 32 * k + i
  }

  lemma {:induction false} InBlockSize(k: nat, positions: set<nat>)
    ensures |InBlock(k, positions)| == |positions|
    decreases |positions|
  {
    if positions != {} {
      var i :| i in positions;
      InBlockSize(k, positions - {i});
      assert 32 * k + i in InBlock(k, positions);
      forall e | e in InBlock(k, positions)
        ensures e in InBlock(k, positions - {i}) + {32 * k + i}
      {
        var j :| j in positions && e == 32 * k + j;
        assert j == i || j in positions - {i};
      }
      assert InBlock(k, positions) == InBlock(k, positions - {i}) + {32 * k + i};
    }
  }

  lemma InBlockOne(k: nat, i: nat)
    ensures InBlock(k, {i}) == {32 * k + i}
  {
  }

  lemma InBlockAt(k: nat, positions: set<nat>, e: nat)
    requires forall i :: i in positions ==> i < 32
    ensures e in InBlock(k, positions) <==> e / 32 == k && e % 32 in positions
  {
    Split32(e, e / 32, e % 32);
    if e in InBlock(k, positions) {
      var i :| i in positions && e == 32 * k + i;
      Split32(e, k, i);
    }
  }

  /** Removing positions from a row removes exactly those elements, and they can be counted in the row. */
  lemma ClearingRow(rows: seq<set<nat>>, k: nat, mask: set<nat>)
    requires Narrow(rows) && k < |rows|
    requires forall i :: i in mask ==> i < 32
    ensures var gone := InBlock(k, mask);
      && Elements(rows[k := rows[k] - mask]) == Elements(rows) - gone
      && |rows[k] * mask| == |Elements(rows) * gone|
  {
    var gone, rows' := InBlock(k, mask), rows[k := rows[k] - mask];
    forall e: nat
      ensures e in Elements(rows') <==> e in Elements(rows) && e !in gone
      ensures e in InBlock(k, rows[k] * mask) <==> e in Elements(rows) && e in gone
    {
      ElementsAt(rows, e);
      ElementsAt(rows', e);
      InBlockAt(k, mask, e);
      InBlockAt(k, rows[k] * mask, e);
    }
    assert InBlock(k, rows[k] * mask) == Elements(rows) * gone;
    InBlockSize(k, rows[k] * mask);
  }

  lemma SettingRow(rows: seq<set<nat>>, k: nat, i: nat)
    requires Narrow(rows) && k < |rows| && i < 32
    ensures Elements(rows[k := rows[k] + {i}]) == Elements(rows) + {32 * k + i}
  {
    forall e: nat
      ensures e in Elements(rows[k := rows[k] + {i}]) <==> e in Elements(rows) || e == 32 * k + i
    {
      ElementsAt(rows, e);
      ElementsAt(rows[k := rows[k] + {i}], e);
      Split32(e, k, i);
    }
  }

  /** The elements recorded by packed blocks. */
  ghost function Recorded(data: seq<Block>): set<nat> {
    Elements(Rows(data))
  }

  lemma RowsOfUpdate(data: seq<Block>, k: nat, b: Block)
    requires k < |data|
    ensures Rows(data[k := b]) == Rows(data)[k := Bits(b)]
    ensures Narrow(Rows(data))
  {
    hide Bit;
  }

  /** `pop_count += countOnes(data_[k] & mask); data_[k] &= ~mask;` */
  lemma ClearingBlock(data: seq<Block>, k: nat, mask: Block)
    requires k < |data|
    ensures var gone := InBlock(k, Bits(mask));
      && Recorded(data[k := Cleared(data[k], mask)]) == Recorded(data) - gone
      && CountOnes(Masked(data[k], mask)) == |Recorded(data) * gone|
  {
    hide Bit, Masked, Cleared, CountOnes, Elements;
    BitsOfMasked(data[k], mask);
    RowsOfUpdate(data, k, Cleared(data[k], mask));
    ClearingRow(Rows(data), k, Bits(mask));
    CountOnesIsCardinality(Masked(data[k], mask));
  }

  lemma SettingBit(data: seq<Block>, k: nat, i: nat)
    requires k < |data| && i < 32
    ensures Recorded(data[k := Joined(data[k], OneBit(i))]) == Recorded(data) + {32 * k + i}
  {
    hide Bit, OneBit, Joined, Elements;
    BitsOfMasks(i);
    BitsOfMasked(data[k], OneBit(i));
    RowsOfUpdate(data, k, Joined(data[k], OneBit(i)));
    SettingRow(Rows(data), k, i);
  }

  lemma ClearingBit(data: seq<Block>, k: nat, i: nat)
    requires k < |data| && i < 32
    ensures Recorded(data[k := Cleared(data[k], OneBit(i))]) == Recorded(data) - {32 * k + i}
  {
    hide Bit, OneBit, Cleared, Elements;
    BitsOfMasks(i);
    BitsOfMasked(data[k], OneBit(i));
    RowsOfUpdate(data, k, Cleared(data[k], OneBit(i)));
    ClearingRow(Rows(data), k, {i});
    InBlockOne(k, i);
  }

  lemma RecordedAt(data: seq<Block>, e: nat)
    ensures e in Recorded(data) <==> e / 32 < |data| && Bit(data[e / 32], e % 32)
  {
    hide Bit, Elements;
    assert Narrow(Rows(data));
    ElementsAt(Rows(data), e);
  }

  lemma InBlockInterval(k: nat, lo: nat, hi: nat)
    requires hi <= 32
    ensures InBlock(k, Interval(lo, hi)) == Interval(32 * k + lo, 32 * k + hi)
  {
    forall e: nat
      ensures e in InBlock(k, Interval(lo, hi)) <==> e in Interval(32 * k + lo, 32 * k + hi)
    {
      InBlockAt(k, Interval(lo, hi), e);
      Split32(e, e / 32, e % 32);
      if e in Interval(32 * k + lo, 32 * k + hi) {
        Split32(e, k, e - 32 * k);
      }
    }
  }

  /** Clearing a stretch of bits inside one block. */
  lemma ClearingStretch(data: seq<Block>, k: nat, mask: Block, lo: nat, hi: nat)
    requires k < |data| && hi <= 32 && Bits(mask) == Interval(lo, hi)
    ensures Recorded(data[k := Cleared(data[k], mask)]) == Recorded(data) - Interval(32 * k + lo, 32 * k + hi)
    ensures CountOnes(Masked(data[k], mask)) == |Recorded(data) * Interval(32 * k + lo, 32 * k + hi)|
  {
    hide Bits, Cleared, Masked, CountOnes, Recorded, InBlock, Interval;
    ClearingBlock(data, k, mask);
    InBlockInterval(k, lo, hi);
  }

  /** The elements from `start` to `end`, both included, going round the end of the bitmap. */
  ghost function CircularRange(start: nat, end: nat, capacity: nat): set<nat> {
    if start <= end then Interval(start, end + 1) else Interval(start, capacity) + Interval(0, end + 1)
  }

  /** The one shape of range that the batch operation does not clear. */
  predicate WrapsInOneBlock(start: nat, end: nat) {
    start > end && start / 32 == end / 32
  }

  lemma CountDisjoint(s: set<nat>, a: set<nat>, b: set<nat>)
    requires a !! b
    ensures |s * (a + b)| == |s * a| + |s * b|
    ensures s - (a + b) == s - a - b
    ensures (s - a) * b == s * b
  {
    assert s * (a + b) == s * a + s * b;
    assert (s - a) * b == s * b;
  }

  /** What has been cleared once the block loop stands at block `i` of `n`. */
  ghost function Swept(start: nat, i: nat, wrapped: bool, n: nat): set<nat> {
    if wrapped then Interval(start, 32 * n) + Interval(0, 32 * i) else Interval(start, 32 * i)
  }

  /** The block after `i`, going round. */
  function NextBlock(i: nat, n: nat): (r: nat)
    requires i < n
    ensures r == if i + 1 == n then 0 else i + 1
  {
    (i + 1) % n
  }

  /** Block `i` may be the next one the loop clears. */
  predicate Ahead(start: nat, i: nat, wrapped: bool, n: nat) {
    i < n && start / 32 < n && if wrapped then i < start / 32 else start / 32 < i
  }

  lemma SweptBegins(start: nat, n: nat)
    requires start / 32 < n
    ensures Interval(start, 32 * (start / 32) + 32) == Swept(start, NextBlock(start / 32, n), start / 32 + 1 == n, n)
  {
    hide Interval;
  }

  lemma SweptAdvances(start: nat, i: nat, wrapped: bool, n: nat)
    requires Ahead(start, i, wrapped, n)
    ensures Swept(start, i, wrapped, n) !! Interval(32 * i, 32 * i + 32)
    ensures Swept(start, i, wrapped, n) + Interval(32 * i, 32 * i + 32)
         == Swept(start, NextBlock(i, n), wrapped || i + 1 == n, n)
  {
    hide Interval;
  }

  lemma SweptEnds(start: nat, end: nat, wrapped: bool, n: nat, capacity: nat, s: set<nat>)
    requires Ahead(start, end / 32, wrapped, n) && start < capacity && end < capacity <= 32 * n
    requires forall e :: e in s ==> e < capacity
    ensures Swept(start, end / 32, wrapped, n) !! Interval(32 * (end / 32), 32 * (end / 32) + (end % 32 + 1))
    ensures var all := Swept(start, end / 32, wrapped, n) + Interval(32 * (end / 32), 32 * (end / 32) + (end % 32 + 1));
      s * all == s * CircularRange(start, end, capacity) && s - all == s - CircularRange(start, end, capacity)
  {
    hide Interval;
  }

  lemma StretchMask(startBit: nat, endBit: nat)
    requires startBit < 32 && endBit < 32
    ensures Bits(Masked(StartMask(startBit), EndMask(endBit))) == Interval(startBit, endBit + 1)
  {
    hide Bits, StartMask, EndMask, Masked, Interval;
    BitsOfMasks(startBit);
    BitsOfMasks(endBit);
    BitsOfMasked(StartMask(startBit), EndMask(endBit));
  }

  lemma StretchWithinBlock(start: nat, end: nat, capacity: nat)
    requires start / 32 == end / 32
    ensures Interval(32 * (start / 32) + start % 32, 32 * (start / 32) + (end % 32 + 1))
         == if start <= end then CircularRange(start, end, capacity) else {}
  {
  }

  class Bitmap {
    var data: seq<Block>
    var elementCapacity: nat
    var arraySize: nat

    ghost predicate Valid()
      reads this
    {
      |data| == arraySize == BlocksFor(elementCapacity)
    }

    ghost function Contents(): set<nat>
      reads this
    {
      Recorded(data)
    }

    /** No bit beyond the capacity is set: true from construction on, as long as `Resize` only grows. */
    ghost predicate Clean()
      reads this
    {
      forall e :: e in Contents() ==> e < elementCapacity
    }

    constructor ()
      ensures Valid() && Clean() && Contents() == {} && elementCapacity == 0
    {
      data, elementCapacity, arraySize := [], 0, 0;
    }

    /** `std::vector::resize` on the blocks: the common prefix stays, new blocks are zero. */
    method Resize(capacity: nat)
      requires Valid()
      modifies this
      ensures Valid() && elementCapacity == capacity
      ensures forall e :: e in Contents() <==> e in old(Contents()) && e / 32 < BlocksFor(capacity)
    {
      hide Bit, Recorded;
      elementCapacity := capacity;
      arraySize := (capacity + 31) / 32;
      var before := data;
      if arraySize <= |data| {
        data := data[..arraySize];
      } else {
        data := data + seq(arraySize - |data|, _ => 0);
      }
      forall e: nat
        ensures e in Recorded(data) <==> e in Recorded(before) && e / 32 < arraySize
      {
        RecordedAt(data, e);
        RecordedAt(before, e);
        ZeroHasNoBit(e % 32);
      }
    }

    method Set(e: nat)
      requires Valid() && e < elementCapacity
      modifies this`data
      ensures Valid() && Contents() == old(Contents()) + {e}
    {
      hide OneBit, Joined, Recorded;
      SettingBit(data, e / 32, e % 32);
      data := data[e / 32 := Joined(data[e / 32], OneBit(e % 32))];
    }

    method Unset(e: nat)
      requires Valid() && e < elementCapacity
      modifies this`data
      ensures Valid() && Contents() == old(Contents()) - {e}
    {
      hide OneBit, Cleared, Recorded;
      ClearingBit(data, e / 32, e % 32);
      data := data[e / 32 := Cleared(data[e / 32], OneBit(e % 32))];
    }

    method Get(e: nat) returns (isSet: bool)
      requires Valid() && e < elementCapacity
      ensures isSet <==> e in Contents()
    {
      hide Recorded, Bit;
      RecordedAt(data, e);
      isSet := Bit(data[e / 32], e % 32);
    }

    /** Clears and counts a stretch of one block; `cleared` is what earlier stretches already removed. */
    method ClearStretch(k: nat, mask: Block, ghost lo: nat, ghost hi: nat, ghost start: set<nat>, ghost cleared: set<nat>)
      returns (count: nat)
      requires k < |data| && hi <= 32 && Bits(mask) == Interval(lo, hi)
      requires Contents() == start - cleared && cleared !! Interval(32 * k + lo, 32 * k + hi)
      modifies this`data
      ensures |data| == old(|data|)
      ensures Contents() == start - (cleared + Interval(32 * k + lo, 32 * k + hi))
      ensures |start * cleared| + count == |start * (cleared + Interval(32 * k + lo, 32 * k + hi))|
    {
      hide Bits, Cleared, Masked, CountOnes, Recorded, Interval;
      ClearingStretch(data, k, mask, lo, hi);
      CountDisjoint(start, cleared, Interval(32 * k + lo, 32 * k + hi));
      count := CountOnes(Masked(data[k], mask));
      data := data[k := Cleared(data[k], mask)];
    }

    /** Counts and clears the elements from `start` to `end`, going round. */
    method PopCountAndUnsetBatch(start: nat, end: nat) returns (count: nat)
      requires Valid() && Clean()
      requires start < elementCapacity && end < elementCapacity
      modifies this`data
      ensures Valid() && Clean()
      ensures !WrapsInOneBlock(start, end) ==>
        && Contents() == old(Contents()) - CircularRange(start, end, elementCapacity)
        && count == |old(Contents()) * CircularRange(start, end, elementCapacity)|
      ensures WrapsInOneBlock(start, end) ==> Contents() == old(Contents()) && count == 0
    {
      hide CircularRange, Recorded;
      if start / 32 == end / 32 {
        count := UnsetWithinBlock(start, end);
      } else {
        count := UnsetAcrossBlocks(start, end);
      }
    }

    /** The branch of the batch for a range that ends in the block it starts in. */
    method UnsetWithinBlock(start: nat, end: nat) returns (count: nat)
      requires Valid() && start / 32 == end / 32 < |data|
      modifies this`data
      ensures Valid()
      ensures Contents() == old(Contents()) - if start <= end then CircularRange(start, end, elementCapacity) else {}
      ensures count == |old(Contents()) * if start <= end then CircularRange(start, end, elementCapacity) else {}|
    {
      hide Bits, StartMask, EndMask, Recorded, Interval, CircularRange;
      var startBit, endBit := start % 32, end % 32;
      var mask := Masked(StartMask(startBit), EndMask(endBit));
      StretchMask(startBit, endBit);
      StretchWithinBlock(start, end, elementCapacity);
      count := ClearStretch(start / 32, mask, startBit, endBit + 1, Contents(), {});
    }

    /** Everything up to block `i` has been counted and cleared. */
    ghost predicate SweptTo(before: set<nat>, start: nat, i: nat, wrapped: bool, count: nat)
      reads this
    {
      && |data| == arraySize && Ahead(start, i, wrapped, arraySize)
      && Contents() == before - Swept(start, i, wrapped, arraySize)
      && count == |before * Swept(start, i, wrapped, arraySize)|
    }

    method SweepFirst(start: nat) returns (count: nat, next: nat)
      requires start / 32 < |data| == arraySize && arraySize > 1
      modifies this`data
      ensures next == NextBlock(start / 32, arraySize) && |data| == arraySize
      ensures SweptTo(old(Contents()), start, next, start / 32 + 1 == arraySize, count)
    {
      hide Bits, StartMask, Recorded, Interval, Swept, NextBlock;
      BitsOfMasks(start % 32);
      SweptBegins(start, arraySize);
      count := ClearStretch(start / 32, StartMask(start % 32), start % 32, 32, Contents(), {});
      next := NextBlock(start / 32, arraySize);
    }

    method SweepWhole(ghost before: set<nat>, ghost start: nat, i: nat, ghost wrapped: bool, soFar: nat)
      returns (count: nat, next: nat)
      requires SweptTo(before, start, i, wrapped, soFar)
      requires !wrapped || i + 1 < start / 32
      requires i + 1 == arraySize ==> start / 32 > 0
      modifies this`data
      ensures next == NextBlock(i, arraySize) && |data| == arraySize
      ensures SweptTo(before, start, next, wrapped || i + 1 == arraySize, count)
    {
      hide Bits, StartMask, Recorded, Interval, Swept, NextBlock;
      BitsOfMasks(0);
      SweptAdvances(start, i, wrapped, arraySize);
      var c := ClearStretch(i, StartMask(0), 0, 32, before, Swept(start, i, wrapped, arraySize));
      count := soFar + c;
      next := NextBlock(i, arraySize);
    }

    method SweepLast(ghost before: set<nat>, ghost start: nat, end: nat, ghost wrapped: bool, soFar: nat)
      returns (count: nat)
      requires Valid() && SweptTo(before, start, end / 32, wrapped, soFar)
      requires start < elementCapacity && end < elementCapacity
      requires forall e :: e in before ==> e < elementCapacity
      modifies this`data
      ensures |data| == arraySize
      ensures Contents() == before - CircularRange(start, end, elementCapacity)
      ensures count == |before * CircularRange(start, end, elementCapacity)|
    {
      hide Bits, EndMask, Recorded, Interval, Swept, CircularRange;
      BitsOfMasks(end % 32);
      SweptEnds(start, end, wrapped, arraySize, elementCapacity, before);
      var c := ClearStretch(end / 32, EndMask(end % 32), 0, end % 32 + 1, before, Swept(start, end / 32, wrapped, arraySize));
      count := soFar + c;
    }

    /** The branch of the batch for a range that ends in another block than it starts in. */
    method UnsetAcrossBlocks(start: nat, end: nat) returns (count: nat)
      requires Valid() && Clean()
      requires start < elementCapacity && end < elementCapacity && start / 32 != end / 32
      modifies this`data
      ensures Valid()
      ensures Contents() == old(Contents()) - CircularRange(start, end, elementCapacity)
      ensures count == |old(Contents()) * CircularRange(start, end, elementCapacity)|
    {
      hide Recorded, CircularRange, Swept, NextBlock;
      ghost var before := Contents();
      var startBlock, endBlock := start / 32, end / 32;
      var i: nat;
      count, i := SweepFirst(start);
      ghost var wrapped := startBlock + 1 == arraySize;
      while i != endBlock
        invariant Valid() && SweptTo(before, start, i, wrapped, count)
        invariant wrapped || i <= endBlock ==> i <= endBlock
        invariant !wrapped && endBlock < i ==> endBlock < startBlock
        invariant wrapped ==> endBlock < startBlock
        decreases if wrapped || i <= endBlock then endBlock - i else arraySize - i + endBlock + 1
      {
        count, i := SweepWhole(before, start, i, wrapped, count);
        wrapped := wrapped || i == 0;
      }
      count := SweepLast(before, start, end, wrapped, count);
    }
  }
}
