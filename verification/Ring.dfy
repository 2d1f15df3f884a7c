/** The ring that both the bitmap and the sliding window use: global index `g` lives in slot `g % size`. */
module Ring {
  import opened Words
  import opened Bitmaps

  /** The slot of a global index. */
  function Slot(g: nat, size: nat): (s: nat)
    requires size > 0
    ensures s < size
  {
    g % size
  }

  lemma SlotIs(g: nat, size: nat, q: int, r: nat)
    requires size > 0 && g == q * size + r && r < size
    ensures Slot(g, size) == r
  {
    assert g == size * (g / size) + g % size;
    var d := q - g / size;
    assert d * size == g % size - r;
    assert d >= 1 ==> d * size >= size;
    assert d <= -1 ==> d * size <= -(size as int);
  }

  /** Going `d` places on from a slot, with at most one turn. */
  lemma SlotOfSum(g: nat, d: nat, size: nat)
    requires size > 0 && d <= size
    ensures Slot(g + d, size) == if Slot(g, size) + d < size then Slot(g, size) + d else Slot(g, size) + d - size
  {
    var q, r := g / size, Slot(g, size);
    assert g == q * size + r;
    if r + d < size {
      SlotIs(g + d, size, q, r + d);
    } else {
      assert (q + 1) * size == q * size + size;
      SlotIs(g + d, size, q + 1, r + d - size);
    }
  }

  /** Within one turn, different indices have different slots. */
  lemma SlotInjective(g: nat, h: nat, size: nat)
    requires size > 0 && g <= h < g + size && Slot(g, size) == Slot(h, size)
    ensures g == h
  {
    SlotOfSum(g, h - g, size);
  }

  /** The slots of the indices from `lo` up to `hi`. */
  ghost function Slots(lo: nat, hi: nat, size: nat): set<nat>
    requires size > 0
  {
    set g | g in Interval(lo, hi) :: Slot(g, size)
  }

  /** At most one turn of indices is a circular range of slots: the arguments of src/reassembler.cc:46. */
  lemma SlotsAreCircular(lo: nat, hi: nat, size: nat)
    requires size > 0 && lo < hi <= lo + size
    ensures Slots(lo, hi, size) == CircularRange(Slot(lo, size), Slot(hi + size - 1, size), size)
  {
    hide Slot;
    SlotOfSum(lo, hi - 1 - lo, size);
    SlotOfSum(hi - 1, size, size);
    var start, end := Slot(lo, size), Slot(hi + size - 1, size);
    forall s: nat
      ensures s in Slots(lo, hi, size) <==> s in CircularRange(start, end, size)
    {
      if s in Slots(lo, hi, size) {
        var g :| g in Interval(lo, hi) && Slot(g, size) == s;
        SlotOfSum(lo, g - lo, size);
      }
      if s in CircularRange(start, end, size) {
        var d := if start <= s then s - start else s + size - start;
        SlotOfSum(lo, d, size);
        assert lo + d in Interval(lo, hi);
      }
    }
  }

  /** The bit-by-bit loop that the batch operation replaced (src/reassembler.cc:34-43):
      how many bits it finds set, and what is left. */
  ghost function OneAtATime(bits: set<nat>, i: nat, tail: nat, size: nat): (nat, set<nat>)
    requires size > 0 && i <= tail
    decreases tail - i
  {
    if i == tail then (0, bits)
    else
      var (n, rest) := OneAtATime(bits - {Slot(i, size)}, i + 1, tail, size);
      (Count(Slot(i, size) in bits) + n, rest)
  }

  lemma {:induction false} OneAtATimeClears(bits: set<nat>, i: nat, tail: nat, size: nat)
    requires size > 0 && i <= tail <= i + size
    ensures OneAtATime(bits, i, tail, size) == (|bits * Slots(i, tail, size)|, bits - Slots(i, tail, size))
    decreases tail - i
  {
    hide Slot, Slots;
    if i == tail {
      SlotsOfNothing(i, size);
      assert bits * {} == {} && bits - {} == bits;
    } else {
      var s, rest := Slot(i, size), Slots(i + 1, tail, size);
      OneAtATimeClears(bits - {s}, i + 1, tail, size);
      SlotsPeel(i, tail, size);
      CountDisjoint(bits, {s}, rest);
      assert bits * {s} == if s in bits then {s} else {};
    }
  }

  lemma SlotsOfNothing(i: nat, size: nat)
    requires size > 0
    ensures Slots(i, i, size) == {}
  {
  }

  lemma SlotsPeel(i: nat, tail: nat, size: nat)
    requires size > 0 && i < tail <= i + size
    ensures Slots(i, tail, size) == {Slot(i, size)} + Slots(i + 1, tail, size)
    ensures Slot(i, size) !in Slots(i + 1, tail, size)
  {
    hide Slot;
    forall s: nat
      ensures s in Slots(i, tail, size) <==> s == Slot(i, size) || s in Slots(i + 1, tail, size)
    {
      if s in Slots(i, tail, size) {
        var g :| g in Interval(i, tail) && Slot(g, size) == s;
        assert g == i || g in Interval(i + 1, tail);
      }
      assert i in Interval(i, tail);
    }
    if Slot(i, size) in Slots(i + 1, tail, size) {
      var g :| g in Interval(i + 1, tail) && Slot(g, size) == Slot(i, size);
      SlotInjective(i, g, size);
    }
  }

  /** What `Bitmap.PopCountAndUnsetBatch` promises, as a value. */
  ghost function Batch(bits: set<nat>, start: nat, end: nat, size: nat): (nat, set<nat>) {
    if WrapsInOneBlock(start, end) then (0, bits)
    else (|bits * CircularRange(start, end, size)|, bits - CircularRange(start, end, size))
  }

  /** The batch does what the loop did exactly when the range does not wrap inside one block,
      or holds no set bit anyway. */
  lemma BatchMatchesLoop(bits: set<nat>, first: nat, tail: nat, size: nat)
    requires size > 0 && first < tail <= first + size
    ensures var start, end := Slot(first, size), Slot(tail + size - 1, size);
      Batch(bits, start, end, size) == OneAtATime(bits, first, tail, size)
      <==> !WrapsInOneBlock(start, end) || bits !! Slots(first, tail, size)
  {
    hide Slot, CircularRange, Slots, OneAtATime, WrapsInOneBlock;
    OneAtATimeClears(bits, first, tail, size);
    SlotsAreCircular(first, tail, size);
    var r := Slots(first, tail, size);
    if bits !! r {
      assert bits * r == {} && bits - r == bits;
    } else {
      assert bits - r != bits;
    }
  }

  /** Ranges at least 31 short of a full turn are never of the excluded shape, whatever the size;
      one element more can be. */
  lemma ShortRangesAreSafe(first: nat, tail: nat, size: nat)
    requires size > 0 && first < tail <= first + size
    ensures tail - first <= size - 31 ==> !WrapsInOneBlock(Slot(first, size), Slot(tail + size - 1, size))
    ensures WrapsInOneBlock(Slot(31, 64), Slot(31 + 34 + 64 - 1, 64)) && 34 == 64 - 30
  {
    SlotOfSum(first, tail - 1 - first, size);
    SlotOfSum(tail - 1, size, size);
  }
}
