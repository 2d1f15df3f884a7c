/** The ring window and its bitmap as a partial map from stream index to byte. */
module SlidingWindow {
  import opened Words
  import opened Bitmaps
  import opened Ring

  /** The slots of a set of indices. */
  ghost function SlotSet(keys: set<nat>, size: nat): set<nat>
    requires size > 0
  {
    set g | g in keys :: Slot(g, size)
  }

  /** All indices lie within one turn starting at `lo`. */
  ghost predicate WithinTurn(keys: set<nat>, lo: nat, size: nat) {
    forall g :: g in keys ==> lo <= g < lo + size
  }

  /** Each set bit stands for exactly one held index, and its slot holds that index's byte. */
  ghost predicate Holds(held: map<nat, Byte>, bits: set<nat>, window: seq<Byte>, lo: nat) {
    && |window| > 0
    && WithinTurn(held.Keys, lo, |window|)
    && bits == SlotSet(held.Keys, |window|)
    && forall g :: g in held ==> window[Slot(g, |window|)] == held[g]
  }

  /** Testing a bit answers whether that very index is held. */
  lemma BitMeansHeld(keys: set<nat>, g: nat, lo: nat, size: nat)
    requires size > 0 && WithinTurn(keys, lo, size) && lo <= g < lo + size
    ensures Slot(g, size) in SlotSet(keys, size) <==> g in keys
  {
    hide Slot;
    if Slot(g, size) in SlotSet(keys, size) {
      var h :| h in keys && Slot(h, size) == Slot(g, size);
      if g <= h {
        SlotInjective(g, h, size);
      } else {
        SlotInjective(h, g, size);
      }
    }
  }

  /** One whole turn on from `lo` there is nothing, unless `lo` itself is held. */
  lemma NextTurnIsEmpty(keys: set<nat>, lo: nat, size: nat)
    requires size > 0 && WithinTurn(keys, lo, size) && lo !in keys
    ensures Slot(lo + size, size) !in SlotSet(keys, size)
  {
    hide Slot;
    SlotOfSum(lo, size, size);
    BitMeansHeld(keys, lo, lo, size);
  }

  lemma SlotSetWithout(keys: set<nat>, g: nat, lo: nat, size: nat)
    requires size > 0 && WithinTurn(keys, lo, size) && lo <= g < lo + size
    ensures SlotSet(keys - {g}, size) == SlotSet(keys, size) - {Slot(g, size)}
  {
    hide Slot;
    BitMeansHeld(keys - {g}, g, lo, size);
    forall s | s in SlotSet(keys, size) && s != Slot(g, size)
      ensures s in SlotSet(keys - {g}, size)
    {
      var h :| h in keys && Slot(h, size) == s;
      assert h in keys - {g};
    }
  }

  lemma {:induction false} SlotSetSize(keys: set<nat>, lo: nat, size: nat)
    requires size > 0 && WithinTurn(keys, lo, size)
    ensures |SlotSet(keys, size)| == |keys|
    decreases |keys|
  {
    hide Slot;
    if keys == {} {
      assert SlotSet(keys, size) == {};
    } else {
      var g :| g in keys;
      SlotSetSize(keys - {g}, lo, size);
      SlotSetWithout(keys, g, lo, size);
      assert Slot(g, size) in SlotSet(keys, size);
    }
  }

  /** Clearing the slots of a stretch forgets exactly that stretch. */
  lemma SlotSetWithoutStretch(keys: set<nat>, from: nat, to: nat, lo: nat, size: nat)
    requires size > 0 && WithinTurn(keys, lo, size) && lo <= from && to <= lo + size
    ensures SlotSet(keys, size) - Slots(from, to, size) == SlotSet(keys - Interval(from, to), size)
    ensures |SlotSet(keys, size) * Slots(from, to, size)| == |keys * Interval(from, to)|
  {
    hide Slot;
    var gone := Interval(from, to);
    forall s
      ensures s in SlotSet(keys, size) && s !in Slots(from, to, size) <==> s in SlotSet(keys - gone, size)
      ensures s in SlotSet(keys, size) && s in Slots(from, to, size) <==> s in SlotSet(keys * gone, size)
    {
      if s in SlotSet(keys, size) {
        var g :| g in keys && Slot(g, size) == s;
        BitMeansHeld(gone, g, lo, size);
        BitMeansHeld(keys - gone, g, lo, size);
        BitMeansHeld(keys * gone, g, lo, size);
        assert Slots(from, to, size) == SlotSet(gone, size);
      }
    }
    assert SlotSet(keys, size) * Slots(from, to, size) == SlotSet(keys * gone, size);
    SlotSetSize(keys * gone, lo, size);
  }

  lemma HoldsAfterTaking(held: map<nat, Byte>, bits: set<nat>, window: seq<Byte>, lo: nat, g: nat)
    requires Holds(held, bits, window, lo) && lo <= g < lo + |window|
    ensures Holds(held - {g}, bits - {Slot(g, |window|)}, window, lo)
  {
    hide Slot;
    SlotSetWithout(held.Keys, g, lo, |window|);
    assert (held - {g}).Keys == held.Keys - {g};
  }

  lemma HoldsAfterClearing(held: map<nat, Byte>, bits: set<nat>, window: seq<Byte>, lo: nat, from: nat, to: nat)
    requires Holds(held, bits, window, lo) && lo <= from && to <= lo + |window|
    ensures Holds(held - Interval(from, to), bits - Slots(from, to, |window|), window, lo)
  {
    hide Slot, Slots, Interval, SlotSet;
    var gone := Interval(from, to);
    SlotSetWithoutStretch(held.Keys, from, to, lo, |window|);
    assert (held - gone).Keys == held.Keys - gone;
  }

  lemma SizeAfterClearing(held: map<nat, Byte>, bits: set<nat>, window: seq<Byte>, lo: nat, from: nat, to: nat)
    requires Holds(held, bits, window, lo) && lo <= from && to <= lo + |window|
    ensures |held - Interval(from, to)| + |bits * Slots(from, to, |window|)| == |held|
  {
    hide Slot, Slots, Interval, SlotSet;
    var gone := Interval(from, to);
    SlotSetWithoutStretch(held.Keys, from, to, lo, |window|);
    assert (held - gone).Keys == held.Keys - gone;
    Partition(held.Keys, gone);
  }

  lemma Partition(s: set<nat>, t: set<nat>)
    ensures |s - t| + |s * t| == |s|
  {
    assert s == (s - t) + (s * t);
  }

  lemma HoldsAfterStoring(held: map<nat, Byte>, bits: set<nat>, window: seq<Byte>, lo: nat, g: nat, b: Byte)
    requires Holds(held, bits, window, lo) && lo <= g < lo + |window| && g !in held
    ensures var s := Slot(g, |window|); Holds(held[g := b], bits + {s}, window[s := b], lo)
    ensures |held[g := b]| == |held| + 1
  {
    hide Slot;
    var s := Slot(g, |window|);
    BitMeansHeld(held.Keys, g, lo, |window|);
    assert held[g := b].Keys == held.Keys + {g};
    forall h | h in held
      ensures Slot(h, |window|) != s
    {
      assert Slot(h, |window|) in SlotSet(held.Keys, |window|);
    }
  }
}
