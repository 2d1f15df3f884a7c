/** Bits of one 32-bit block and the masks that util/bitmap.hpp builds from them. */
module BitBlocks {
  import opened Words

  type Block = bv32

  const ALL_ONES: Block := 0xFFFF_FFFF

  /** A shift amount as a bit vector, so that shifts stay inside bit-vector reasoning. */
  function Amount(i: nat): (s: bv6)
    requires i < 32
    ensures s < 32 && s as int == i
  {
    i as bv6
  }

  predicate BitAt(b: Block, s: bv6)
    requires s < 32
  {
    (b >> s) & 1 == 1
  }

  /** Bit `i` of the block: what `Bitmap::get` tests. */
  predicate Bit(b: Block, i: nat)
    requires i < 32
  {
    BitAt(b, Amount(i))
  }

  function OneBit(i: nat): Block
    requires i < 32
  {
    1 << Amount(i)
  }

  function StartMask(i: nat): Block
    requires i < 32
  {
    ALL_ONES << Amount(i)
  }

  function EndMask(i: nat): Block
    requires i < 32
  {
    ALL_ONES >> Amount(31 - i)
  }

  lemma AmountMirror(i: nat)
    requires i < 32
    ensures Amount(31 - i) == 31 - Amount(i)
  {
  }

  lemma AmountOrder(i: nat, j: nat)
    requires i < 32 && j < 32
    ensures i <= j <==> Amount(i) <= Amount(j)
  {
  }

  lemma OneBitAt(s: bv6, t: bv6)
    requires s < 32 && t < 32
    ensures BitAt(1 << s, t) <==> s == t
  {
  }

  lemma StartMaskAt(s: bv6, t: bv6)
    requires s < 32 && t < 32
    ensures BitAt(ALL_ONES << s, t) <==> s <= t
  {
  }

  lemma EndMaskAt(s: bv6, t: bv6)
    requires s < 32 && t < 32
    ensures BitAt(ALL_ONES >> (31 - s), t) <==> t <= s
  {
  }

  /** `b & mask`. */
  function Masked(b: Block, mask: Block): Block { b & mask }

  /** `b & ~mask`. */
  function Cleared(b: Block, mask: Block): Block { b & !mask }

  /** `b | mask`. */
  function Joined(b: Block, mask: Block): Block { b | mask }

  lemma MaskedAt(b: Block, mask: Block, t: bv6)
    requires t < 32
    ensures BitAt(Masked(b, mask), t) <==> BitAt(b, t) && BitAt(mask, t)
  {
  }

  lemma ClearedAt(b: Block, mask: Block, t: bv6)
    requires t < 32
    ensures BitAt(Cleared(b, mask), t) <==> BitAt(b, t) && !BitAt(mask, t)
  {
  }

  lemma JoinedAt(b: Block, mask: Block, t: bv6)
    requires t < 32
    ensures BitAt(Joined(b, mask), t) <==> BitAt(b, t) || BitAt(mask, t)
  {
  }

  lemma AmountsAgree(i: nat, j: nat)
    requires i < 32 && j < 32
    ensures Amount(i) == Amount(j) <==> i == j
  {
  }

  lemma EndMaskBit(i: nat, j: nat)
    requires i < 32 && j < 32
    ensures Bit(EndMask(i), j) <==> j <= i
  {
    hide BitAt, Amount;
    AmountMirror(i);
    AmountOrder(j, i);
    EndMaskAt(Amount(i), Amount(j));
  }

  lemma MaskBits(i: nat, j: nat)
    requires i < 32 && j < 32
    ensures Bit(OneBit(i), j) <==> i == j
    ensures Bit(StartMask(i), j) <==> i <= j
    ensures Bit(EndMask(i), j) <==> j <= i
  {
    hide BitAt, Amount, EndMask;
    AmountsAgree(i, j);
    AmountOrder(i, j);
    OneBitAt(Amount(i), Amount(j));
    StartMaskAt(Amount(i), Amount(j));
    EndMaskBit(i, j);
  }

  lemma LogicBits(b: Block, mask: Block, j: nat)
    requires j < 32
    ensures Bit(Masked(b, mask), j) <==> Bit(b, j) && Bit(mask, j)
    ensures Bit(Cleared(b, mask), j) <==> Bit(b, j) && !Bit(mask, j)
    ensures Bit(Joined(b, mask), j) <==> Bit(b, j) || Bit(mask, j)
  {
    hide BitAt, Masked, Cleared, Joined;
    MaskedAt(b, mask, Amount(j));
    ClearedAt(b, mask, Amount(j));
    JoinedAt(b, mask, Amount(j));
  }

  /** The positions of the set bits. */
  ghost function Bits(b: Block): set<nat> {
    set i: nat | i < 32 && Bit(b, i)
  }

  lemma BitsOfMasked(b: Block, mask: Block)
    ensures Bits(Masked(b, mask)) == Bits(b) * Bits(mask)
    ensures Bits(Cleared(b, mask)) == Bits(b) - Bits(mask)
    ensures Bits(Joined(b, mask)) == Bits(b) + Bits(mask)
  {
    hide Bit, Masked, Cleared, Joined;
    forall j: nat | j < 32
      ensures Bit(Masked(b, mask), j) <==> Bit(b, j) && Bit(mask, j)
      ensures Bit(Cleared(b, mask), j) <==> Bit(b, j) && !Bit(mask, j)
      ensures Bit(Joined(b, mask), j) <==> Bit(b, j) || Bit(mask, j)
    {
      LogicBits(b, mask, j);
    }
  }

  lemma ZeroHasNoBit(j: nat)
    requires j < 32
    ensures !Bit(0, j)
  {
    assert !BitAt(0, Amount(j));
  }

  lemma BitsOfMasks(i: nat)
    requires i < 32
    ensures Bits(OneBit(i)) == {i}
    ensures Bits(StartMask(i)) == Interval(i, 32)
    ensures Bits(EndMask(i)) == Interval(0, i + 1)
  {
    hide Bit, OneBit, StartMask, EndMask;
    forall j: nat | j < 32
      ensures Bit(OneBit(i), j) <==> i == j
      ensures Bit(StartMask(i), j) <==> i <= j
      ensures Bit(EndMask(i), j) <==> j <= i
    {
      MaskBits(i, j);
    }
  }

  /** `__builtin_popcount`, one bit at a time. */
  function CountOnes(b: Block): nat {
    CountFrom(b, 0)
  }

  function CountFrom(b: Block, i: nat): nat
    requires i <= 32
    decreases 32 - i
  {
    if i == 32 then 0 else (if Bit(b, i) then 1 else 0) + CountFrom(b, i + 1)
  }

  lemma {:induction false} CountFromIsCardinality(b: Block, i: nat)
    requires i <= 32
    ensures CountFrom(b, i) == |set j: nat | i <= j < 32 && Bit(b, j)|
    decreases 32 - i
  {
    hide Bit;
    var here := set j: nat | i <= j < 32 && Bit(b, j);
    if i == 32 {
      assert here == {};
    } else {
      CountFromIsCardinality(b, i + 1);
      var rest := set j: nat | i + 1 <= j < 32 && Bit(b, j);
      assert here == if Bit(b, i) then {i} + rest else rest;
    }
  }

  lemma CountOnesIsCardinality(b: Block)
    ensures CountOnes(b) == |Bits(b)|
  {
    hide Bit;
    CountFromIsCardinality(b, 0);
    assert Bits(b) == set j: nat | 0 <= j < 32 && Bit(b, j);
  }
}
