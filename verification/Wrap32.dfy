/** 32-bit wrapping sequence numbers (src/wrapping_integers.cc), RFC 9293 section 3.4. */
module Wrap32 {
  import opened Words

  /** Absolute sequence number to 32-bit sequence number. */
  function Wrap(n: U64, zero: U32): U32 {
    Low32(zero + Low32(n))
  }

  /** How far `raw` lies ahead of the checkpoint, going forward around the 32-bit circle. */
  function Ahead(raw: U32, zero: U32, checkpoint: U64): U32 {
    Low32(raw - Wrap(checkpoint, zero))
  }

  /** `static_cast<int32_t>`. */
  function Signed(x: U32): int {
    if x >= TWO31 then x - TWO32 else x
  }

  /** 32-bit sequence number back to an absolute one near the checkpoint. */
  function Unwrap(raw: U32, zero: U32, checkpoint: U64): U64 {
    Step(checkpoint, Ahead(raw, zero, checkpoint))
  }

  /** The move away from the checkpoint; all sums are 64-bit. */
  function Step(checkpoint: U64, diff: U32): U64 {
    if diff >= TWO31 && Low64(diff + checkpoint) <= TWO32 - 1 then
      Low64(checkpoint + diff)
    else
      Low64(checkpoint + Signed(diff))
  }

  function Distance(a: int, b: int): nat {
    if a <= b then b - a else a - b
  }

  /** `r` is the absolute number that wraps to `raw` and is closest to the checkpoint,
      the lower one when two are equally close. */
  ghost predicate IsClosest(r: U64, raw: U32, zero: U32, checkpoint: U64) {
    && Wrap(r, zero) == raw
    && forall m: U64 :: Wrap(m, zero) == raw ==>
         Distance(r, checkpoint) < Distance(m, checkpoint) || (Distance(r, checkpoint) == Distance(m, checkpoint) && r <= m)
  }

  /** Wrapping commutes with adding: only the residue of the absolute number matters. */
  lemma WrapOfSum(n: U64, zero: U32, raw: U32, k: int)
    requires zero + n == raw + k * 0x1_0000_0000
    ensures Wrap(n, zero) == raw
  {
    Low32Is(zero + Low32(n), raw, k - n / 0x1_0000_0000);
  }

  /** The absolute numbers with image `raw` are those a multiple of 2^32 away from `checkpoint + Ahead`. */
  lemma SameImage(n: U64, raw: U32, zero: U32, checkpoint: U64) returns (k: int)
    requires Wrap(n, zero) == raw
    ensures n == checkpoint + Ahead(raw, zero, checkpoint) + k * 0x1_0000_0000
  {
    var c := (zero + Low32(checkpoint)) / 0x1_0000_0000 + checkpoint / 0x1_0000_0000;
    assert zero + checkpoint == Wrap(checkpoint, zero) + c * 0x1_0000_0000;
    var j := (zero + Low32(n)) / 0x1_0000_0000 + n / 0x1_0000_0000;
    assert zero + n == raw + j * 0x1_0000_0000;
    var l := (raw - Wrap(checkpoint, zero)) / 0x1_0000_0000;
    assert raw - Wrap(checkpoint, zero) == Ahead(raw, zero, checkpoint) + l * 0x1_0000_0000;
    k := j + l - c;
  }

  lemma AheadHasImage(n: U64, raw: U32, zero: U32, checkpoint: U64, k: int)
    requires n == checkpoint + Ahead(raw, zero, checkpoint) + k * 0x1_0000_0000
    ensures Wrap(n, zero) == raw
  {
    var c := (zero + Low32(checkpoint)) / 0x1_0000_0000 + checkpoint / 0x1_0000_0000;
    assert zero + checkpoint == Wrap(checkpoint, zero) + c * 0x1_0000_0000;
    var l := (raw - Wrap(checkpoint, zero)) / 0x1_0000_0000;
    assert raw - Wrap(checkpoint, zero) == Ahead(raw, zero, checkpoint) + l * 0x1_0000_0000;
    WrapOfSum(n, zero, raw, c + k - l);
  }

  lemma Low64Of(x: int)
    requires -TWO64 <= x < 2 * TWO64
    ensures Low64(x) == if x < 0 then x + TWO64 else if x < TWO64 then x else x - TWO64
  {
  }

  /** `Step` without the machine arithmetic. */
  lemma StepValue(checkpoint: U64, diff: U32)
    ensures var up := checkpoint + diff;
      Step(checkpoint, diff) ==
        if up >= TWO64 then up - TWO64 else if diff >= TWO31 && up >= TWO32 then up - TWO32 else up
  {
    Low64Of(checkpoint + diff);
    Low64Of(checkpoint + Signed(diff));
  }

  /** Every other number with the same image is farther from the checkpoint, or as far and higher. */
  lemma StepIsNearest(raw: U32, zero: U32, checkpoint: U64, m: U64)
    requires checkpoint + Ahead(raw, zero, checkpoint) < TWO64
    requires Wrap(m, zero) == raw
    ensures var r := Unwrap(raw, zero, checkpoint);
      Distance(r, checkpoint) < Distance(m, checkpoint) || (Distance(r, checkpoint) == Distance(m, checkpoint) && r <= m)
  {
    hide Wrap, Ahead, Step;
    StepValue(checkpoint, Ahead(raw, zero, checkpoint));
    var k := SameImage(m, raw, zero, checkpoint);
    assert k <= -1 ==> k * 0x1_0000_0000 <= -0x1_0000_0000;
    assert k >= 1 ==> k * 0x1_0000_0000 >= 0x1_0000_0000;
  }

  /** Unwrapping is exact precisely when the forward step does not leave the 64-bit range.
      Every checkpoint below 2^64 - 2^32 meets the condition. */
  lemma UnwrapClosest(raw: U32, zero: U32, checkpoint: U64)
    ensures IsClosest(Unwrap(raw, zero, checkpoint), raw, zero, checkpoint)
       <==> checkpoint + Ahead(raw, zero, checkpoint) < TWO64
    ensures checkpoint < TWO64 - TWO32 ==> checkpoint + Ahead(raw, zero, checkpoint) < TWO64
  {
    hide Wrap, Ahead, Step;
    var up := checkpoint + Ahead(raw, zero, checkpoint);
    var r := Unwrap(raw, zero, checkpoint);
    StepValue(checkpoint, Ahead(raw, zero, checkpoint));
    if up < TWO64 {
      AheadHasImage(r, raw, zero, checkpoint, if r == up then 0 else -1);
      forall m: U64 | Wrap(m, zero) == raw
        ensures Distance(r, checkpoint) < Distance(m, checkpoint) || (Distance(r, checkpoint) == Distance(m, checkpoint) && r <= m)
      {
        StepIsNearest(raw, zero, checkpoint, m);
      }
    } else {
      AheadHasImage(up - TWO32, raw, zero, checkpoint, -1);
      assert Distance(up - TWO32, checkpoint) < Distance(r, checkpoint);
    }
  }

  /** A number within 2^31 of the checkpoint survives wrapping and unwrapping. */
  lemma RoundTrip(n: U64, zero: U32, checkpoint: U64)
    requires Distance(n, checkpoint) < TWO31
    requires checkpoint < TWO64 - TWO32
    ensures Unwrap(Wrap(n, zero), zero, checkpoint) == n
  {
    hide Wrap, Ahead, Unwrap;
    UnwrapClosest(Wrap(n, zero), zero, checkpoint);
    var r := Unwrap(Wrap(n, zero), zero, checkpoint);
    assert Distance(r, checkpoint) <= Distance(n, checkpoint);
    var j := SameImage(n, Wrap(n, zero), zero, checkpoint);
    var k := SameImage(r, Wrap(n, zero), zero, checkpoint);
  }
}
