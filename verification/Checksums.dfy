/** The Internet checksum (util/checksum.hh), RFC 1071. */
module Checksums {
  import opened Words
  import opened Wire

  /** What a run of bytes adds to the sum: bytes at even positions count as high halves. */
  function WordSum(data: seq<Byte>, odd: bool): nat {
    if data == [] then 0 else (if odd then data[0] else data[0] * 256) + WordSum(data[1..], !odd)
  }

  function Odd(n: nat): bool {
    n % 2 == 1
  }

  lemma OddOfSum(m: nat, n: nat)
    ensures Odd(m + n) == (Odd(m) != Odd(n)) && !Odd(0) && Odd(1)
  {
  }

  lemma {:induction false} WordSumOfSum(a: seq<Byte>, b: seq<Byte>, odd: bool)
    ensures WordSum(a + b, odd) == WordSum(a, odd) + WordSum(b, odd != Odd(|a|))
  {
    if a == [] {
      assert a + b == b;
    } else {
      assert (a + b)[0] == a[0] && (a + b)[1..] == a[1..] + b;
      OddOfSum(1, |a[1..]|);
      hide Odd;
      WordSumOfSum(a[1..], b, !odd);
    }
  }

  /** End-around carry until the sum fits 16 bits. */
  function Fold(x: nat): (r: nat)
    ensures r <= 0xFFFF
  {
    if x > 0xFFFF then Fold(x / 0x1_0000 + x % 0x1_0000) else x
  }

  /** Folding takes away a multiple of 2^16 - 1 (`times` of them), and only zero folds to zero. */
  lemma {:induction false} FoldIsResidue(x: nat) returns (times: nat)
    ensures x == Fold(x) + times * 0xFFFF && (Fold(x) == 0 <==> x == 0)
  {
    times := 0;
    if x > 0xFFFF {
      var k := FoldIsResidue(x / 0x1_0000 + x % 0x1_0000);
      times := k + x / 0x1_0000;
    }
  }

  class InternetChecksum {
    var sum: U32
    var parity: bool

    constructor (initial: U32)
      ensures sum == initial && !parity
    {
      sum, parity := initial, false;
    }

    method Add(data: seq<Byte>)
      modifies this
      ensures sum == Low32(old(sum) + WordSum(data, old(parity))) && parity == (old(parity) != Odd(|data|))
    {
      hide Low32, Odd;
      ghost var before, odd := sum, parity;
      NothingAdded(before, odd);
      for i := 0 to |data|
        invariant sum == Low32(before + WordSum(data[..i], odd)) && parity == (odd != Odd(i))
      {
        assert data[..i + 1] == data[..i] + [data[i]];
        WordSumOfSum(data[..i], [data[i]], odd);
        OddOfSum(i, 1);
        var val: nat := data[i];
        if !parity {
          val := val * 256;
        }
        Low32OfSum(before + WordSum(data[..i], odd), val);
        sum := Low32(sum + val);
        parity := !parity;
      }
      assert data[..|data|] == data;
    }

    /** However the data is cut into chunks, the state is that of adding it in one piece. */
    method AddAll(chunks: seq<seq<Byte>>)
      modifies this
      ensures sum == Low32(old(sum) + WordSum(Concat(chunks), old(parity))) && parity == (old(parity) != Odd(|Concat(chunks)|))
    {
      hide Low32, Odd, WordSum;
      ghost var before, odd := sum, parity;
      NothingAdded(before, odd);
      for i := 0 to |chunks|
        invariant sum == Low32(before + WordSum(Concat(chunks[..i]), odd)) && parity == (odd != Odd(|Concat(chunks[..i])|))
      {
        assert chunks[..i + 1] == chunks[..i] + [chunks[i]];
        ConcatOfSum(chunks[..i], [chunks[i]]);
        ConcatOfOne(chunks[i]);
        WordSumOfSum(Concat(chunks[..i]), chunks[i], odd);
        OddOfSum(|Concat(chunks[..i])|, |chunks[i]|);
        Low32OfSum(before + WordSum(Concat(chunks[..i]), odd), WordSum(chunks[i], parity));
        Add(chunks[i]);
      }
      assert chunks[..|chunks|] == chunks;
    }

    method Value() returns (v: U16)
      ensures v == 0xFFFF - Fold(sum)
    {
      var ret: nat := sum;
      while ret > 0xFFFF
        invariant Fold(ret) == Fold(sum)
        decreases ret
      {
        ret := ret / 0x1_0000 + ret % 0x1_0000;
      }
      v := 0xFFFF - ret;
    }
  }

  /** Filling the complement of the sum into a zero word makes everything sum to all ones. */
  lemma CompletedSum(x: nat)
    requires x > 0
    ensures Fold(x + (0xFFFF - Fold(x))) == 0xFFFF
  {
    hide Fold;
    var k := FoldIsResidue(x);
    var n := FoldIsResidue(x + (0xFFFF - Fold(x)));
  }

  lemma NothingAdded(before: U32, odd: bool)
    ensures Low32(before + WordSum([], odd)) == before && !Odd(0)
  {
  }
}
