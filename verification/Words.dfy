/** Machine words of the original program, modelled as bounded integers.
    Every wrap-around of an unsigned C++ operation is written out with `Low32` or `Low64`. */
module Words {
  const TWO16: int := 0x1_0000
  const TWO31: int := 0x8000_0000
  const TWO32: int := 0x1_0000_0000
  const TWO64: int := 0x1_0000_0000_0000_0000

  type Byte = x: int | 0 <= x < 0x100
  type U16 = x: int | 0 <= x < 0x1_0000
  type U32 = x: int | 0 <= x < 0x1_0000_0000
  type U64 = x: int | 0 <= x < 0x1_0000_0000_0000_0000

  datatype Option<+T> = None | Some(value: T)

  function Low32(x: int): U32 { x % 0x1_0000_0000 }

  lemma Low32Is(x: int, r: U32, k: int)
    requires x == r + k * 0x1_0000_0000
    ensures Low32(x) == r
  {
  }

  /** Truncating on the way changes nothing. */
  lemma Low32OfSum(a: int, b: int)
    ensures Low32(Low32(a) + b) == Low32(a + b)
  {
    Low32Is(a + b, Low32(Low32(a) + b), a / 0x1_0000_0000 + (Low32(a) + b) / 0x1_0000_0000);
  }

  function Low64(x: int): U64 { x % 0x1_0000_0000_0000_0000 }

  function Min(a: int, b: int): int { if a <= b then a else b }

  function Max(a: int, b: int): int { if a >= b then a else b }

  /** The value of a C++ bool in an arithmetic expression. */
  function Count(b: bool): nat { if b then 1 else 0 }

  /** The integers from `lo` up to but not including `hi`. */
  ghost function Interval(lo: nat, hi: nat): (s: set<nat>)
    ensures forall e: nat :: e in s <==> lo <= e < hi
    decreases hi - lo
  {
    if lo >= hi then {} else {lo} + Interval(lo + 1, hi)
  }

  lemma {:induction false} IntervalSize(lo: nat, hi: nat)
    requires lo <= hi
    ensures |Interval(lo, hi)| == hi - lo
    decreases hi - lo
  {
    if lo < hi {
      IntervalSize(lo + 1, hi);
    }
  }

  /** Two equations between sequences, put end to end. */
  lemma Glue<T>(a: seq<T>, x: seq<T>, v: seq<T>, b: seq<T>, y: seq<T>, c: seq<T>, d: seq<T>)
    requires a + b == c + d && x + v == b + y
    ensures (a + x) + v == c + (d + y)
  {
    assert (a + x) + v == a + (x + v);
    assert a + (b + y) == (a + b) + y;
  }

  /** A quotient is known by its remainder. */
  lemma QuotientIs(x: nat, d: nat, q: nat, r: nat)
    requires d > 0 && x == d * q + r && r < d
    ensures x / d == q
  {
    var y, z := x / d, x % d;
    assert x == d * y + z;
    SameQuotient(d, q, r, y, z);
  }

  lemma SameQuotient(d: nat, q: nat, r: nat, y: nat, z: nat)
    requires d * q + r == d * y + z && r < d && z < d
    ensures q == y
  {
    assert d * (q - y) == z - r;
    assert q - y >= 1 ==> d * (q - y) >= d;
    assert q - y <= -1 ==> d * (q - y) <= -(d as int);
  }

  /** Dividing twice is dividing by the product. */
  lemma QuotientOfQuotient(x: nat, p: nat, k: nat)
    requires p > 0 && k > 0
    ensures p * k > 0 && x / p / k == x / (p * k)
  {
    var q, r := x / p, x % p;
    var u, v := q / k, q % k;
    SplitTwice(x, p, k, q, r, u, v);
    QuotientIs(x, p * k, u, p * v + r);
  }

  lemma SplitTwice(x: nat, p: nat, k: nat, q: nat, r: nat, u: nat, v: nat)
    requires x == p * q + r && q == k * u + v && r < p && v < k
    ensures p * k > 0 && x == (p * k) * u + (p * v + r) && p * v + r < p * k
  {
    assert p * q == p * (k * u + v) == p * (k * u) + p * v;
    assert p * (k * u) == (p * k) * u;
    assert p * v <= p * (k - 1) == p * k - p;
  }
}
