/** Python's `round` on an exact ratio: to the nearest integer, ties to the even one. */
module Rounding {
  function Max(a: int, b: int): int {
    if a >= b then a else b
  }

  function Min(a: int, b: int): int {
    if a <= b then a else b
  }

  /** What rounding half to even means: `r` is at distance at most 1/2 from n/d, and is even on a tie. */
  predicate IsNearestEven(n: int, d: int, r: int)
    requires d > 0
  {
    && -d <= 2 * (n - d * r) <= d
    && (2 * (n - d * r) == d || 2 * (n - d * r) == -d ==> r % 2 == 0)
  }

  function RoundHalfEven(n: int, d: int): int
    requires d > 0
  {
    var q, rem := n / d, n % d;
    if 2 * rem < d then q
    else if 2 * rem > d then q + 1
    else if q % 2 == 0 then q
    else q + 1
  }

  lemma RoundIsNearestEven(n: int, d: int)
    requires d > 0
    ensures IsNearestEven(n, d, RoundHalfEven(n, d))
  {
    var q, rem := n / d, n % d;
    assert n == d * q + rem;
    assert d * (q + 1) == d * q + d;
  }

  lemma MulAtLeast(d: int, k: int)
    requires d > 0 && k >= 1
    ensures d * k >= d
  {
    assert d * k - d == d * (k - 1);
  }

  /** Rounding keeps order; with the same value on both sides it says the nearest-even integer is unique. */
  lemma NearestEvenMonotone(n1: int, n2: int, d: int, r1: int, r2: int)
    requires d > 0 && n1 <= n2
    requires IsNearestEven(n1, d, r1) && IsNearestEven(n2, d, r2)
    ensures r1 <= r2
  {
    if r1 > r2 {
      var k := r1 - r2;
      assert d * r1 == d * r2 + d * k;
      MulAtLeast(d, k);
      if k > 1 {
        assert d * k == d + d * (k - 1);
        MulAtLeast(d, k - 1);
      }
      assert false;
    }
  }

  lemma RoundMonotone(n1: int, n2: int, d: int)
    requires d > 0 && n1 <= n2
    ensures RoundHalfEven(n1, d) <= RoundHalfEven(n2, d)
  {
    RoundIsNearestEven(n1, d);
    RoundIsNearestEven(n2, d);
    NearestEvenMonotone(n1, n2, d, RoundHalfEven(n1, d), RoundHalfEven(n2, d));
  }

  lemma RoundExact(k: int, d: int)
    requires d > 0
    ensures RoundHalfEven(k * d, d) == k
  {
    assert d * k == k * d;
    assert IsNearestEven(k * d, d, k);
    RoundIsNearestEven(k * d, d);
    NearestEvenMonotone(k * d, k * d, d, RoundHalfEven(k * d, d), k);
    NearestEvenMonotone(k * d, k * d, d, k, RoundHalfEven(k * d, d));
  }

  /** Integer bounds of the ratio are bounds of its rounding. */
  lemma RoundAtLeast(n: int, d: int, k: int)
    requires d > 0 && k * d <= n
    ensures k <= RoundHalfEven(n, d)
  {
    RoundExact(k, d);
    RoundMonotone(k * d, n, d);
  }

  lemma RoundAtMost(n: int, d: int, k: int)
    requires d > 0 && n <= k * d
    ensures RoundHalfEven(n, d) <= k
  {
    RoundExact(k, d);
    RoundMonotone(n, k * d, d);
  }

  /** Ratios more than one apart round to different integers (exactly one apart need not: 3/2 and 5/2). */
  lemma RoundSeparates(n1: int, n2: int, d: int)
    requires d > 0 && n2 - n1 > d
    ensures RoundHalfEven(n1, d) < RoundHalfEven(n2, d)
  {
    var r1, r2 := RoundHalfEven(n1, d), RoundHalfEven(n2, d);
    RoundIsNearestEven(n1, d);
    RoundIsNearestEven(n2, d);
    assert d * (r2 - r1) == d * r2 - d * r1;
    RoundMonotone(n1, n2, d);
    assert r1 == r2 ==> d * r1 == d * r2;
  }
}
