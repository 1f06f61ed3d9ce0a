/** JavaScript's `Math.round` applied to a quotient of non-negative integers. */
module JsMath {

  /** `Math.round(p / q)` for `p >= 0` and `q > 0`: the integer `floor(p/q + 1/2)`,
      so an exact half rounds up, as `Math.round` does. The result is the integer
      nearest to `p/q`: it is at most half a unit below and less than half a unit above. */
  function RoundDiv(p: nat, q: nat): (r: nat)
    requires q > 0
    ensures q * (2 * r - 1) <= 2 * p < q * (2 * r + 1)
  {
    var n, d := 2 * p + q, 2 * q;
    assert n == d * (n / d) + n % d;
    n / d
  }

  /** Multiplying by a positive factor keeps a strict order, so it can be cancelled. */
  lemma CancelFactor(q: nat, a: int, b: int)
    requires q > 0 && q * a < q * b
    ensures a < b
  {
    if a >= b {
      MultiplyAtLeast(q, b, a);
    }
  }

  lemma MultiplyAtLeast(q: nat, a: int, b: int)
    requires a <= b
    ensures q * a <= q * b
  {
    assert q * b - q * a == q * (b - a);
  }

  /** The bounds of `RoundDiv` determine it: no other integer is that close to `p/q`. */
  lemma RoundDivUnique(p: nat, q: nat, r: int)
    requires q > 0
    requires q * (2 * r - 1) <= 2 * p < q * (2 * r + 1)
    ensures r == RoundDiv(p, q)
  {
    var s: int := RoundDiv(p, q);
    CancelFactor(q, 2 * r - 1, 2 * s + 1);
    CancelFactor(q, 2 * s - 1, 2 * r + 1);
  }

  /** Rounding a quotient that is at most `k` never gives more than `k`. */
  lemma RoundDivAtMost(p: nat, q: nat, k: nat)
    requires q > 0 && p <= k * q
    ensures RoundDiv(p, q) <= k
  {
    var r: int := RoundDiv(p, q);
    CancelFactor(q, 2 * r - 1, 2 * k + 1);
  }

  /** Rounding is monotone in the numerator. */
  lemma RoundDivMonotone(p1: nat, p2: nat, q: nat)
    requires q > 0 && p1 <= p2
    ensures RoundDiv(p1, q) <= RoundDiv(p2, q)
  {
    var r1: int, r2: int := RoundDiv(p1, q), RoundDiv(p2, q);
    CancelFactor(q, 2 * r1 - 1, 2 * r2 + 1);
  }
}
