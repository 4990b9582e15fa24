/**
 * Exact rational arithmetic for resolution values. The analyzers divide and scale
 * with floating point (`numerator / denominator`, `× 2.54`, `/ 65536`) and rounds
 * with `Math.round`; here a value is a numerator/denominator pair, bounds are
 * checked by cross-multiplying and rounding is half-up.
 */
module Rational {

  /** The rational `num / den`; only a positive denominator makes it a value. */
  datatype Ratio = Ratio(num: int, den: nat)

  /** A resolution the analyzers accept: `1 <= num / den <= 10000`. */
  predicate InDpiRange(q: Ratio)
  {
    q.den > 0 && q.den <= q.num && q.num <= 10000 * q.den
  }

  /** The value multiplied by 2.54 (centimetres to inches). */
  function Scale254(q: Ratio): (r: Ratio)
    ensures r.num * q.den * 100 == 254 * q.num * r.den
  {
    Ratio(q.num * 254, q.den * 100)
  }

  /** `Math.round(num / den)`: the nearest integer, halves rounded up (towards +∞, also for negatives). */
  function Round(q: Ratio): (r: int)
    requires q.den > 0
    ensures 2 * q.den * r <= 2 * q.num + q.den < 2 * q.den * (r + 1)
  {
    (2 * q.num + q.den) / (2 * q.den)
  }

  /** Rounding an integer gives it back. */
  lemma RoundOfInteger(n: int)
    ensures Round(Ratio(n, 1)) == n
  {
  }

  /** Cancelling a positive factor from a strict inequality between products. */
  lemma CancelFactor(d: int, a: int, b: int)
    requires d > 0 && d * a < d * b
    ensures a < b
  {
    assert d * (b - a) == d * b - d * a;
  }

  /** Rounding is the unique integer within one half of the value. */
  lemma {:induction false} RoundUnique(q: Ratio, r: int)
    requires q.den > 0
    requires 2 * q.den * r <= 2 * q.num + q.den < 2 * q.den * (r + 1)
    ensures Round(q) == r
  {
    var k := Round(q);
    CancelFactor(2 * q.den, r, k + 1);
    CancelFactor(2 * q.den, k, r + 1);
  }

  /** An accepted resolution rounds to a whole number of dots per inch in [1, 10000]. */
  lemma {:induction false} RoundInDpiRange(q: Ratio)
    requires InDpiRange(q)
    ensures 1 <= Round(q) <= 10000
  {
    var r := Round(q);
    CancelFactor(2 * q.den, 1, r + 1);
    CancelFactor(2 * q.den, r, 10001);
  }

  /**
   * An accepted resolution given per centimetre becomes 3 to 25400 dots per inch
   * once multiplied by 2.54 and rounded.
   */
  lemma {:induction false} RoundScaledInRange(q: Ratio)
    requires InDpiRange(q)
    ensures 3 <= Round(Scale254(q)) <= 25400
  {
    var s := Scale254(q);
    var r := Round(s);
    assert s.num == 254 * q.num && s.den == 100 * q.den;
    CancelFactor(2 * s.den, 2, r + 1);
    CancelFactor(2 * s.den, r, 25401);
  }
}
