/** JavaScript's `Math.round`, over exact reals. */
module Rounding {

  /** Nearest integer to `x`; a tie (x = n + 1/2) goes up to n + 1, toward +infinity. */
  function Round(x: real): (r: int)
    ensures r as real - 0.5 <= x < r as real + 0.5
  {
    (x + 0.5).Floor
  }

  /** Rounding never reverses an order. */
  lemma RoundMonotone(x: real, y: real)
    requires x <= y
    ensures Round(x) <= Round(y)
  {
  }

  /** The integer within half a unit (below inclusive, above exclusive) is the rounded value. */
  lemma RoundUnique(x: real, n: int)
    requires n as real - 0.5 <= x < n as real + 0.5
    ensures Round(x) == n
  {
  }

  /** An integral value rounds to itself. */
  lemma RoundIntegral(n: int)
    ensures Round(n as real) == n
  {
  }

  /** A product of two non-negative reals is non-negative. */
  lemma MulNonNegative(x: real, y: real)
    requires 0.0 <= x && 0.0 <= y
    ensures 0.0 <= x * y
  {
  }

  /** A fraction whose numerator lies between 0 and its positive denominator lies in [0, 1]. */
  lemma UnitFraction(a: real, b: real)
    requires 0.0 <= a <= b && 0.0 < b
    ensures 0.0 <= a / b <= 1.0
  {
    var t := a / b;
    assert t * b == a;
    if t < 0.0 { MulNonNegative(-t, b); }
    if t > 1.0 { MulNonNegative(t - 1.0, b); }
  }

  /** The point a fraction `t` of the way from `a` to `b`. */
  function Along(a: real, b: real, t: real): real {
    a + (b - a) * t
  }

  /** A point on the segment from `a` to `b` (fraction `t` in [0, 1]) stays between the ends. */
  lemma BetweenEnds(a: real, b: real, t: real)
    requires 0.0 <= t <= 1.0
    ensures a <= b ==> a <= Along(a, b, t) <= b
    ensures b <= a ==> b <= Along(a, b, t) <= a
  {
    if a <= b {
      MulNonNegative(b - a, t);
      MulNonNegative(b - a, 1.0 - t);
    } else {
      MulNonNegative(a - b, t);
      MulNonNegative(a - b, 1.0 - t);
    }
  }

  /** Rounding a point between `a` and `b` lands between the rounded ends. */
  lemma RoundBetweenEnds(a: real, b: real, t: real)
    requires 0.0 <= t <= 1.0
    ensures a <= b ==> Round(a) <= Round(Along(a, b, t)) <= Round(b)
    ensures b <= a ==> Round(b) <= Round(Along(a, b, t)) <= Round(a)
  {
    BetweenEnds(a, b, t);
    if a <= b {
      RoundMonotone(a, Along(a, b, t));
      RoundMonotone(Along(a, b, t), b);
    } else {
      RoundMonotone(b, Along(a, b, t));
      RoundMonotone(Along(a, b, t), a);
    }
  }

  /** Moving further along the segment moves towards `b`. */
  lemma AlongMonotone(a: real, b: real, s: real, t: real)
    requires s <= t
    ensures a <= b ==> Along(a, b, s) <= Along(a, b, t)
    ensures b <= a ==> Along(a, b, t) <= Along(a, b, s)
  {
    if a <= b {
      MulNonNegative(b - a, t - s);
    } else {
      MulNonNegative(a - b, t - s);
    }
  }
}
