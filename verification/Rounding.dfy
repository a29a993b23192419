/** Python's `round` over exact reals. */
module Rounding {

  /** `round(x)`: to the nearest integer, ties to the even one. */
  function Round(x: real): int {
    var f := x.Floor;
    if x - f as real < 0.5 then f
    else if x - f as real > 0.5 then f + 1
    else if f % 2 == 0 then f else f + 1
  }

  /** Rounding to a multiple of 1 / scale: `round(x, 6)` has scale 1,000,000. */
  function RoundTo(x: real, scale: real): real
    requires scale > 0.0
  {
    Round(x * scale) as real / scale
  }

  /** The nearest integer, the even one of two. */
  lemma RoundExactly(x: real, n: int)
    ensures n == Round(x)
            <==> -0.5 < x - n as real < 0.5 || ((x - n as real == 0.5 || x - n as real == -0.5) && n % 2 == 0)
  {
    var f := x.Floor;
    if x - f as real == 0.5 {
      assert (f + 1) % 2 == 0 <==> f % 2 != 0;
    }
  }

  /** Rounded to a multiple of 1 / scale, a number moves by at most half of that. */
  lemma RoundedNearby(x: real, scale: real) returns (n: int)
    requires scale > 0.0
    ensures RoundTo(x, scale) * scale == n as real && -0.5 <= x * scale - n as real <= 0.5
  {
    n := Round(x * scale);
    RoundExactly(x * scale, n);
    hide Round;
  }

  lemma RoundOfInteger(n: int)
    ensures Round(n as real) == n
  {}

  lemma RoundIsMonotone(x: real, y: real)
    requires x <= y
    ensures Round(x) <= Round(y)
  {}

  /** A fraction stays one when it is rounded to a multiple of 1 / n. */
  lemma RoundedFraction(x: real, n: nat, scale: real)
    requires 0.0 <= x <= 1.0 && n >= 1 && scale == n as real
    ensures 0.0 <= RoundTo(x, scale) <= 1.0
  {
    hide *;
    FractionScaled(x, scale);
    RoundStaysInside(x * scale, n);
    RoundToIs(x, scale, Round(x * scale));
    QuotientInside(Round(x * scale) as real, scale);
  }

  lemma RoundToIs(x: real, scale: real, rounded: int)
    requires scale > 0.0 && rounded == Round(x * scale)
    ensures RoundTo(x, scale) == rounded as real / scale
  {
    hide Round;
  }

  lemma QuotientInside(x: real, y: real)
    requires y > 0.0 && 0.0 <= x <= y
    ensures 0.0 <= x / y <= 1.0
  {}

  lemma FractionScaled(x: real, scale: real)
    requires 0.0 <= x <= 1.0 && scale > 0.0
    ensures 0.0 <= x * scale <= scale
  {
    assert (1.0 - x) * scale >= 0.0;
  }

  lemma RoundStaysInside(x: real, n: nat)
    requires 0.0 <= x <= n as real
    ensures 0 <= Round(x) <= n
  {
    RoundOfInteger(0);
    RoundOfInteger(n);
    RoundIsMonotone(0.0, x);
    RoundIsMonotone(x, n as real);
  }
}
