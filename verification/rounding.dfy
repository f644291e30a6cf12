/** Python's `round`, taken on exact reals: `round(x)` is the nearest integer,
    ties going to the even neighbour, and `round(x, 2)` does the same at the
    hundredths. */
module Rounding {

  /** `round(x)`: the integer nearest `x`, the even one of two equally near. */
  function RoundHalfEven(x: real): (n: int)
    ensures x - 0.5 <= n as real <= x + 0.5
    ensures n as real == x - 0.5 || n as real == x + 0.5 ==> n % 2 == 0
  {
    var f := x.Floor;
    var frac := x - f as real;
    if frac < 0.5 then f
    else if frac > 0.5 then f + 1
    else if f % 2 == 0 then f
    else f + 1
  }

  /** The nearest-integer, ties-to-even description has one solution, so it
      pins `round` down completely. */
  lemma RoundHalfEvenUnique(x: real, n: int)
    requires x - 0.5 <= n as real <= x + 0.5
    requires n as real == x - 0.5 || n as real == x + 0.5 ==> n % 2 == 0
    ensures n == RoundHalfEven(x)
  {
  }

  /** Rounding leaves an integer alone. */
  lemma RoundInteger(n: int)
    ensures RoundHalfEven(n as real) == n
  {
    RoundHalfEvenUnique(n as real, n);
  }

  /** `r` is a whole number of hundredths. */
  predicate WholeCents(r: real) {
    (r * 100.0).Floor as real == r * 100.0
  }

  /** `round(x, 2)`: the whole number of hundredths nearest `x`, the one with
      an even count of hundredths of two equally near. */
  function RoundCents(x: real): (r: real)
    ensures WholeCents(r)
    ensures x - 0.005 <= r <= x + 0.005
    ensures r == x - 0.005 || r == x + 0.005 ==> (r * 100.0).Floor % 2 == 0
  {
    var n := RoundHalfEven(x * 100.0);
    CentsOf(n);
    n as real / 100.0
  }

  /** `n` hundredths, scaled back by a hundred, are `n` again. */
  lemma CentsOf(n: int)
    ensures n as real / 100.0 * 100.0 == n as real
    ensures (n as real / 100.0 * 100.0).Floor == n
  {
  }

  /** The nearest-hundredth, ties-to-even description has one solution, so it
      pins `round(x, 2)` down completely. */
  lemma RoundCentsUnique(x: real, r: real)
    requires WholeCents(r)
    requires x - 0.005 <= r <= x + 0.005
    requires r == x - 0.005 || r == x + 0.005 ==> (r * 100.0).Floor % 2 == 0
    ensures r == RoundCents(x)
  {
    var n := (r * 100.0).Floor;
    assert n as real == r * 100.0;
    RoundHalfEvenUnique(x * 100.0, n);
  }

  /** A value already in whole hundredths is left alone, so `round(x, 2)` is
      idempotent. */
  lemma RoundCentsOfCents(y: real)
    requires WholeCents(y)
    ensures RoundCents(y) == y
  {
    RoundCentsUnique(y, y);
  }

  lemma RoundCentsIdempotent(x: real)
    ensures RoundCents(RoundCents(x)) == RoundCents(x)
  {
    RoundCentsOfCents(RoundCents(x));
  }

  /** Whole hundredths add up to whole hundredths. */
  lemma WholeCentsAdd(a: real, b: real)
    requires WholeCents(a) && WholeCents(b)
    ensures WholeCents(a + b)
  {
    var m := (a * 100.0).Floor;
    var n := (b * 100.0).Floor;
    assert (a + b) * 100.0 == (m + n) as real;
  }
}
