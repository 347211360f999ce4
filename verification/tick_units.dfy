/** The tick unit shared by both time types and the seconds-to-ticks
    conversion. Seconds are modelled as exact reals; the `(long)` cast of
    the product is truncation toward zero. */
module TickUnits {

  /** One tick is 100 nanoseconds (the host's `TimeSpan.TicksPerSecond`). */
  const TicksPerSecond: int := 10_000_000

  /** Truncation toward zero, the rounding of a floating-point to integer cast. */
  function Trunc(x: real): (r: int)
    ensures 0.0 <= x ==> r as real <= x < r as real + 1.0
    ensures x < 0.0 ==> r as real - 1.0 < x <= r as real
  {
    if x < 0.0 then -((-x).Floor) else x.Floor
  }

  /** `(long)(seconds * TicksPerSecond)` before any range concern. */
  function SecondsToTicks(seconds: real): int {
    Trunc(seconds * TicksPerSecond as real)
  }

  /** Truncation toward zero is symmetric about zero, unlike `Floor`. */
  lemma TruncOdd(x: real)
    ensures Trunc(-x) == -Trunc(x)
  {
  }

  /** Whole numbers are left alone. */
  lemma TruncOfInteger(n: int)
    ensures Trunc(n as real) == n
  {
  }

  lemma TruncMonotonic(x: real, y: real)
    requires x <= y
    ensures Trunc(x) <= Trunc(y)
  {
  }

  /** A whole number of ticks expressed in seconds converts back exactly. */
  lemma SecondsOfWholeTicks(t: int)
    ensures SecondsToTicks(t as real / TicksPerSecond as real) == t
  {
    assert (t as real / TicksPerSecond as real) * TicksPerSecond as real == t as real;
    TruncOfInteger(t);
  }
}
