/** `TimeTicks`: a signed duration counted in 100 ns ticks, stored as one
    `long`. Construction never validates; arithmetic is `checked`. */
module Durations {
  import opened TimeResults
  import opened MachineInts
  import opened TickUnits

  datatype TimeTicks = TimeTicks(value: int64)

  const Zero: TimeTicks := TimeTicks(0)
  const MinValue: TimeTicks := TimeTicks(Int64Min)
  const MaxValue: TimeTicks := TimeTicks(Int64Max)

  /** `FromTicks(long)`: wraps any tick count unchanged. */
  function FromTicks(ticks: int64): (r: TimeTicks)
    ensures r.value == ticks
  {
    TimeTicks(ticks)
  }

  /** `FromSeconds(seconds)`: the truncated tick count, with no range check. */
  function FromSeconds(seconds: real): (r: TimeTicks)
    requires InInt64(SecondsToTicks(seconds))
    ensures 0.0 <= seconds ==> 0 <= r.value && r.value as real <= seconds * TicksPerSecond as real < r.value as real + 1.0
    ensures seconds < 0.0 ==> r.value <= 0 && r.value as real - 1.0 < seconds * TicksPerSecond as real <= r.value as real
  {
    TimeTicks(SecondsToTicks(seconds))
  }

  // Comparison

  function CompareTo(a: TimeTicks, b: TimeTicks): (r: int)
    ensures -1 <= r <= 1
    ensures r == -Compare(b.value, a.value)
  {
    Compare(a.value, b.value)
  }

  /** `Equals` and `==`: exact equality of the tick counts. */
  function Equals(a: TimeTicks, b: TimeTicks): (r: bool)
    ensures r <==> a == b
    ensures r <==> CompareTo(a, b) == 0
  {
    a.value == b.value
  }

  function NotEquals(a: TimeTicks, b: TimeTicks): (r: bool)
    ensures r <==> a != b
    ensures r <==> CompareTo(a, b) != 0
  {
    !Equals(a, b)
  }

  function Less(a: TimeTicks, b: TimeTicks): (r: bool)
    ensures r <==> CompareTo(a, b) < 0
  {
    a.value < b.value
  }

  function Greater(a: TimeTicks, b: TimeTicks): (r: bool)
    ensures r <==> CompareTo(a, b) > 0
    ensures r <==> Less(b, a)
  {
    a.value > b.value
  }

  function LessOrEqual(a: TimeTicks, b: TimeTicks): (r: bool)
    ensures r <==> CompareTo(a, b) <= 0
    ensures r <==> !Greater(a, b)
  {
    a.value <= b.value
  }

  function GreaterOrEqual(a: TimeTicks, b: TimeTicks): (r: bool)
    ensures r <==> CompareTo(a, b) >= 0
    ensures r <==> !Less(a, b)
  {
    a.value >= b.value
  }

  /** Exactly one of `<`, `==`, `>` holds for any pair. */
  lemma Trichotomy(a: TimeTicks, b: TimeTicks)
    ensures Less(a, b) || Equals(a, b) || Greater(a, b)
    ensures !(Less(a, b) && Equals(a, b))
    ensures !(Less(a, b) && Greater(a, b))
    ensures !(Equals(a, b) && Greater(a, b))
  {
  }

  lemma LessTransitive(a: TimeTicks, b: TimeTicks, c: TimeTicks)
    requires Less(a, b) && Less(b, c)
    ensures Less(a, c)
  {
  }

  // Arithmetic

  /** Unary `-`: fails only on `MinValue`, whose negation is not a `long`. */
  function Negate(a: TimeTicks): (r: Result<TimeTicks>)
    ensures r.Ok? <==> a != MinValue
    ensures r.Ok? ==> r.value.value == -a.value
    ensures r.Err? ==> r.error == Overflow
  {
    var v :- CheckedNegate(a.value);
    Ok(TimeTicks(v))
  }

  /** Unary `+`. */
  function Plus(a: TimeTicks): (r: TimeTicks)
    ensures r.value == a.value
  {
    a
  }

  function Subtract(a: TimeTicks, b: TimeTicks): (r: Result<TimeTicks>)
    ensures r.Ok? <==> InInt64(a.value - b.value)
    ensures r.Ok? ==> r.value.value == a.value - b.value
    ensures r.Err? ==> r.error == Overflow
  {
    var v :- CheckedSubtract(a.value, b.value);
    Ok(TimeTicks(v))
  }

  function SubtractLong(a: TimeTicks, b: int64): (r: Result<TimeTicks>)
    ensures r.Ok? <==> InInt64(a.value - b)
    ensures r.Ok? ==> r.value.value == a.value - b
    ensures r.Err? ==> r.error == Overflow
  {
    var v :- CheckedSubtract(a.value, b);
    Ok(TimeTicks(v))
  }

  function LongSubtract(a: int64, b: TimeTicks): (r: Result<TimeTicks>)
    ensures r.Ok? <==> InInt64(a - b.value)
    ensures r.Ok? ==> r.value.value == a - b.value
    ensures r.Err? ==> r.error == Overflow
  {
    var v :- CheckedSubtract(a, b.value);
    Ok(TimeTicks(v))
  }

  function Add(a: TimeTicks, b: TimeTicks): (r: Result<TimeTicks>)
    ensures r.Ok? <==> InInt64(a.value + b.value)
    ensures r.Ok? ==> r.value.value == a.value + b.value
    ensures r.Err? ==> r.error == Overflow
  {
    var v :- CheckedAdd(a.value, b.value);
    Ok(TimeTicks(v))
  }

  function AddLong(a: TimeTicks, b: int64): (r: Result<TimeTicks>)
    ensures r.Ok? <==> InInt64(a.value + b)
    ensures r.Ok? ==> r.value.value == a.value + b
    ensures r.Err? ==> r.error == Overflow
  {
    var v :- CheckedAdd(a.value, b);
    Ok(TimeTicks(v))
  }

  function LongAdd(a: int64, b: TimeTicks): (r: Result<TimeTicks>)
    ensures r.Ok? <==> InInt64(a + b.value)
    ensures r.Ok? ==> r.value.value == a + b.value
    ensures r.Err? ==> r.error == Overflow
  {
    var v :- CheckedAdd(a, b.value);
    Ok(TimeTicks(v))
  }

  // Relations between the operations

  /** Subtracting what was added gives back the original duration. */
  lemma AddThenSubtract(a: TimeTicks, b: TimeTicks)
    requires Add(a, b).Ok?
    ensures Subtract(Add(a, b).value, b) == Ok(a)
  {
  }

  /** Negation is an involution wherever it succeeds. */
  lemma NegateTwice(a: TimeTicks)
    requires Negate(a).Ok?
    ensures Negate(Negate(a).value) == Ok(a)
  {
  }

  lemma AddCommutes(a: TimeTicks, b: TimeTicks)
    ensures Add(a, b) == Add(b, a)
  {
  }

  /** The `long` operand forms behave as if the `long` were first wrapped by `FromTicks`. */
  lemma MixedFormsAgree(a: TimeTicks, n: int64)
    ensures AddLong(a, n) == Add(a, FromTicks(n))
    ensures LongAdd(n, a) == Add(FromTicks(n), a)
    ensures SubtractLong(a, n) == Subtract(a, FromTicks(n))
    ensures LongSubtract(n, a) == Subtract(FromTicks(n), a)
  {
  }

  /** Subtraction is adding the negation, except that `a - MinValue` can
      succeed where `-MinValue` already overflows. */
  lemma SubtractIsAddNegated(a: TimeTicks, b: TimeTicks)
    ensures Negate(b).Ok? ==> Subtract(a, b) == Add(a, Negate(b).value)
    ensures Subtract(FromTicks(-1), MinValue) == Ok(MaxValue)
    ensures Negate(MinValue) == Err(Overflow)
  {
  }

  /** The largest duration plus one tick raises an overflow instead of wrapping to `MinValue`. */
  lemma MaxValuePlusOneOverflows()
    ensures Add(MaxValue, FromTicks(1)) == Err(Overflow)
    ensures AddLong(MaxValue, 1) == Err(Overflow)
    ensures SubtractLong(MinValue, 1) == Err(Overflow)
  {
  }

  /** One ten-millionth of a second is exactly one tick. */
  lemma FromSecondsOneTick()
    ensures FromSeconds(0.0000001) == FromTicks(1)
  {
  }

  /** Converting a whole number of ticks to seconds and back loses nothing. */
  lemma FromSecondsOfWholeTicks(t: int64)
    ensures InInt64(SecondsToTicks(t as real / TicksPerSecond as real))
    ensures FromSeconds(t as real / TicksPerSecond as real) == FromTicks(t)
  {
    SecondsOfWholeTicks(t);
  }
}
