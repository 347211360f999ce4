/** `TimeDate`: an absolute instant stored as one raw `ulong`. The low 62
    bits hold the tick count; the top two bits are carried along and never
    read, yet they take part in equality and ordering. */
module Dates {
  import opened TimeResults
  import opened MachineInts
  import opened Bitwise
  import opened TickUnits

  const MinTicks: int64 := 0
  const MaxTicks: int64 := 3155378975999999999
  const TicksMask: uint64 := 0x3FFF_FFFF_FFFF_FFFF
  /** `TicksMask + 1`: the weight of the lower reserved bit. */
  const TicksModulus: nat := 0x4000_0000_0000_0000

  datatype TimeDate = TimeDate(value: uint64)

  lemma MaskIsLowOnes()
    ensures Pow2(62) == TicksModulus
    ensures TicksMask == Pow2(62) - 1
  {
    assert Pow2(10) == 0x400;
    Pow2Add(10, 10);
    Pow2Add(20, 20);
    Pow2Add(40, 10);
    Pow2Add(50, 10);
    assert Pow2(2) == 4;
    Pow2Add(60, 2);
  }

  /** `Ticks`: `(long)(value & TicksMask)`, which is the raw value modulo 2^62. */
  function Ticks(d: TimeDate): (r: int64)
    ensures 0 <= r <= TicksMask
    ensures r == d.value % TicksModulus
  {
    MaskIsLowOnes();
    AndLowOnes(d.value, 62, 64);
    ToInt64(And(d.value, TicksMask, 64))
  }

  /** `new TimeDate(ulong)`: accepts every raw value as is. */
  function FromRaw(raw: uint64): (d: TimeDate)
    ensures d.value == raw
    ensures raw <= TicksMask ==> Ticks(d) == raw
  {
    RemainderOfSmall(raw, TicksModulus);
    TimeDate(raw)
  }

  /** `new TimeDate(long)`: rejects tick counts outside `[MinTicks, MaxTicks]`
      and otherwise stores the count as the raw value. */
  function FromTicks(ticks: int64): (r: Result<TimeDate>)
    ensures r.Ok? <==> MinTicks <= ticks <= MaxTicks
    ensures r.Ok? ==> r.value.value == ticks && Ticks(r.value) == ticks
    ensures ticks < MinTicks ==> r == Err(InvalidTicks(BelowMinTicks))
    ensures MaxTicks < ticks ==> r == Err(InvalidTicks(AboveMaxTicks))
  {
    if ticks < MinTicks then Err(InvalidTicks(BelowMinTicks))
    else if ticks > MaxTicks then Err(InvalidTicks(AboveMaxTicks))
    else Ok(TimeDate(ToUInt64(ticks)))
  }

  const MinValue: TimeDate := FromTicks(MinTicks).value
  const MaxValue: TimeDate := FromTicks(MaxTicks).value

  /** `FromSeconds(seconds)`: the checked constructor applied to the
      truncated tick count. The sign of `seconds` itself is not checked. */
  function FromSeconds(seconds: real): (r: Result<TimeDate>)
    requires InInt64(SecondsToTicks(seconds))
    ensures r.Ok? <==> 0 <= SecondsToTicks(seconds) <= MaxTicks
    ensures r.Ok? ==> -1.0 < seconds * TicksPerSecond as real
    ensures r.Ok? && 0.0 <= seconds ==>
              Ticks(r.value) as real <= seconds * TicksPerSecond as real < Ticks(r.value) as real + 1.0
    ensures r.Ok? && seconds < 0.0 ==> Ticks(r.value) == 0
    ensures r.Ok? ==> r.value.value == Ticks(r.value)
    ensures SecondsToTicks(seconds) < MinTicks ==> r == Err(InvalidTicks(BelowMinTicks))
    ensures MaxTicks < SecondsToTicks(seconds) ==> r == Err(InvalidTicks(AboveMaxTicks))
  {
    FromTicks(SecondsToTicks(seconds))
  }

  // Comparison, on the raw unsigned value

  function CompareTo(a: TimeDate, b: TimeDate): (r: int)
    ensures -1 <= r <= 1
    ensures r == -Compare(b.value, a.value)
    ensures r == 0 ==> Ticks(a) == Ticks(b)
  {
    Compare(a.value, b.value)
  }

  /** `Equals` and `==`: equality of the raw values, reserved bits included. */
  function Equals(a: TimeDate, b: TimeDate): (r: bool)
    ensures r <==> a == b
    ensures r <==> CompareTo(a, b) == 0
    ensures r ==> Ticks(a) == Ticks(b)
  {
    a.value == b.value
  }

  function NotEquals(a: TimeDate, b: TimeDate): (r: bool)
    ensures r <==> a != b
    ensures r <==> CompareTo(a, b) != 0
  {
    !Equals(a, b)
  }

  // Properties

  lemma MinMaxValueTicks()
    ensures Ticks(MinValue) == MinTicks && MinValue.value == 0
    ensures Ticks(MaxValue) == MaxTicks && MaxValue.value == MaxTicks
    ensures MaxTicks < TicksMask
  {
  }

  /** Every date the checked constructor accepts lies between `MinValue` and `MaxValue`. */
  lemma CheckedDatesInRange(ticks: int64)
    requires FromTicks(ticks).Ok?
    ensures CompareTo(MinValue, FromTicks(ticks).value) <= 0
    ensures CompareTo(FromTicks(ticks).value, MaxValue) <= 0
  {
  }

  /** The raw constructor is not bounded by `MaxTicks`: the all-ones mask
      gives the largest tick count, above `MaxValue`. */
  lemma RawTicksExceedMaxTicks()
    ensures Ticks(FromRaw(TicksMask)) == TicksMask
    ensures Ticks(FromRaw(TicksMask)) > MaxTicks
    ensures CompareTo(FromRaw(TicksMask), MaxValue) == 1
  {
  }

  /** The reserved top bits never reach `Ticks` but always reach equality:
      raw values that differ only there have equal ticks and are unequal dates. */
  lemma ReservedBitsOnlyAffectEquality(low: nat, high1: nat, high2: nat)
    requires low <= TicksMask && high1 < 4 && high2 < 4
    ensures high1 * TicksModulus + low <= UInt64Max && high2 * TicksModulus + low <= UInt64Max
    ensures Ticks(FromRaw(high1 * TicksModulus + low)) == low
    ensures Ticks(FromRaw(high1 * TicksModulus + low)) == Ticks(FromRaw(high2 * TicksModulus + low))
    ensures Equals(FromRaw(high1 * TicksModulus + low), FromRaw(high2 * TicksModulus + low)) <==> high1 == high2
  {
    ModUnique(high1 * TicksModulus + low, TicksModulus, high1, low);
    ModUnique(high2 * TicksModulus + low, TicksModulus, high2, low);
  }

  /** One ten-millionth of a second is one tick after the epoch. */
  lemma FromSecondsOneTick()
    ensures FromSeconds(0.0000001) == FromTicks(1)
    ensures Ticks(FromSeconds(0.0000001).value) == 1
  {
    assert 0.0000001 * TicksPerSecond as real == 1.0;
    TruncOfInteger(1);
  }

  /** A negative number of seconds is accepted when it truncates to zero ticks,
      and rejected as below `MinTicks` once it reaches a whole negative tick. */
  lemma FromSecondsChecksTicksNotSign()
    ensures FromSeconds(-0.00000005) == Ok(MinValue)
    ensures FromSeconds(-0.0000001) == Err(InvalidTicks(BelowMinTicks))
  {
  }
}
