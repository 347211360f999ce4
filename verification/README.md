# UGF.Time value types in Dafny

This project models the two 64-bit value types at the heart of the UGF.Time
package and proves their behaviour over mathematical integers.

- `TimeTicks` (module `Durations`) is a signed duration counted in 100 ns
  ticks and stored as one `long`. Construction never validates. Equality and
  ordering follow the signed value. `+`, `-` and unary `-` are `checked`: they
  raise an overflow instead of wrapping.
- `TimeDate` (module `Dates`) is an absolute instant stored as a raw `ulong`.
  Only the low 62 bits (`k_ticksMask`) hold the tick count; the top two bits
  are carried but never read. The raw constructor accepts anything. The `long`
  constructor and `FromSeconds` reject tick counts outside `[0, MaxTicks]`.
  Equality and `CompareTo` use the raw unsigned value, not the masked ticks.

Supporting modules:
- `TimeResults`: the `Result` type and the two exceptions. `Overflow` is the
  `OverflowException` of a `checked` expression. `InvalidTicks(BelowMinTicks |
  AboveMaxTicks)` stands for the two `ArgumentException`s of the checked date
  constructor.
- `MachineInts`: `long`/`ulong` as bounded `int`s. It models `checked(a + b)`
  and `checked(a - b)` the way the runtime evaluates them: a two's-complement
  wrapped result plus the sign test for overflow. Their contracts prove that
  this is the language's definition (success exactly when the exact result is
  a `long`, and then equal to it). It also holds the reinterpreting casts
  `(ulong)` and `(long)` and `CompareTo` (-1, 0 or 1).
- `Bitwise`: bitwise AND defined bit by bit, with the proof that masking with
  `2^n - 1` is the remainder modulo `2^n`. `TimeDate.Ticks` is defined through
  this AND, so `Ticks == Value mod 2^62` is proved rather than assumed.
- `TickUnits`: `TicksPerSecond = 10_000_000` and truncation toward zero.
  Seconds are exact `real`s. The float-to-`long` cast is `Trunc`.
- `SecondsAgreement`: relates the two `FromSeconds` conversions.

The datatype constructors `Durations.TimeTicks(value)` and
`Dates.TimeDate(value)` play the part of the structs' stored fields
(`m_value`); `Value` is the datatype field `value`.

Behaviour the model records on purpose:
- `Dates.FromRaw` accepts raw values whose `Ticks` exceed `MaxTicks`, up to
  `2^62 - 1` (`Dates.RawTicksExceedMaxTicks`).
- Two raw values that differ only in the top two bits have equal `Ticks` but
  are unequal dates (`Dates.ReservedBitsOnlyAffectEquality`).
- `TimeDate.FromSeconds` never tests the sign of `seconds`. It checks only the
  truncated tick count, so `-0.00000005` seconds truncates to 0 ticks and
  yields `MinValue` (`Dates.FromSecondsChecksTicksNotSign`).

## Model

| member | source | states |
|---|---|---|
| MachineInts.CheckedAdd | Packages/UGF.Time/Runtime/TimeTicks.cs:164-177 | the wrapped sum with the sign test for overflow succeeds exactly when the exact sum is within the `long` range, and then equals that sum; otherwise it is an overflow error |
| MachineInts.CheckedSubtract | Packages/UGF.Time/Runtime/TimeTicks.cs:144-157 | the wrapped difference with the sign test succeeds exactly when the exact difference is a `long`, and then equals it; otherwise it is an overflow error |
| MachineInts.CheckedNegate | Packages/UGF.Time/Runtime/TimeTicks.cs:139-142 | checked negation fails exactly on `long.MinValue` and otherwise yields the negated value |
| MachineInts.ToUInt64 | Packages/UGF.Time/Runtime/TimeDate.cs:46 | the `(ulong)` cast keeps non-negative values and adds 2^64 to negative ones |
| MachineInts.ToInt64 | Packages/UGF.Time/Runtime/TimeDate.cs:13 | the `(long)` cast keeps values up to `long.MaxValue` and subtracts 2^64 from larger ones |
| MachineInts.CastsRoundTrip | Packages/UGF.Time/Runtime/TimeDate.cs:46 | the `(ulong)` and `(long)` casts are inverse to each other on all inputs |
| MachineInts.Compare | Packages/UGF.Time/Runtime/TimeTicks.cs:86-89 | `CompareTo` on integers yields -1, 0 or 1 exactly when the first operand is below, equal to or above the second |
| MachineInts.CompareAntisymmetric | Packages/UGF.Time/Runtime/TimeDate.cs:64-67 | swapping the operands of `CompareTo` negates its result |
| Bitwise.And | Packages/UGF.Time/Runtime/TimeDate.cs:13 | the bitwise AND of the low `width` bits never exceeds the mask operand, so masked ticks stay within the mask |
| Bitwise.AndLowOnes | Packages/UGF.Time/Runtime/TimeDate.cs:26 | AND with a mask of n low one-bits equals the remainder modulo 2^n |
| TickUnits.Trunc | Packages/UGF.Time/Runtime/TimeTicks.cs:106 | the float-to-`long` cast yields the integer within one of its argument on the side of zero |
| TickUnits.TruncOdd | Packages/UGF.Time/Runtime/TimeTicks.cs:106 | the cast truncates toward zero: negating the argument negates the result |
| TickUnits.TruncMonotonic | Packages/UGF.Time/Runtime/TimeTicks.cs:106 | the cast preserves order |
| Durations.FromTicks | Packages/UGF.Time/Runtime/TimeTicks.cs:95-98 | any `long` tick count is wrapped unchanged, with no validation |
| Durations.FromSeconds | Packages/UGF.Time/Runtime/TimeTicks.cs:104-107 | the tick count is within one tick of `seconds * 10_000_000`, on the side of zero, with the sign of `seconds` |
| Durations.CompareTo | Packages/UGF.Time/Runtime/TimeTicks.cs:86-89 | yields -1, 0 or 1, and swapping operands negates it |
| Durations.Equals | Packages/UGF.Time/Runtime/TimeTicks.cs:71-74 | two durations are equal exactly when they are the same value, exactly when `CompareTo` is 0 |
| Durations.NotEquals | Packages/UGF.Time/Runtime/TimeTicks.cs:114-117 | `!=` holds exactly when the values differ, exactly when `CompareTo` is non-zero |
| Durations.Less | Packages/UGF.Time/Runtime/TimeTicks.cs:119-122 | `<` agrees with a negative `CompareTo` |
| Durations.Greater | Packages/UGF.Time/Runtime/TimeTicks.cs:124-127 | `>` agrees with a positive `CompareTo` and is `<` with the operands swapped |
| Durations.LessOrEqual | Packages/UGF.Time/Runtime/TimeTicks.cs:129-132 | `<=` agrees with a non-positive `CompareTo` and is the negation of `>` |
| Durations.GreaterOrEqual | Packages/UGF.Time/Runtime/TimeTicks.cs:134-137 | `>=` agrees with a non-negative `CompareTo` and is the negation of `<` |
| Durations.Trichotomy | Packages/UGF.Time/Runtime/TimeTicks.cs:109-127 | exactly one of `<`, `==`, `>` holds for any pair |
| Durations.LessTransitive | Packages/UGF.Time/Runtime/TimeTicks.cs:119-122 | `<` is transitive |
| Durations.Negate | Packages/UGF.Time/Runtime/TimeTicks.cs:139-142 | unary `-` fails with overflow exactly on `MinValue` and otherwise yields the negated tick count |
| Durations.Plus | Packages/UGF.Time/Runtime/TimeTicks.cs:159-162 | unary `+` keeps the tick count |
| Durations.Subtract | Packages/UGF.Time/Runtime/TimeTicks.cs:144-147 | succeeds exactly when the exact difference is a `long`, then equals it; otherwise overflow |
| Durations.SubtractLong | Packages/UGF.Time/Runtime/TimeTicks.cs:149-152 | the same for a `long` right operand |
| Durations.LongSubtract | Packages/UGF.Time/Runtime/TimeTicks.cs:154-157 | the same for a `long` left operand |
| Durations.Add | Packages/UGF.Time/Runtime/TimeTicks.cs:164-167 | succeeds exactly when the exact sum is a `long`, then equals it; otherwise overflow, never a wrapped value |
| Durations.AddLong | Packages/UGF.Time/Runtime/TimeTicks.cs:169-172 | the same for a `long` right operand |
| Durations.LongAdd | Packages/UGF.Time/Runtime/TimeTicks.cs:174-177 | the same for a `long` left operand |
| Durations.AddThenSubtract | Packages/UGF.Time/Runtime/TimeTicks.cs:144-167 | when `a + b` does not overflow, `(a + b) - b` succeeds and gives back `a` |
| Durations.NegateTwice | Packages/UGF.Time/Runtime/TimeTicks.cs:139-142 | when `-a` succeeds, `-(-a)` succeeds and is `a` |
| Durations.AddCommutes | Packages/UGF.Time/Runtime/TimeTicks.cs:164-167 | `a + b` and `b + a` give the same result or the same error |
| Durations.MixedFormsAgree | Packages/UGF.Time/Runtime/TimeTicks.cs:149-177 | each `long` operand form equals the `TimeTicks` form with the `long` wrapped by `FromTicks` |
| Durations.SubtractIsAddNegated | Packages/UGF.Time/Runtime/TimeTicks.cs:139-147 | `a - b` equals `a + (-b)` whenever `-b` succeeds, while `-1 - MinValue` succeeds although `-MinValue` overflows |
| Durations.MaxValuePlusOneOverflows | Packages/UGF.Time/Runtime/TimeTicks.cs:164-172 | `MaxValue + 1` and `MinValue - 1` raise overflow rather than wrap |
| Durations.FromSecondsOneTick | Assets/UGF.Time.Runtime.Tests/TestTimeTicks.cs:17-23 | 0.0000001 seconds is exactly one tick |
| Durations.FromSecondsOfWholeTicks | Packages/UGF.Time/Runtime/TimeTicks.cs:104-107 | a whole number of ticks written as seconds converts back to the same ticks |
| Dates.MaskIsLowOnes | Packages/UGF.Time/Runtime/TimeDate.cs:26 | the mask `0x3FFFFFFFFFFFFFFF` is 2^62 - 1, the 62 low one-bits |
| Dates.Ticks | Packages/UGF.Time/Runtime/TimeDate.cs:13 | `Ticks` is the raw value modulo 2^62, so it lies in `[0, 2^62 - 1]` |
| Dates.FromRaw | Packages/UGF.Time/Runtime/TimeDate.cs:36-39 | the raw constructor stores any `ulong` unchanged; below 2^62 it is also the tick count |
| Dates.FromTicks | Packages/UGF.Time/Runtime/TimeDate.cs:41-47 | the `long` constructor succeeds exactly for `0 <= ticks <= MaxTicks`, storing `ticks` as both raw value and tick count; below zero and above `MaxTicks` it raises the matching argument error |
| Dates.FromSeconds | Packages/UGF.Time/Runtime/TimeDate.cs:69-72 | succeeds exactly when the truncated tick count is in `[0, MaxTicks]`; for non-negative `seconds` the ticks are `seconds * 10_000_000` rounded down, and a negative `seconds` is accepted only when it lies within one tick of zero, giving 0 ticks; the stored raw value is the tick count, with the reserved bits clear; a truncated count below zero or above `MaxTicks` raises the matching argument error |
| Dates.CompareTo | Packages/UGF.Time/Runtime/TimeDate.cs:64-67 | yields -1, 0 or 1 on the raw unsigned values, and swapping operands negates it; dates that compare equal have equal ticks |
| Dates.Equals | Packages/UGF.Time/Runtime/TimeDate.cs:49-52 | equal exactly when the raw values are equal, exactly when `CompareTo` is 0; equal dates have equal ticks |
| Dates.NotEquals | Packages/UGF.Time/Runtime/TimeDate.cs:79-82 | `!=` holds exactly when the raw values differ, exactly when `CompareTo` is non-zero |
| Dates.MinMaxValueTicks | Packages/UGF.Time/Runtime/TimeDate.cs:20-26 | `MinValue` has raw value and ticks 0, `MaxValue` has raw value and ticks `MaxTicks`, and `MaxTicks` is below the mask |
| Dates.CheckedDatesInRange | Packages/UGF.Time/Runtime/TimeDate.cs:20-24 | every date the checked constructor accepts satisfies `MinValue <= d <= MaxValue` under `CompareTo` |
| Dates.RawTicksExceedMaxTicks | Packages/UGF.Time/Runtime/TimeDate.cs:36-39 | a raw value can carry ticks above `MaxTicks`, and such a date compares above `MaxValue` |
| Dates.ReservedBitsOnlyAffectEquality | Packages/UGF.Time/Runtime/TimeDate.cs:49-52 | raw values differing only in the top two bits have the same ticks and are equal dates only when the top bits agree |
| Dates.FromSecondsOneTick | Assets/UGF.Time.Runtime.Tests/TestTimeDate.cs:17-23 | 0.0000001 seconds gives the date one tick after the epoch |
| Dates.FromSecondsChecksTicksNotSign | Packages/UGF.Time/Runtime/TimeDate.cs:69-72 | -0.00000005 seconds yields `MinValue`, while -0.0000001 seconds fails as below `MinTicks` |
| SecondsAgreement.DateFromSecondsIsCheckedDuration | Packages/UGF.Time/Runtime/TimeDate.cs:69-72 | the date conversion is the checked constructor applied to the duration conversion's tick count |
| SecondsAgreement.DateFromSecondsOfWholeTicks | Packages/UGF.Time/Runtime/TimeDate.cs:69-72 | a whole number of ticks written as seconds reaches the same result as the checked tick constructor |

## Left out

- `TotalSeconds` of both types and `SecondsPerTick`: float32 products and their rounding are not modelled.
- Float32 rounding of the `seconds` argument: seconds are exact reals, so the model's `0.0000001` is exact where the float literal is not.
- Durations.FromSeconds: requires the truncated tick count to be a `long`, because C# leaves the result of casting an out-of-range float to `long` unspecified.
- Dates.FromSeconds: requires the truncated tick count to be a `long`, for the same reason.
- The implicit conversions to and from `TimeSpan` and `DateTime`, the `AsTimeSpan` and `AsDateTime` properties that use them, and the `Converter` overlays: they reinterpret memory of host types, which are not part of this model.
- `TimeDate.Now` and `UtcNow`: they read the system clock.
- `ToString` and `GetHashCode`: host formatting and hashing.
- `Equals(object)`: the boxed-type test is host runtime behaviour; the typed `Equals` it delegates to is modelled.
- The editor drawers, `ITime`, `TimeUnity` and the test scriptable object: editor UI and an engine clock pass-through.
- The .NET implementations of `Int64.CompareTo` and `UInt64.CompareTo` are not part of this model; they are modelled as returning -1, 0 or 1.
