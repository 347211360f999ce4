/** The 64-bit integers of the host language over Dafny's unbounded `int`:
    ranges, two's-complement wrap-around, `checked` arithmetic, the
    reinterpreting casts between `long` and `ulong`, and `CompareTo`. */
module MachineInts {
  import opened TimeResults

  const Int64Min: int := -0x8000_0000_0000_0000
  const Int64Max: int := 0x7FFF_FFFF_FFFF_FFFF
  const UInt64Max: int := 0xFFFF_FFFF_FFFF_FFFF
  const TwoTo64: int := 0x1_0000_0000_0000_0000

  /** `long` */
  type int64 = x: int | Int64Min <= x <= Int64Max
  /** `ulong` */
  type uint64 = x: int | 0 <= x <= UInt64Max

  predicate InInt64(x: int) {
    Int64Min <= x <= Int64Max
  }

  /** The 64-bit two's-complement residue of `x`: what unchecked `long`
      arithmetic leaves in the register. */
  function Wrap(x: int): (r: int64)
    ensures InInt64(x) ==> r == x
    ensures Int64Max < x < Int64Max + TwoTo64 ==> r == x - TwoTo64
    ensures Int64Min - TwoTo64 <= x < Int64Min ==> r == x + TwoTo64
  {
    (x - Int64Min) % TwoTo64 + Int64Min
  }

  /** `checked(a + b)`: the runtime adds with wrap-around and raises an
      overflow when both operands have the same sign and the wrapped sum
      has the other sign. */
  function CheckedAdd(a: int64, b: int64): (r: Result<int64>)
    ensures r.Ok? <==> InInt64(a + b)
    ensures r.Ok? ==> r.value == a + b
    ensures r.Err? ==> r.error == Overflow
  {
    var sum := Wrap(a + b);
    if (a < 0) == (b < 0) && (sum < 0) != (a < 0) then Err(Overflow) else Ok(sum)
  }

  /** `checked(a - b)`: overflow when the operands have different signs and
      the wrapped difference does not have the sign of `a`. */
  function CheckedSubtract(a: int64, b: int64): (r: Result<int64>)
    ensures r.Ok? <==> InInt64(a - b)
    ensures r.Ok? ==> r.value == a - b
    ensures r.Err? ==> r.error == Overflow
  {
    var difference := Wrap(a - b);
    if (a < 0) != (b < 0) && (difference < 0) != (a < 0) then Err(Overflow) else Ok(difference)
  }

  /** `checked(-a)`, which the compiler emits as a checked `0 - a`. */
  function CheckedNegate(a: int64): (r: Result<int64>)
    ensures r.Ok? <==> a != Int64Min
    ensures r.Ok? ==> r.value == -a
    ensures r.Err? ==> r.error == Overflow
  {
    CheckedSubtract(0, a)
  }

  /** The cast `(ulong)x`, which keeps the 64 bits and reads them unsigned. */
  function ToUInt64(x: int64): (r: uint64)
    ensures 0 <= x ==> r == x
    ensures x < 0 ==> r == x + TwoTo64
  {
    x % TwoTo64
  }

  /** The cast `(long)u`, which keeps the 64 bits and reads them signed. */
  function ToInt64(u: uint64): (r: int64)
    ensures u <= Int64Max ==> r == u
    ensures Int64Max < u ==> r == u - TwoTo64
  {
    Wrap(u)
  }

  /** `CompareTo` of `long` and `ulong`: -1, 0 or 1 as `a` is below, equal
      to or above `b`. */
  function Compare(a: int, b: int): (r: int)
    ensures -1 <= r <= 1
    ensures r == -1 <==> a < b
    ensures r == 0 <==> a == b
    ensures r == 1 <==> a > b
  {
    if a < b then -1 else if a > b then 1 else 0
  }

  /** Swapping the operands of `Compare` flips its sign. */
  lemma CompareAntisymmetric(a: int, b: int)
    ensures Compare(b, a) == -Compare(a, b)
  {
  }

  /** The two casts are inverse bijections between `long` and `ulong`. */
  lemma CastsRoundTrip(x: int64, u: uint64)
    ensures ToInt64(ToUInt64(x)) == x
    ensures ToUInt64(ToInt64(u)) == u
  {
  }
}
