/** The two `FromSeconds` conversions share one tick count: the date
    conversion is the duration conversion followed by the range check. */
module SecondsAgreement {
  import opened MachineInts
  import opened TickUnits
  import Durations
  import Dates

  lemma DateFromSecondsIsCheckedDuration(seconds: real)
    requires InInt64(SecondsToTicks(seconds))
    ensures Dates.FromSeconds(seconds) == Dates.FromTicks(Durations.FromSeconds(seconds).value)
    ensures Dates.FromSeconds(seconds).Ok? <==> 0 <= Durations.FromSeconds(seconds).value <= Dates.MaxTicks
    ensures Dates.FromSeconds(seconds).Ok? ==>
              Dates.Ticks(Dates.FromSeconds(seconds).value) == Durations.FromSeconds(seconds).value
  {
  }

  /** Whole ticks written as seconds reach the same date as the checked tick constructor. */
  lemma DateFromSecondsOfWholeTicks(t: int64)
    ensures InInt64(SecondsToTicks(t as real / TicksPerSecond as real))
    ensures Dates.FromSeconds(t as real / TicksPerSecond as real) == Dates.FromTicks(t)
  {
    SecondsOfWholeTicks(t);
  }
}
