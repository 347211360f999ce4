/** The two exceptions the time types can raise, and a Result type that carries
    either a value or one of them, usable with `:-`. */
module TimeResults {

  /** Which bound of `[MinTicks, MaxTicks]` a checked date constructor rejected. */
  datatype RangeViolation = BelowMinTicks | AboveMaxTicks

  datatype TimeError =
    | Overflow                                // OverflowException from a `checked` expression
    | InvalidTicks(violation: RangeViolation) // ArgumentException on the `ticks` parameter

  datatype Result<+T> = Ok(value: T) | Err(error: TimeError) {

    predicate IsFailure() {
      Err?
    }

    function PropagateFailure<U>(): Result<U>
      requires Err?
    {
      Err(error)
    }

    function Extract(): T
      requires Ok?
    {
      value
    }
  }
}
