/** The exceptions the modelled Java code can throw, and a failure-compatible
    result type carrying either a value or one of them. */
module Outcome {
  import opened ChronoUnits

  datatype Error =
    /** `DateTimeException`: a computed field (the year, the era) lies outside its valid range. */
    | DateTimeOutOfRange
    /** `UnsupportedTemporalTypeException`: java.time cannot add or measure this unit. */
    | UnsupportedUnit(unit: ChronoUnit)
    /** `ArithmeticException` from `Math.multiplyExact`/`Math.addExact`/`Math.toIntExact`. */
    | ArithmeticOverflow
    /** `ArithmeticException("/ by zero")` from integer division. */
    | DivisionByZero
    /** `IllegalStateException("Unexpected value: " + unit)`. */
    | UnexpectedUnit(unit: ChronoUnit)

  datatype Result<+T> = Success(value: T) | Failure(error: Error) {

    predicate IsFailure() {
      Failure?
    }

    function PropagateFailure<U>(): Result<U>
      requires Failure?
    {
      Failure(error)
    }

    function Extract(): T
      requires Success?
    {
      value
    }
  }
}
