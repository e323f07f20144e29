/** The units of `java.time.temporal.ChronoUnit`, in declaration order, and the
    two families java.time splits them into. */
module ChronoUnits {

  const NANOS_PER_SECOND: int := 1_000_000_000
  const NANOS_PER_MINUTE: int := 60 * NANOS_PER_SECOND
  const NANOS_PER_HOUR: int := 60 * NANOS_PER_MINUTE
  const NANOS_PER_DAY: int := 24 * NANOS_PER_HOUR

  datatype ChronoUnit =
    | Nanos | Micros | Millis | Seconds | Minutes | Hours | HalfDays
    | Days | Weeks | Months | Years | Decades | Centuries | Millennia | Eras
    | Forever

  /** `ChronoUnit.isTimeBased()`: the units below a day, each a fixed number of nanoseconds. */
  predicate IsTimeBased(unit: ChronoUnit) {
    unit in {Nanos, Micros, Millis, Seconds, Minutes, Hours, HalfDays}
  }

  /** The units whose every instance has the same length on the zone-less
      time-line: the time-based units, days and weeks. */
  predicate IsFixedLength(unit: ChronoUnit) {
    IsTimeBased(unit) || unit == Days || unit == Weeks
  }

  /** The exact length of a fixed-length unit in nanoseconds. */
  function UnitNanos(unit: ChronoUnit): (n: int)
    requires IsFixedLength(unit)
    ensures n > 0
    ensures IsTimeBased(unit) <==> n < NANOS_PER_DAY
  {
    match unit
    case Nanos => 1
    case Micros => 1_000
    case Millis => 1_000_000
    case Seconds => NANOS_PER_SECOND
    case Minutes => NANOS_PER_MINUTE
    case Hours => NANOS_PER_HOUR
    case HalfDays => 12 * NANOS_PER_HOUR
    case Days => NANOS_PER_DAY
    case Weeks => 7 * NANOS_PER_DAY
  }

  /** The units java.time adds as a whole number of calendar months or years:
      a day-of-month that does not exist in the target month is clamped. */
  predicate IsMonthBased(unit: ChronoUnit) {
    unit in {Months, Years, Decades, Centuries, Millennia}
  }

  /** How many months one month-based unit spans. */
  function MonthsPerUnit(unit: ChronoUnit): (n: int)
    requires IsMonthBased(unit)
    ensures n > 0 && n % 12 == (if unit == Months then 1 else 0)
  {
    match unit
    case Months => 1
    case Years => 12
    case Decades => 120
    case Centuries => 1_200
    case Millennia => 12_000
  }
}
