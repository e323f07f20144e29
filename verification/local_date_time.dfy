/** `java.time.LocalDateTime`: a date and a time of day without a zone, its
    order, and its linear encoding as nanoseconds since 1970-01-01T00:00. */
module LocalDateTimes {
  import opened ChronoUnits
  import opened IsoCalendar
  import opened LocalTimes

  datatype LocalDateTime = LocalDateTime(date: LocalDate, time: LocalTime)

  /** Calendar date and time of day exist, ignoring java.time's year range. */
  predicate IsWellFormed(t: LocalDateTime) {
    IsCalendarDate(t.date) && IsValidTime(t.time)
  }

  predicate InYearRange(year: int) {
    MIN_YEAR <= year <= MAX_YEAR
  }

  /** A value `LocalDateTime` can hold. */
  predicate IsValid(t: LocalDateTime) {
    IsWellFormed(t) && InYearRange(t.date.year)
  }

  /** `LocalDateTime.MIN` and `LocalDateTime.MAX`. */
  const MIN_DATE_TIME: LocalDateTime := LocalDateTime(LocalDate(MIN_YEAR, 1, 1), MIDNIGHT)
  const MAX_DATE_TIME: LocalDateTime :=
    LocalDateTime(LocalDate(MAX_YEAR, 12, 31), LocalTime(23, 59, 59, NANOS_PER_SECOND - 1))

  /** `LocalDateTime.isBefore`: by date, then by time of day. */
  predicate IsBefore(a: LocalDateTime, b: LocalDateTime) {
    DateBefore(a.date, b.date) || (a.date == b.date && TimeBefore(a.time, b.time))
  }

  /** Nanoseconds from 1970-01-01T00:00 to `t` on the zone-less time-line. */
  function EpochNanos(t: LocalDateTime): int
    requires IsWellFormed(t)
  {
    EpochDay(t.date) * NANOS_PER_DAY + NanoOfDay(t.time)
  }

  /** The date-time `nanos` nanoseconds after 1970-01-01T00:00: the day by floor
      division, the time of day by the floor remainder, as java.time carries. */
  function OfEpochNanos(nanos: int): (t: LocalDateTime)
    ensures IsWellFormed(t)
    ensures EpochNanos(t) == nanos
  {
    LocalDateTime(FromEpochDay(nanos / NANOS_PER_DAY), OfNanoOfDay(nanos % NANOS_PER_DAY))
  }

  /** Day-major encoding: comparing `day * NANOS_PER_DAY + nano` compares the day
      first and the nanosecond of the day second. */
  lemma DayMajorOrder(dayA: int, nanoA: int, dayB: int, nanoB: int)
    requires 0 <= nanoA < NANOS_PER_DAY && 0 <= nanoB < NANOS_PER_DAY
    ensures dayA * NANOS_PER_DAY + nanoA < dayB * NANOS_PER_DAY + nanoB
      <==> dayA < dayB || (dayA == dayB && nanoA < nanoB)
    ensures dayA * NANOS_PER_DAY + nanoA == dayB * NANOS_PER_DAY + nanoB
      <==> dayA == dayB && nanoA == nanoB
  {
  }

  /** The order of date-times is the order of their positions on the time-line. */
  lemma EpochNanosOrder(a: LocalDateTime, b: LocalDateTime)
    requires IsWellFormed(a) && IsWellFormed(b)
    ensures IsBefore(a, b) <==> EpochNanos(a) < EpochNanos(b)
    ensures a == b <==> EpochNanos(a) == EpochNanos(b)
  {
    EpochDayOrder(a.date, b.date);
    NanoOfDayOrder(a.time, b.time);
    DayMajorOrder(EpochDay(a.date), NanoOfDay(a.time), EpochDay(b.date), NanoOfDay(b.time));
    if EpochDay(a.date) == EpochDay(b.date) {
      EpochDayInjective(a.date, b.date);
    }
  }

  /** Every well-formed date-time comes back from its position on the time-line. */
  lemma EpochNanosRoundTrip(t: LocalDateTime)
    requires IsWellFormed(t)
    ensures OfEpochNanos(EpochNanos(t)) == t
  {
    EpochNanosOrder(OfEpochNanos(EpochNanos(t)), t);
  }

  /** The year range is exactly the span from `LocalDateTime.MIN` to `LocalDateTime.MAX`. */
  lemma YearRangeIsTimeLineRange(t: LocalDateTime)
    requires IsWellFormed(t)
    ensures IsValid(t) <==> EpochNanos(MIN_DATE_TIME) <= EpochNanos(t) <= EpochNanos(MAX_DATE_TIME)
  {
    EpochNanosOrder(t, MIN_DATE_TIME);
    EpochNanosOrder(MAX_DATE_TIME, t);
  }
}
