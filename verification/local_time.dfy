/** `java.time.LocalTime`: a time of day to the nanosecond, and its encoding as
    nanoseconds since midnight. */
module LocalTimes {
  import opened ChronoUnits

  datatype LocalTime = LocalTime(hour: int, minute: int, second: int, nano: int)

  /** `LocalTime.MIN`. */
  const MIDNIGHT: LocalTime := LocalTime(0, 0, 0, 0)

  predicate IsValidTime(t: LocalTime) {
    0 <= t.hour < 24 && 0 <= t.minute < 60 && 0 <= t.second < 60 && 0 <= t.nano < NANOS_PER_SECOND
  }

  /** `LocalTime.compareTo`: hour, then minute, then second, then nano. */
  predicate TimeBefore(a: LocalTime, b: LocalTime) {
    a.hour < b.hour
    || (a.hour == b.hour && a.minute < b.minute)
    || (a.hour == b.hour && a.minute == b.minute && a.second < b.second)
    || (a.hour == b.hour && a.minute == b.minute && a.second == b.second && a.nano < b.nano)
  }

  /** `LocalTime.toNanoOfDay`. */
  function NanoOfDay(t: LocalTime): (n: int)
    requires IsValidTime(t)
    ensures 0 <= n < NANOS_PER_DAY
  {
    t.hour * NANOS_PER_HOUR + t.minute * NANOS_PER_MINUTE + t.second * NANOS_PER_SECOND + t.nano
  }

  /** `LocalTime.ofNanoOfDay`: the time of day `nanoOfDay` nanoseconds after midnight. */
  function OfNanoOfDay(nanoOfDay: int): (t: LocalTime)
    requires 0 <= nanoOfDay < NANOS_PER_DAY
    ensures IsValidTime(t)
    ensures NanoOfDay(t) == nanoOfDay
  {
    var hour := nanoOfDay / NANOS_PER_HOUR;
    var afterHour := nanoOfDay % NANOS_PER_HOUR;
    var minute := afterHour / NANOS_PER_MINUTE;
    var afterMinute := afterHour % NANOS_PER_MINUTE;
    LocalTime(hour, minute, afterMinute / NANOS_PER_SECOND, afterMinute % NANOS_PER_SECOND)
  }

  /** Lexicographic order on the fields is the order of nanoseconds since midnight. */
  lemma NanoOfDayOrder(a: LocalTime, b: LocalTime)
    requires IsValidTime(a) && IsValidTime(b)
    ensures TimeBefore(a, b) <==> NanoOfDay(a) < NanoOfDay(b)
    ensures a == b <==> NanoOfDay(a) == NanoOfDay(b)
  {
  }

  /** Every valid time of day comes back from its nanosecond of the day. */
  lemma NanoOfDayRoundTrip(t: LocalTime)
    requires IsValidTime(t)
    ensures OfNanoOfDay(NanoOfDay(t)) == t
  {
    NanoOfDayOrder(OfNanoOfDay(NanoOfDay(t)), t);
  }
}
