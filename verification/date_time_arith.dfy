/** The two pieces of java.time arithmetic `IntervalStep` calls:
    `LocalDateTime.plus(amount, unit)` and `LocalDateTime.until(end, unit)`,
    for every `ChronoUnit`. */
module DateTimeArithmetic {
  import opened JavaArith
  import opened ChronoUnits
  import opened Outcome
  import opened IsoCalendar
  import opened LocalTimes
  import opened LocalDateTimes

  function Min(a: int, b: int): int { if a <= b then a else b }

  /** `year * 12 + month - 1`, the month count java.time uses for month arithmetic. */
  function ProlepticMonth(d: LocalDate): int {
    d.year * 12 + d.month - 1
  }

  /** `LocalDate.get(ERA)`: 1 for the common era (year 1 on), 0 before it. */
  function Era(d: LocalDate): int {
    if d.year >= 1 then 1 else 0
  }

  /** `LocalDate.resolvePreviousValid`: the day-of-month clamped to the month's length. */
  function ResolvePreviousValid(year: int, month: int, day: int): (d: LocalDate)
    requires 1 <= month <= 12 && 1 <= day
    ensures IsCalendarDate(d) && d.year == year && d.month == month
    ensures d.day <= day && (d.day == day || d.day == MonthLength(year, month))
  {
    LocalDate(year, month, Min(day, MonthLength(year, month)))
  }

  // ---------------------------------------------------------------- plus

  /** Moves `t` by `nanos` nanoseconds along the time-line; java.time throws when
      the target lies outside the supported year range. */
  function PlusNanos(t: LocalDateTime, nanos: int): (r: Result<LocalDateTime>)
    requires IsValid(t)
    ensures r.Success? ==> IsValid(r.value) && EpochNanos(r.value) == EpochNanos(t) + nanos
    ensures r.Success? <==> EpochNanos(MIN_DATE_TIME) <= EpochNanos(t) + nanos <= EpochNanos(MAX_DATE_TIME)
    ensures r.Failure? ==> r.error == DateTimeOutOfRange
  {
    var target := OfEpochNanos(EpochNanos(t) + nanos);
    YearRangeIsTimeLineRange(target);
    if InYearRange(target.date.year) then Success(target) else Failure(DateTimeOutOfRange)
  }

  /** `LocalDate.plusDays` on the date part; the time of day is kept. */
  function PlusDays(t: LocalDateTime, days: int): (r: Result<LocalDateTime>)
    requires IsValid(t)
    ensures r.Success? ==> IsValid(r.value) && r.value.time == t.time
    ensures r.Success? ==> EpochDay(r.value.date) == EpochDay(t.date) + days
    ensures r.Success? ==> EpochNanos(r.value) == EpochNanos(t) + days * NANOS_PER_DAY
    ensures r.Success? <==> EpochNanos(MIN_DATE_TIME) <= EpochNanos(t) + days * NANOS_PER_DAY <= EpochNanos(MAX_DATE_TIME)
    ensures r.Failure? ==> r.error == DateTimeOutOfRange
  {
    var target := LocalDateTime(FromEpochDay(EpochDay(t.date) + days), t.time);
    YearRangeIsTimeLineRange(target);
    assert EpochNanos(target) == EpochNanos(t) + days * NANOS_PER_DAY by {
      assert EpochDay(target.date) == EpochDay(t.date) + days;
      assert (EpochDay(t.date) + days) * NANOS_PER_DAY == EpochDay(t.date) * NANOS_PER_DAY + days * NANOS_PER_DAY;
    }
    if InYearRange(target.date.year) then Success(target) else Failure(DateTimeOutOfRange)
  }

  /** `LocalDate.plusMonths`: the month count moves by `months`, the year is its
      floor quotient by 12, and the day is clamped to the new month. */
  function PlusMonths(t: LocalDateTime, months: int): (r: Result<LocalDateTime>)
    requires IsValid(t)
    ensures r.Success? ==> IsValid(r.value) && r.value.time == t.time
    ensures r.Success? <==> InYearRange((ProlepticMonth(t.date) + months) / 12)
    ensures r.Success? ==> ProlepticMonth(r.value.date) == ProlepticMonth(t.date) + months
    ensures r.Success? ==> r.value.date.day == Min(t.date.day, MonthLength(r.value.date.year, r.value.date.month))
    ensures r.Failure? ==> r.error == DateTimeOutOfRange
  {
    var monthCount := t.date.year * 12 + (t.date.month - 1) + months;
    var year := monthCount / 12;
    var month := monthCount % 12 + 1;
    if !InYearRange(year) then Failure(DateTimeOutOfRange)
    else Success(LocalDateTime(ResolvePreviousValid(year, month, t.date.day), t.time))
  }

  /** `LocalDate.plusYears`: the month is kept and 29 February is clamped to the 28th. */
  function PlusYears(t: LocalDateTime, years: int): (r: Result<LocalDateTime>)
    requires IsValid(t)
    ensures r.Success? ==> IsValid(r.value) && r.value.time == t.time
    ensures r.Success? ==> ProlepticMonth(r.value.date) == ProlepticMonth(t.date) + 12 * years
    ensures r.Success? ==> r.value.date.day == Min(t.date.day, MonthLength(r.value.date.year, r.value.date.month))
    ensures r.Success? <==> InYearRange(t.date.year + years)
    ensures r.Failure? ==> r.error == DateTimeOutOfRange
  {
    var year := t.date.year + years;
    if !InYearRange(year) then Failure(DateTimeOutOfRange)
    else Success(LocalDateTime(ResolvePreviousValid(year, t.date.month, t.date.day), t.time))
  }

  /** `LocalDate.with(ERA, era + eras)`: the era must stay 0 or 1; switching it
      maps year `y` to `1 - y`, keeping the year of the era. */
  function PlusEras(t: LocalDateTime, eras: int): (r: Result<LocalDateTime>)
    requires IsValid(t)
    ensures r.Success? ==> IsValid(r.value) && r.value.time == t.time
    ensures r.Success? ==> Era(r.value.date) == Era(t.date) + eras
    ensures r.Success? ==> r.value.date.month == t.date.month
    ensures r.Success? ==> r.value.date.day == Min(t.date.day, MonthLength(r.value.date.year, r.value.date.month))
    ensures r.Success? <==> 0 <= Era(t.date) + eras <= 1 && (eras == 0 || InYearRange(1 - t.date.year))
    ensures r.Success? && eras != 0 ==> r.value.date.year == 1 - t.date.year
    ensures r.Failure? ==> r.error == DateTimeOutOfRange
  {
    var era := Era(t.date) + eras;
    if !(0 <= era <= 1) then Failure(DateTimeOutOfRange)
    else if era == Era(t.date) then Success(t)
    else
      var year := 1 - t.date.year;
      if !InYearRange(year) then Failure(DateTimeOutOfRange)
      else Success(LocalDateTime(ResolvePreviousValid(year, t.date.month, t.date.day), t.time))
  }

  /** The half days `plus(amount, HALF_DAYS)` really moves. The JDK adds
      `amount / 256` whole days and then `(amount % 256) * 12` hours, so this is
      `amount` only while |amount| < 256: 256 half days move a single day. */
  function HalfDaysMoved(amount: int): int {
    var days := TruncDiv(amount, 256);
    2 * days + (amount - 256 * days)
  }

  /** How many units `plus(amount, unit)` moves a fixed-length unit along the
      time-line: `amount`, except for `HALF_DAYS`. */
  function UnitsMoved(amount: int, unit: ChronoUnit): int {
    if unit == HalfDays then HalfDaysMoved(amount) else amount
  }

  /** The JDK's split of a `HALF_DAYS` amount into `amount / 256` days and
      `amount % 256` half days: both parts carry the amount's sign, and the days
      are zero exactly while |amount| < 256. */
  lemma HalfDaysSplit(amount: int)
    ensures var days := TruncDiv(amount, 256); var rest := amount - 256 * days;
      && -256 < rest < 256
      && (amount >= 0 ==> days >= 0 && rest >= 0)
      && (amount <= 0 ==> days <= 0 && rest <= 0)
      && (days == 0 <==> -256 < amount < 256)
  {
    TruncDivBounds(amount, 256);
    TruncDivSign(amount, 256);
  }

  /** `LocalDateTime.plus(amount, HALF_DAYS)` as the JDK computes it:
      `plusDays(amount / 256).plusHours((amount % 256) * 12)`. It moves
      `HalfDaysMoved(amount)` half days and fails exactly when that leaves the range. */
  function PlusHalfDays(t: LocalDateTime, amount: int): (r: Result<LocalDateTime>)
    requires IsValid(t)
    ensures r.Success? ==> IsValid(r.value)
    ensures r.Success? ==> EpochNanos(r.value) == EpochNanos(t) + HalfDaysMoved(amount) * UnitNanos(HalfDays)
    ensures r.Success?
        <==> EpochNanos(MIN_DATE_TIME) <= EpochNanos(t) + HalfDaysMoved(amount) * UnitNanos(HalfDays) <= EpochNanos(MAX_DATE_TIME)
    ensures r.Failure? ==> r.error == DateTimeOutOfRange
  {
    HalfDaysSplit(amount);
    HalfDaysAsDaysAndHours(amount);
    PlusDaysThenHours(t, TruncDiv(amount, 256), (amount - 256 * TruncDiv(amount, 256)) * 12)
  }

  /** `plusDays(days).plusHours(hours)`, the two steps the JDK chains for
      `HALF_DAYS`; either step throws when it leaves the year range. */
  function PlusDaysThenHours(t: LocalDateTime, days: int, hours: int): (r: Result<LocalDateTime>)
    requires IsValid(t)
    ensures r.Success? ==> IsValid(r.value)
    ensures r.Success? ==> EpochNanos(r.value) == EpochNanos(t) + days * NANOS_PER_DAY + hours * NANOS_PER_HOUR
    ensures (days >= 0 && hours >= 0) || (days <= 0 && hours <= 0) ==>
      (r.Success? <==> EpochNanos(MIN_DATE_TIME) <= EpochNanos(t) + days * NANOS_PER_DAY + hours * NANOS_PER_HOUR <= EpochNanos(MAX_DATE_TIME))
    ensures r.Failure? ==> r.error == DateTimeOutOfRange
  {
    DayStepInRange(t, days, hours);
    var d :- PlusDays(t, days);
    PlusNanos(d, hours * NANOS_PER_HOUR)
  }

  /** With days and hours of the same sign, the day step stops between `t` and
      the final date-time, so it is in range whenever the final one is. */
  lemma DayStepInRange(t: LocalDateTime, days: int, hours: int)
    requires IsValid(t)
    ensures (days >= 0 && hours >= 0) || (days <= 0 && hours <= 0) ==>
      EpochNanos(MIN_DATE_TIME) <= EpochNanos(t) + days * NANOS_PER_DAY + hours * NANOS_PER_HOUR <= EpochNanos(MAX_DATE_TIME) ==>
      PlusDays(t, days).Success?
  {
    var lo, hi := EpochNanos(MIN_DATE_TIME), EpochNanos(MAX_DATE_TIME);
    var x, y := days * NANOS_PER_DAY, hours * NANOS_PER_HOUR;
    YearRangeIsTimeLineRange(t);
    if ((days >= 0 && hours >= 0) || (days <= 0 && hours <= 0)) && lo <= EpochNanos(t) + x + y <= hi {
      assert (x >= 0 && y >= 0) || (x <= 0 && y <= 0);
      StepBetweenInRange(lo, hi, EpochNanos(t), x, y);
    }
  }

  /** A first step of the same sign as the second stops between the start and
      the end, so it stays in any range holding both. */
  lemma StepBetweenInRange(lo: int, hi: int, e: int, x: int, y: int)
    requires lo <= e <= hi && lo <= e + x + y <= hi
    requires (x >= 0 && y >= 0) || (x <= 0 && y <= 0)
    ensures lo <= e + x <= hi
  {
  }

  /** The JDK's `amount / 256` days and `(amount % 256) * 12` hours make up
      `HalfDaysMoved(amount)` half days. */
  lemma HalfDaysAsDaysAndHours(amount: int)
    ensures TruncDiv(amount, 256) * NANOS_PER_DAY + ((amount - 256 * TruncDiv(amount, 256)) * 12) * NANOS_PER_HOUR
         == HalfDaysMoved(amount) * UnitNanos(HalfDays)
  {
    var days := TruncDiv(amount, 256);
    var rest := amount - 256 * days;
    assert HalfDaysMoved(amount) == 2 * days + rest;
    assert days * 86_400_000_000_000 + (rest * 12) * 3_600_000_000_000 == (2 * days + rest) * 43_200_000_000_000;
  }

  /** `LocalDateTime.plus(amount, unit)` for an `int` amount. Time-based units move
      along the time-line (`HALF_DAYS` through the JDK's day split); days and weeks
      move the date; month-based units add calendar months or years; eras switch
      the era; `FOREVER` is unsupported. */
  function Plus(t: LocalDateTime, amount: Int32, unit: ChronoUnit): (r: Result<LocalDateTime>)
    requires IsValid(t)
    ensures r.Success? ==> IsValid(r.value)
    ensures r.Failure? ==> r.error == (if unit == Forever then UnsupportedUnit(Forever) else DateTimeOutOfRange)
  {
    match unit
    case Nanos | Micros | Millis | Seconds | Minutes | Hours => PlusNanos(t, amount * UnitNanos(unit))
    case HalfDays => PlusHalfDays(t, amount)
    case Days => PlusDays(t, amount)
    case Weeks => PlusDays(t, 7 * amount)
    case Months => PlusMonths(t, amount)
    case Years => PlusYears(t, amount)
    case Decades => PlusYears(t, 10 * amount)
    case Centuries => PlusYears(t, 100 * amount)
    case Millennia => PlusYears(t, 1_000 * amount)
    case Eras => PlusEras(t, amount)
    case Forever => Failure(UnsupportedUnit(Forever))
  }

  // ---------------------------------------------------------------- until

  /** The signed count of whole days in `days * NANOS_PER_DAY + nanos`, for a
      part-day `nanos` of either sign. */
  lemma WholeDays(days: int, nanos: int)
    requires -NANOS_PER_DAY < nanos < NANOS_PER_DAY
    ensures TruncDiv(days * NANOS_PER_DAY + nanos, NANOS_PER_DAY)
         == if days > 0 && nanos < 0 then days - 1 else if days < 0 && nanos > 0 then days + 1 else days
  {
    var x := days * NANOS_PER_DAY + nanos;
    if days > 0 && nanos < 0 {
      assert x >= 0 && TruncDiv(x, NANOS_PER_DAY) == x / NANOS_PER_DAY;
      FloorDivUnique(x, NANOS_PER_DAY, days - 1, NANOS_PER_DAY + nanos);
    } else if days > 0 || (days == 0 && nanos >= 0) {
      assert x >= 0 && TruncDiv(x, NANOS_PER_DAY) == x / NANOS_PER_DAY;
      FloorDivUnique(x, NANOS_PER_DAY, days, nanos);
    } else if days < 0 && nanos > 0 {
      assert x < 0 && TruncDiv(x, NANOS_PER_DAY) == -((-x) / NANOS_PER_DAY);
      FloorDivUnique(-x, NANOS_PER_DAY, -days - 1, NANOS_PER_DAY - nanos);
    } else {
      assert x <= 0 && TruncDiv(x, NANOS_PER_DAY) == -((-x) / NANOS_PER_DAY);
      FloorDivUnique(-x, NANOS_PER_DAY, -days, -nanos);
    }
  }

  /** The end date java.time measures date-based units to: one day nearer the
      start when the end's time of day has not yet reached the start's. */
  function AdjustedEndDate(start: LocalDateTime, end: LocalDateTime): (d: LocalDate)
    requires IsWellFormed(start) && IsWellFormed(end)
    ensures IsCalendarDate(d)
    ensures EpochDay(d) == EpochDay(end.date) + EndDateShift(start, end)
  {
    var shift := EndDateShift(start, end);
    if shift == 0 then end.date else FromEpochDay(EpochDay(end.date) + shift)
  }

  /** The adjusted end date is at most a year away from the end date's year. */
  lemma AdjustedEndDateYear(start: LocalDateTime, end: LocalDateTime)
    requires IsWellFormed(start) && IsWellFormed(end)
    ensures end.date.year - 1 <= AdjustedEndDate(start, end).year <= end.date.year + 1
  {
    NeighbourDayYear(end.date, AdjustedEndDate(start, end));
  }

  /** `endDate.minusDays(1)` when the end is on a later date but an earlier time
      of day than the start, `endDate.plusDays(1)` in the mirror case. */
  function EndDateShift(start: LocalDateTime, end: LocalDateTime): (shift: int)
    ensures -1 <= shift <= 1
  {
    if DateBefore(start.date, end.date) && TimeBefore(end.time, start.time) then -1
    else if DateBefore(end.date, start.date) && TimeBefore(start.time, end.time) then 1
    else 0
  }

  /** The adjusted end date lies a whole number of 24-hour days from the start
      date: the time-line distance in days, rounded toward zero. */
  lemma AdjustedEndDateCountsWholeDays(start: LocalDateTime, end: LocalDateTime)
    requires IsWellFormed(start) && IsWellFormed(end)
    ensures EpochDay(end.date) + EndDateShift(start, end) - EpochDay(start.date)
         == TruncDiv(EpochNanos(end) - EpochNanos(start), NANOS_PER_DAY)
  {
    var days := EpochDay(end.date) - EpochDay(start.date);
    var nanos := NanoOfDay(end.time) - NanoOfDay(start.time);
    assert EpochNanos(end) - EpochNanos(start) == days * NANOS_PER_DAY + nanos;
    EpochDayOrder(start.date, end.date);
    EpochDayOrder(end.date, start.date);
    NanoOfDayOrder(start.time, end.time);
    NanoOfDayOrder(end.time, start.time);
    WholeDays(days, nanos);
  }

  /** A date at most one day from `d` lies in the same year or a neighbouring one. */
  lemma NeighbourDayYear(d: LocalDate, n: LocalDate)
    requires IsCalendarDate(d) && IsCalendarDate(n)
    requires EpochDay(d) - 1 <= EpochDay(n) <= EpochDay(d) + 1
    ensures d.year - 1 <= n.year <= d.year + 1
  {
    DayInYear(d);
    DayInYear(n);
    if n.year > d.year + 1 {
      DaysBeforeYearMonotone(d.year + 1, n.year);
    } else if n.year < d.year - 1 {
      DaysBeforeYearMonotone(n.year + 1, d.year);
    }
  }

  /** `LocalDate.monthsUntil`: months and days packed as `month * 32 + day`, so a
      month only counts once its day-of-month has been reached. */
  function PackedMonthDay(d: LocalDate): int {
    ProlepticMonth(d) * 32 + d.day
  }

  function MonthsUntil(start: LocalDate, end: LocalDate): int {
    TruncDiv(PackedMonthDay(end) - PackedMonthDay(start), 32)
  }

  /** Months between dates of the year range are bounded by 13 per year of the range. */
  lemma MonthsUntilBounds(start: LocalDate, end: LocalDate)
    requires IsCalendarDate(start) && IsCalendarDate(end)
    requires MIN_YEAR - 1 <= start.year <= MAX_YEAR + 1 && MIN_YEAR - 1 <= end.year <= MAX_YEAR + 1
    ensures Abs(MonthsUntil(start, end)) <= 100_000_000_000
  {
    TruncDivShrinks(PackedMonthDay(end) - PackedMonthDay(start), 32);
  }

  /** Days from 1970-01-01 are bounded by roughly 366 per year of the year range. */
  lemma EpochDayBounds(d: LocalDate)
    requires IsCalendarDate(d) && MIN_YEAR - 1 <= d.year <= MAX_YEAR + 1
    ensures -400_000_000_000 <= EpochDay(d) <= 400_000_000_000
  {
  }

  /** `LocalDate.until(end, unit)` for the date-based units. */
  function DateUntil(start: LocalDate, end: LocalDate, unit: ChronoUnit): (n: int)
    requires IsCalendarDate(start) && IsCalendarDate(end)
    requires MIN_YEAR - 1 <= start.year <= MAX_YEAR + 1 && MIN_YEAR - 1 <= end.year <= MAX_YEAR + 1
    requires !IsTimeBased(unit) && unit != Forever
    ensures InLong(n)
  {
    match unit
    case Days =>
      EpochDayBounds(start);
      EpochDayBounds(end);
      EpochDay(end) - EpochDay(start)
    case Weeks =>
      EpochDayBounds(start);
      EpochDayBounds(end);
      TruncDivShrinks(EpochDay(end) - EpochDay(start), 7);
      TruncDiv(EpochDay(end) - EpochDay(start), 7)
    case Months =>
      MonthsUntilBounds(start, end);
      MonthsUntil(start, end)
    case Years =>
      MonthsUntilBounds(start, end);
      TruncDivShrinks(MonthsUntil(start, end), 12);
      TruncDiv(MonthsUntil(start, end), 12)
    case Decades =>
      MonthsUntilBounds(start, end);
      TruncDivShrinks(MonthsUntil(start, end), 120);
      TruncDiv(MonthsUntil(start, end), 120)
    case Centuries =>
      MonthsUntilBounds(start, end);
      TruncDivShrinks(MonthsUntil(start, end), 1_200);
      TruncDiv(MonthsUntil(start, end), 1_200)
    case Millennia =>
      MonthsUntilBounds(start, end);
      TruncDivShrinks(MonthsUntil(start, end), 12_000);
      TruncDiv(MonthsUntil(start, end), 12_000)
    case Eras => Era(end) - Era(start)
  }

  /** `LocalDateTime.until(end, unit)`: the number of whole units from `start` to
      `end`, negative when `end` is earlier. Time-based units count exact
      nanoseconds, rounding toward zero, and throw `ArithmeticException` when the
      count does not fit a `long`; date-based units measure dates, adjusted by
      the time of day. `FOREVER` is unsupported. */
  function Until(start: LocalDateTime, end: LocalDateTime, unit: ChronoUnit): (r: Result<int>)
    requires IsValid(start) && IsValid(end)
    ensures r.Success? ==> InLong(r.value)
    ensures r.Failure? ==> r.error == (if unit == Forever then UnsupportedUnit(Forever) else ArithmeticOverflow)
  {
    if IsTimeBased(unit) then
      var whole := TruncDiv(EpochNanos(end) - EpochNanos(start), UnitNanos(unit));
      if InLong(whole) then Success(whole) else Failure(ArithmeticOverflow)
    else if unit == Forever then Failure(UnsupportedUnit(Forever))
    else
      AdjustedEndDateYear(start, end);
      Success(DateUntil(start.date, AdjustedEndDate(start, end), unit))
  }

  /** Only `FOREVER` and the three sub-second units can make `until` throw: from
      seconds upwards the time-line is too short to overflow a `long`. */
  lemma UntilFailsOnlyBelowSeconds(start: LocalDateTime, end: LocalDateTime, unit: ChronoUnit)
    requires IsValid(start) && IsValid(end)
    ensures Until(start, end, unit).Failure? ==> unit in {Forever, Nanos, Micros, Millis}
  {
    if IsTimeBased(unit) && unit !in {Nanos, Micros, Millis} {
      UntilFitsLongAboveMillis(start, end, unit);
    }
  }

  /** From seconds upwards, the time-line is too short to overflow a `long`. */
  lemma UntilFitsLongAboveMillis(start: LocalDateTime, end: LocalDateTime, unit: ChronoUnit)
    requires IsValid(start) && IsValid(end) && IsTimeBased(unit)
    requires unit !in {Nanos, Micros, Millis}
    ensures InLong(TruncDiv(EpochNanos(end) - EpochNanos(start), UnitNanos(unit)))
  {
    EpochDayBounds(start.date);
    EpochDayBounds(end.date);
    var diff := EpochNanos(end) - EpochNanos(start);
    assert Abs(diff) <= 1_000_000_000_000 * NANOS_PER_DAY;
    QuotientFitsLong(diff, UnitNanos(unit));
  }

  /** A quotient of a time-line distance by a unit of a second or more fits a `long`. */
  lemma QuotientFitsLong(diff: int, k: int)
    requires NANOS_PER_SECOND <= k && Abs(diff) <= 1_000_000_000_000 * NANOS_PER_DAY
    ensures InLong(TruncDiv(diff, k))
  {
    var q := TruncDiv(diff, k);
    TruncDivBounds(diff, k);
    MulMonotone(NANOS_PER_SECOND, k, Abs(q));
    assert NANOS_PER_SECOND * Abs(q) <= NANOS_PER_SECOND * (1_000_000_000_000 * 86_400);
  }
}
