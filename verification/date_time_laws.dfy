/** What `plus` and `until` promise about each other: measuring from a date-time
    to itself gives zero, measuring is monotone in the end, adding nothing changes
    nothing, adding a positive amount moves later, and measuring what was added
    gives back the amount. */
module DateTimeLaws {
  import opened JavaArith
  import opened ChronoUnits
  import opened Outcome
  import opened IsoCalendar
  import opened LocalTimes
  import opened LocalDateTimes
  import opened DateTimeArithmetic

  // ---------------------------------------------------------------- until

  /** `t.until(t, unit)` is zero for every unit java.time can measure. */
  lemma UntilSelfIsZero(t: LocalDateTime, unit: ChronoUnit)
    requires IsValid(t) && unit != Forever
    ensures Until(t, t, unit) == Success(0)
  {
    assert AdjustedEndDate(t, t) == t.date;
  }

  /** A week is measured as seven whole days. */
  lemma WeeksOfNanos(x: int)
    ensures TruncDiv(TruncDiv(x, NANOS_PER_DAY), 7) == TruncDiv(x, 7 * NANOS_PER_DAY)
  {
    var y := if x < 0 then -x else x;
    var days := y / NANOS_PER_DAY;
    assert y == NANOS_PER_DAY * days + y % NANOS_PER_DAY;
    assert days == 7 * (days / 7) + days % 7;
    FloorDivUnique(y, 7 * NANOS_PER_DAY, days / 7, NANOS_PER_DAY * (days % 7) + y % NANOS_PER_DAY);
  }

  /** For days and weeks, the date-based path of `until` counts whole units of
      exact length on the time-line, just as the time-based path does. */
  lemma UntilFixedLength(start: LocalDateTime, end: LocalDateTime, unit: ChronoUnit)
    requires IsValid(start) && IsValid(end) && IsFixedLength(unit)
    ensures Until(start, end, unit).Success? ==>
      Until(start, end, unit).value == TruncDiv(EpochNanos(end) - EpochNanos(start), UnitNanos(unit))
    ensures unit in {Days, Weeks} ==> Until(start, end, unit).Success?
  {
    match unit
    case Days => UntilDays(start, end);
    case Weeks => UntilWeeks(start, end);
    case Nanos | Micros | Millis | Seconds | Minutes | Hours | HalfDays =>
  }

  /** The adjusted end date is the start date moved by the whole days between
      start and end. */
  lemma AdjustedEndDateDays(start: LocalDateTime, end: LocalDateTime)
    requires IsValid(start) && IsValid(end)
    ensures MIN_YEAR - 1 <= AdjustedEndDate(start, end).year <= MAX_YEAR + 1
    ensures EpochDay(AdjustedEndDate(start, end)) - EpochDay(start.date)
         == TruncDiv(EpochNanos(end) - EpochNanos(start), NANOS_PER_DAY)
  {
    AdjustedEndDateYear(start, end);
    AdjustedEndDateCountsWholeDays(start, end);
  }

  lemma DateUntilDays(start: LocalDateTime, end: LocalDateTime)
    requires IsValid(start) && IsValid(end)
    ensures MIN_YEAR - 1 <= AdjustedEndDate(start, end).year <= MAX_YEAR + 1
    ensures DateUntil(start.date, AdjustedEndDate(start, end), Days)
         == TruncDiv(EpochNanos(end) - EpochNanos(start), NANOS_PER_DAY)
  {
    AdjustedEndDateDays(start, end);
  }

  lemma DateUntilWeeks(start: LocalDateTime, end: LocalDateTime)
    requires IsValid(start) && IsValid(end)
    ensures MIN_YEAR - 1 <= AdjustedEndDate(start, end).year <= MAX_YEAR + 1
    ensures DateUntil(start.date, AdjustedEndDate(start, end), Weeks)
         == TruncDiv(EpochNanos(end) - EpochNanos(start), 7 * NANOS_PER_DAY)
  {
    AdjustedEndDateDays(start, end);
    WeeksOfNanos(EpochNanos(end) - EpochNanos(start));
  }

  lemma UntilDays(start: LocalDateTime, end: LocalDateTime)
    requires IsValid(start) && IsValid(end)
    ensures Until(start, end, Days) == Success(TruncDiv(EpochNanos(end) - EpochNanos(start), NANOS_PER_DAY))
  {
    DateUntilDays(start, end);
  }

  lemma UntilWeeks(start: LocalDateTime, end: LocalDateTime)
    requires IsValid(start) && IsValid(end)
    ensures Until(start, end, Weeks) == Success(TruncDiv(EpochNanos(end) - EpochNanos(start), 7 * NANOS_PER_DAY))
  {
    DateUntilWeeks(start, end);
  }

  /** Packed month-and-day values follow the calendar order. */
  lemma PackedMonthDayMonotone(a: LocalDate, b: LocalDate)
    requires IsCalendarDate(a) && IsCalendarDate(b)
    requires EpochDay(a) <= EpochDay(b)
    ensures PackedMonthDay(a) <= PackedMonthDay(b)
  {
    EpochDayOrder(b, a);
  }

  /** `LocalDate.until` never decreases as the end date moves later. */
  lemma DateUntilMonotone(start: LocalDate, a: LocalDate, b: LocalDate, unit: ChronoUnit)
    requires IsCalendarDate(start) && IsCalendarDate(a) && IsCalendarDate(b)
    requires MIN_YEAR - 1 <= start.year <= MAX_YEAR + 1
    requires MIN_YEAR - 1 <= a.year <= MAX_YEAR + 1 && MIN_YEAR - 1 <= b.year <= MAX_YEAR + 1
    requires !IsTimeBased(unit) && unit != Forever
    requires EpochDay(a) <= EpochDay(b)
    ensures DateUntil(start, a, unit) <= DateUntil(start, b, unit)
  {
    match unit
    case Days =>
    case Weeks =>
      TruncDivMonotone(EpochDay(a) - EpochDay(start), EpochDay(b) - EpochDay(start), 7);
    case Months | Years | Decades | Centuries | Millennia =>
      PackedMonthDayMonotone(a, b);
      TruncDivMonotone(PackedMonthDay(a) - PackedMonthDay(start), PackedMonthDay(b) - PackedMonthDay(start), 32);
      TruncDivMonotone(MonthsUntil(start, a), MonthsUntil(start, b), MonthsPerUnit(unit));
    case Eras =>
      EpochDayOrder(b, a);
  }

  /** `start.until(end, unit)` never decreases as `end` moves later. */
  lemma UntilMonotone(start: LocalDateTime, a: LocalDateTime, b: LocalDateTime, unit: ChronoUnit)
    requires IsValid(start) && IsValid(a) && IsValid(b)
    requires !IsBefore(b, a)
    requires Until(start, a, unit).Success? && Until(start, b, unit).Success?
    ensures Until(start, a, unit).value <= Until(start, b, unit).value
  {
    EpochNanosOrder(b, a);
    if IsTimeBased(unit) {
      TruncDivMonotone(EpochNanos(a) - EpochNanos(start), EpochNanos(b) - EpochNanos(start), UnitNanos(unit));
    } else {
      AdjustedEndDateMonotone(start, a, b);
      assert EpochDay(AdjustedEndDate(start, a)) <= EpochDay(AdjustedEndDate(start, b));
      AdjustedEndDateYear(start, a);
      AdjustedEndDateYear(start, b);
      DateUntilMonotone(start.date, AdjustedEndDate(start, a), AdjustedEndDate(start, b), unit);
    }
  }

  /** The adjusted end date never moves earlier as the end moves later. */
  lemma AdjustedEndDateMonotone(start: LocalDateTime, a: LocalDateTime, b: LocalDateTime)
    requires IsWellFormed(start) && IsWellFormed(a) && IsWellFormed(b)
    requires EpochNanos(a) <= EpochNanos(b)
    ensures EpochDay(a.date) + EndDateShift(start, a) <= EpochDay(b.date) + EndDateShift(start, b)
  {
    var x, y := EpochNanos(a) - EpochNanos(start), EpochNanos(b) - EpochNanos(start);
    AdjustedEndDateCountsWholeDays(start, a);
    AdjustedEndDateCountsWholeDays(start, b);
    TruncDivMonotone(x, y, NANOS_PER_DAY);
    assert TruncDiv(x, NANOS_PER_DAY) <= TruncDiv(y, NANOS_PER_DAY);
  }

  /** Measuring to an earlier date-time never gives a positive count. */
  lemma UntilEarlierIsNotPositive(start: LocalDateTime, end: LocalDateTime, unit: ChronoUnit)
    requires IsValid(start) && IsValid(end)
    requires IsBefore(end, start)
    requires Until(start, end, unit).Success?
    ensures Until(start, end, unit).value <= 0
  {
    UntilSelfIsZero(start, unit);
    EpochNanosOrder(start, end);
    UntilMonotone(start, end, start, unit);
  }

  // ---------------------------------------------------------------- plus

  /** Adding zero of any supported unit leaves the date-time unchanged. */
  lemma PlusZeroIsIdentity(t: LocalDateTime, unit: ChronoUnit)
    requires IsValid(t) && unit != Forever
    ensures Plus(t, 0, unit) == Success(t)
  {
    match unit
    case Nanos | Micros | Millis | Seconds | Minutes | Hours =>
      assert 0 * UnitNanos(unit) == 0;
      PlusNanosZero(t);
    case HalfDays =>
      PlusHalfDaysZero(t);
    case Days =>
      PlusDaysZero(t);
    case Weeks =>
      PlusDaysZero(t);
    case Months =>
      PlusMonthsZero(t);
    case Years | Decades | Centuries | Millennia =>
      PlusYearsZero(t);
    case Eras =>
  }

  lemma PlusHalfDaysZero(t: LocalDateTime)
    requires IsValid(t)
    ensures PlusHalfDays(t, 0) == Success(t)
  {
    assert TruncDiv(0, 256) == 0;
    PlusDaysZero(t);
    PlusNanosZero(t);
    assert PlusDaysThenHours(t, 0, 0) == PlusNanos(t, 0);
  }

  lemma PlusNanosZero(t: LocalDateTime)
    requires IsValid(t)
    ensures PlusNanos(t, 0) == Success(t)
  {
    EpochNanosRoundTrip(t);
  }

  lemma PlusDaysZero(t: LocalDateTime)
    requires IsValid(t)
    ensures PlusDays(t, 0) == Success(t)
  {
    EpochDayRoundTrip(t.date);
  }

  lemma PlusMonthsZero(t: LocalDateTime)
    requires IsValid(t)
    ensures PlusMonths(t, 0) == Success(t)
  {
    FloorDivUnique(ProlepticMonth(t.date), 12, t.date.year, t.date.month - 1);
  }

  lemma PlusYearsZero(t: LocalDateTime)
    requires IsValid(t)
    ensures PlusYears(t, 0) == Success(t)
  {
  }

  /** Fixed-length units move the date-time by exactly `UnitsMoved(amount, unit)`
      units along the time-line (`amount` of them, but for `HALF_DAYS` beyond 255),
      and fail exactly when that leaves the supported range. */
  lemma PlusFixedLength(t: LocalDateTime, amount: Int32, unit: ChronoUnit)
    requires IsValid(t) && IsFixedLength(unit)
    ensures Plus(t, amount, unit).Success?
        <==> EpochNanos(MIN_DATE_TIME) <= EpochNanos(t) + UnitsMoved(amount, unit) * UnitNanos(unit) <= EpochNanos(MAX_DATE_TIME)
    ensures Plus(t, amount, unit).Success? ==>
      EpochNanos(Plus(t, amount, unit).value) == EpochNanos(t) + UnitsMoved(amount, unit) * UnitNanos(unit)
  {
    if unit == HalfDays {
      assert Plus(t, amount, unit) == PlusHalfDays(t, amount);
    } else {
      assert UnitsMoved(amount, unit) == amount;
      PlusWholeUnits(t, amount, unit);
    }
  }

  /** Every fixed-length unit but `HALF_DAYS` moves exactly `amount` units. */
  lemma PlusWholeUnits(t: LocalDateTime, amount: Int32, unit: ChronoUnit)
    requires IsValid(t) && IsFixedLength(unit) && unit != HalfDays
    ensures Plus(t, amount, unit).Success?
        <==> EpochNanos(MIN_DATE_TIME) <= EpochNanos(t) + amount * UnitNanos(unit) <= EpochNanos(MAX_DATE_TIME)
    ensures Plus(t, amount, unit).Success? ==>
      EpochNanos(Plus(t, amount, unit).value) == EpochNanos(t) + amount * UnitNanos(unit)
  {
    match unit
    case Days =>
    case Weeks =>
      assert (7 * amount) * NANOS_PER_DAY == amount * (7 * NANOS_PER_DAY);
    case Nanos | Micros | Millis | Seconds | Minutes | Hours =>
  }

  /** `plus(amount, HALF_DAYS)` moves `amount` half days exactly when |amount| < 256;
      beyond that it moves fewer, in the same direction. */
  lemma HalfDaysMovedIsAmount(amount: int)
    ensures HalfDaysMoved(amount) == amount <==> -256 < amount < 256
    ensures Abs(HalfDaysMoved(amount)) <= Abs(amount)
    ensures 256 <= Abs(amount) ==> Abs(HalfDaysMoved(amount)) < Abs(amount)
    ensures (HalfDaysMoved(amount) > 0 <==> amount > 0) && (HalfDaysMoved(amount) < 0 <==> amount < 0)
  {
    HalfDaysSplit(amount);
  }

  /** For fixed-length units, `plus` moves `amount` units exactly when the unit is
      not `HALF_DAYS` or |amount| < 256. */
  lemma UnitsMovedIsAmount(amount: Int32, unit: ChronoUnit)
    ensures UnitsMoved(amount, unit) == amount <==> unit != HalfDays || -256 < amount < 256
    ensures InInt(UnitsMoved(amount, unit))
    ensures (UnitsMoved(amount, unit) > 0 <==> amount > 0) && (UnitsMoved(amount, unit) < 0 <==> amount < 0)
  {
    HalfDaysMovedIsAmount(amount);
    assert InInt(amount);
  }

  /** Month-based units move the month count by `amount` units' worth of months,
      keep the time of day, and clamp the day-of-month to the target month. */
  lemma PlusMonthBased(t: LocalDateTime, amount: Int32, unit: ChronoUnit)
    requires IsValid(t) && IsMonthBased(unit)
    ensures Plus(t, amount, unit).Success? <==>
      InYearRange((ProlepticMonth(t.date) + amount * MonthsPerUnit(unit)) / 12)
    ensures Plus(t, amount, unit).Success? ==>
      var r := Plus(t, amount, unit).value;
      && ProlepticMonth(r.date) == ProlepticMonth(t.date) + amount * MonthsPerUnit(unit)
      && r.date.day == Min(t.date.day, MonthLength(r.date.year, r.date.month))
      && r.time == t.time
  {
    var months := amount * MonthsPerUnit(unit);
    match unit
    case Months =>
      assert months == amount;
      assert Plus(t, amount, unit) == PlusMonths(t, amount);
    case Years =>
      assert months == 12 * (amount);
      PlusYearsAsMonths(t, amount, months);
      assert Plus(t, amount, unit) == PlusYears(t, amount);
    case Decades =>
      assert months == 12 * (10 * amount);
      PlusYearsAsMonths(t, 10 * amount, months);
      assert Plus(t, amount, unit) == PlusYears(t, 10 * amount);
    case Centuries =>
      assert months == 12 * (100 * amount);
      PlusYearsAsMonths(t, 100 * amount, months);
      assert Plus(t, amount, unit) == PlusYears(t, 100 * amount);
    case Millennia =>
      assert months == 12 * (1_000 * amount);
      PlusYearsAsMonths(t, 1_000 * amount, months);
      assert Plus(t, amount, unit) == PlusYears(t, 1_000 * amount);
  }

  /** `plusYears` by whole years obeys the `plusMonths` law for twelve times as many months. */
  lemma PlusYearsAsMonths(t: LocalDateTime, years: int, months: int)
    requires IsValid(t) && months == 12 * years
    ensures PlusYears(t, years).Success? <==> InYearRange((ProlepticMonth(t.date) + months) / 12)
    ensures PlusYears(t, years).Success? ==>
      var r := PlusYears(t, years).value;
      && ProlepticMonth(r.date) == ProlepticMonth(t.date) + months
      && r.date.day == Min(t.date.day, MonthLength(r.date.year, r.date.month))
      && r.time == t.time
  {
    YearsAsMonths(t.date, years);
  }

  /** Adding whole years to the month count adds them to the year. */
  lemma YearsAsMonths(d: LocalDate, years: int)
    requires 1 <= d.month <= 12
    ensures (ProlepticMonth(d) + 12 * years) / 12 == d.year + years
  {
    FloorDivUnique(ProlepticMonth(d) + 12 * years, 12, d.year + years, d.month - 1);
  }

  /** Adding a positive amount always moves strictly later. */
  lemma PlusPositiveIsLater(t: LocalDateTime, amount: Int32, unit: ChronoUnit)
    requires IsValid(t) && amount >= 1
    requires Plus(t, amount, unit).Success?
    ensures IsBefore(t, Plus(t, amount, unit).value)
  {
    var r := Plus(t, amount, unit).value;
    if IsFixedLength(unit) {
      var moved := UnitsMoved(amount, unit);
      PlusFixedLength(t, amount, unit);
      UnitsMovedIsAmount(amount, unit);
      MulAtLeast(UnitNanos(unit), moved);
      assert moved * UnitNanos(unit) == UnitNanos(unit) * moved;
      EpochNanosOrder(t, r);
    } else if IsMonthBased(unit) {
      PlusMonthBased(t, amount, unit);
      MulAtLeast(MonthsPerUnit(unit), amount);
      assert amount * MonthsPerUnit(unit) == MonthsPerUnit(unit) * amount;
    }
  }

  /** Measuring what `plus` added gives back the units it moved, for every unit, as
      long as a month-based unit did not have to clamp the day-of-month. That is
      the amount itself except for `HALF_DAYS` beyond 255 (`UnitsMovedIsAmount`). */
  lemma UntilAfterPlus(t: LocalDateTime, amount: Int32, unit: ChronoUnit)
    requires IsValid(t)
    requires Plus(t, amount, unit).Success?
    requires IsMonthBased(unit) ==> Plus(t, amount, unit).value.date.day == t.date.day
    ensures Until(t, Plus(t, amount, unit).value, unit) == Success(UnitsMoved(amount, unit))
  {
    if IsFixedLength(unit) {
      UntilAfterPlusFixedLength(t, amount, unit);
    } else if IsMonthBased(unit) {
      UntilAfterPlusMonthBased(t, amount, unit);
    } else {
      var r := Plus(t, amount, unit).value;
      assert AdjustedEndDate(t, r) == r.date;
    }
  }

  lemma UntilAfterPlusFixedLength(t: LocalDateTime, amount: Int32, unit: ChronoUnit)
    requires IsValid(t) && IsFixedLength(unit)
    requires Plus(t, amount, unit).Success?
    ensures Until(t, Plus(t, amount, unit).value, unit) == Success(UnitsMoved(amount, unit))
  {
    var r := Plus(t, amount, unit).value;
    var moved := UnitsMoved(amount, unit);
    PlusFixedLength(t, amount, unit);
    UnitsMovedIsAmount(amount, unit);
    UntilFixedLength(t, r, unit);
    TruncDivOfMultiple(moved, UnitNanos(unit));
    assert EpochNanos(r) - EpochNanos(t) == moved * UnitNanos(unit);
    UntilFixedLengthSucceeds(t, r, unit, moved);
  }

  /** A time-based count that equals an `int` fits a `long`. */
  lemma UntilFixedLengthSucceeds(start: LocalDateTime, end: LocalDateTime, unit: ChronoUnit, amount: int)
    requires IsValid(start) && IsValid(end) && IsFixedLength(unit) && InInt(amount)
    requires TruncDiv(EpochNanos(end) - EpochNanos(start), UnitNanos(unit)) == amount
    ensures Until(start, end, unit).Success?
  {
    if IsTimeBased(unit) {
      var whole := TruncDiv(EpochNanos(end) - EpochNanos(start), UnitNanos(unit));
      assert whole == amount;
      assert InInt(amount);
      assert InLong(whole);
    } else {
      UntilFixedLength(start, end, unit);
    }
  }

  lemma UntilAfterPlusMonthBased(t: LocalDateTime, amount: Int32, unit: ChronoUnit)
    requires IsValid(t) && IsMonthBased(unit)
    requires Plus(t, amount, unit).Success?
    requires Plus(t, amount, unit).value.date.day == t.date.day
    ensures Until(t, Plus(t, amount, unit).value, unit) == Success(amount)
  {
    var r := Plus(t, amount, unit).value;
    PlusMonthBased(t, amount, unit);
    assert AdjustedEndDate(t, r) == r.date;
    AdjustedEndDateYear(t, r);
    assert Until(t, r, unit) == Success(DateUntil(t.date, r.date, unit));
    DateUntilWholeMonths(t.date, r.date, unit, amount);
  }

  /** Between two dates with the same day-of-month, month-based units count
      the whole units in the month distance. */
  lemma DateUntilWholeMonths(start: LocalDate, end: LocalDate, unit: ChronoUnit, amount: int)
    requires IsCalendarDate(start) && IsCalendarDate(end)
    requires MIN_YEAR - 1 <= start.year <= MAX_YEAR + 1 && MIN_YEAR - 1 <= end.year <= MAX_YEAR + 1
    requires IsMonthBased(unit) && end.day == start.day
    requires ProlepticMonth(end) == ProlepticMonth(start) + amount * MonthsPerUnit(unit)
    ensures DateUntil(start, end, unit) == amount
  {
    var months := amount * MonthsPerUnit(unit);
    assert PackedMonthDay(end) - PackedMonthDay(start) == months * 32;
    TruncDivOfMultiple(months, 32);
    TruncDivOfMultiple(amount, MonthsPerUnit(unit));
  }
}
