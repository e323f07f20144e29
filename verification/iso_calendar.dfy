/** The proleptic Gregorian calendar of `java.time.LocalDate`: leap years, month
    lengths, and the bijection between calendar dates and epoch days (days
    counted from 1970-01-01). Years are unbounded here; java.time's year range is
    checked by the operations that can leave it. */
module IsoCalendar {
  import opened JavaArith

  /** `Year.MIN_VALUE` and `Year.MAX_VALUE`. */
  const MIN_YEAR: int := -999_999_999
  const MAX_YEAR: int := 999_999_999

  /** Days in one 400-year cycle of the Gregorian calendar. */
  const DAYS_PER_CYCLE: int := 146_097
  /** Days from 0000-01-01 to 1970-01-01. */
  const DAYS_0000_TO_1970: int := 719_528

  /** `IsoChronology.isLeapYear`: divisible by 4, except centuries not divisible by 400. */
  predicate IsLeapYear(year: int) {
    year % 4 == 0 && (year % 100 != 0 || year % 400 == 0)
  }

  function YearLength(year: int): int {
    if IsLeapYear(year) then 366 else 365
  }

  /** `Month.length(leapYear)`. */
  function MonthLength(year: int, month: int): (n: int)
    requires 1 <= month <= 12
    ensures 28 <= n <= 31
  {
    if month == 2 then (if IsLeapYear(year) then 29 else 28)
    else if month == 4 || month == 6 || month == 9 || month == 11 then 30
    else 31
  }

  datatype LocalDate = LocalDate(year: int, month: int, day: int)

  /** The month exists and the day exists in that month. */
  predicate IsCalendarDate(d: LocalDate) {
    1 <= d.month <= 12 && 1 <= d.day <= MonthLength(d.year, d.month)
  }

  /** `LocalDate.compareTo`: year, then month, then day. */
  predicate DateBefore(a: LocalDate, b: LocalDate) {
    a.year < b.year
    || (a.year == b.year && a.month < b.month)
    || (a.year == b.year && a.month == b.month && a.day < b.day)
  }

  /** Days from 0000-01-01 to the first day of `year` (negative before year 0):
      365 per year plus one per leap year in between. */
  function DaysBeforeYear(year: int): int {
    365 * year + (year - 1) / 4 - (year - 1) / 100 + (year - 1) / 400 + 1
  }

  /** Days from the first day of `year` to the first day of `month`; month 13
      stands for the first day of the next year. */
  function DaysBeforeMonth(year: int, month: int): int
    requires 1 <= month <= 13
  {
    var base := (367 * month - 362) / 12;
    if month <= 2 then base else if IsLeapYear(year) then base - 1 else base - 2
  }

  /** The number of multiples of `k` in `(x - 1, x]`. */
  lemma DivStep(x: int, k: int)
    requires k > 0
    ensures x / k - (x - 1) / k == if x % k == 0 then 1 else 0
  {
    var q, r := x / k, x % k;
    assert x == k * q + r;
    if r == 0 {
      FloorDivUnique(x - 1, k, q - 1, k - 1);
    } else {
      FloorDivUnique(x - 1, k, q, r - 1);
    }
  }

  /** Each year adds its own length. */
  lemma DaysBeforeYearStep(year: int)
    ensures DaysBeforeYear(year + 1) == DaysBeforeYear(year) + YearLength(year)
  {
    DivStep(year, 4);
    DivStep(year, 100);
    DivStep(year, 400);
  }

  /** Each month adds its own length, and the twelve months make up the year. */
  lemma DaysBeforeMonthStep(year: int, month: int)
    requires 1 <= month <= 12
    ensures DaysBeforeMonth(year, month + 1) == DaysBeforeMonth(year, month) + MonthLength(year, month)
    ensures DaysBeforeMonth(year, 13) == YearLength(year)
    ensures DaysBeforeMonth(year, 1) == 0
  {
  }

  /** Years further apart are at least 365 days apart per year. */
  lemma {:induction false} DaysBeforeYearMonotone(a: int, b: int)
    requires a <= b
    ensures DaysBeforeYear(a) + 365 * (b - a) <= DaysBeforeYear(b)
    decreases b - a
  {
    if a < b {
      DaysBeforeYearMonotone(a, b - 1);
      DaysBeforeYearStep(b - 1);
    }
  }

  /** Later months start later in the year. */
  lemma {:induction false} DaysBeforeMonthMonotone(year: int, a: int, b: int)
    requires 1 <= a <= b <= 13
    ensures DaysBeforeMonth(year, a) + 28 * (b - a) <= DaysBeforeMonth(year, b)
    decreases b - a
  {
    if a < b {
      DaysBeforeMonthMonotone(year, a, b - 1);
      DaysBeforeMonthStep(year, b - 1);
    }
  }

  /** A calendar date lies within its own year. */
  lemma DayInYear(d: LocalDate)
    requires IsCalendarDate(d)
    ensures DaysBeforeYear(d.year) <= EpochDay(d) + DAYS_0000_TO_1970 < DaysBeforeYear(d.year + 1)
  {
    DaysBeforeMonthStep(d.year, d.month);
    DaysBeforeMonthMonotone(d.year, d.month + 1, 13);
    DaysBeforeYearStep(d.year);
  }

  /** Adding a multiple of `k` shifts the floor quotient and leaves the remainder. */
  lemma DivAddMultiple(x: int, k: int, c: int)
    requires k > 0
    ensures (x + k * c) / k == x / k + c && (x + k * c) % k == x % k
  {
    assert x == k * (x / k) + x % k;
    assert x + k * c == k * (x / k + c) + x % k;
    FloorDivUnique(x + k * c, k, x / k + c, x % k);
  }

  /** The calendar repeats every 400 years. */
  lemma DaysBeforeYearCycle(cycle: int, yearOfCycle: int)
    ensures DaysBeforeYear(400 * cycle + yearOfCycle) == DAYS_PER_CYCLE * cycle + DaysBeforeYear(yearOfCycle)
    ensures IsLeapYear(400 * cycle + yearOfCycle) == IsLeapYear(yearOfCycle)
  {
    var x := yearOfCycle - 1;
    DivAddMultiple(x, 4, 100 * cycle);
    DivAddMultiple(x, 100, 4 * cycle);
    DivAddMultiple(x, 400, cycle);
    DivAddMultiple(yearOfCycle, 4, 100 * cycle);
    DivAddMultiple(yearOfCycle, 100, 4 * cycle);
    DivAddMultiple(yearOfCycle, 400, cycle);
  }

  /** The year of a 400-year cycle that holds day `dayOfCycle` of the cycle,
      searched upwards from `year`, which starts `daysBefore` days into the cycle. */
  function YearOfCycleDay(dayOfCycle: int, year: int, daysBefore: int): (y: int)
    requires 0 <= year < 400 && daysBefore == DaysBeforeYear(year)
    requires daysBefore <= dayOfCycle < DAYS_PER_CYCLE
    ensures year <= y < 400
    ensures DaysBeforeYear(y) <= dayOfCycle < DaysBeforeYear(y + 1)
    decreases 400 - year
  {
    DaysBeforeYearStep(year);
    var daysAfter := daysBefore + YearLength(year);
    if dayOfCycle < daysAfter then year
    else YearOfCycleDay(dayOfCycle, year + 1, daysAfter)
  }

  /** The month that holds the 0-based `dayOfYear`, searched upwards from `month`. */
  function MonthOfYearDay(year: int, dayOfYear: int, month: int): (m: int)
    requires 1 <= month <= 12
    requires DaysBeforeMonth(year, month) <= dayOfYear < YearLength(year)
    ensures month <= m <= 12
    ensures DaysBeforeMonth(year, m) <= dayOfYear < DaysBeforeMonth(year, m + 1)
    decreases 12 - month
  {
    if dayOfYear < DaysBeforeMonth(year, month + 1) then month
    else MonthOfYearDay(year, dayOfYear, month + 1)
  }

  /** `LocalDate.toEpochDay`. */
  function EpochDay(d: LocalDate): int
    requires 1 <= d.month <= 12
  {
    DaysBeforeYear(d.year) + DaysBeforeMonth(d.year, d.month) + d.day - 1 - DAYS_0000_TO_1970
  }

  /** A year and a 0-based day within it. */
  datatype YearDay = YearDay(year: int, dayOfYear: int)

  /** The year that holds day `zeroDay` counted from 0000-01-01, and the 0-based
      day within that year: whole 400-year cycles first, then the year of the cycle. */
  function YearOfZeroDay(zeroDay: int): (r: YearDay)
    ensures DaysBeforeYear(r.year) + r.dayOfYear == zeroDay
    ensures 0 <= r.dayOfYear < YearLength(r.year)
  {
    var dayOfCycle := zeroDay % DAYS_PER_CYCLE;
    assert DaysBeforeYear(0) == 0;
    var yearOfCycle := YearOfCycleDay(dayOfCycle, 0, 0);
    var year := 400 * (zeroDay / DAYS_PER_CYCLE) + yearOfCycle;
    CycleYear(zeroDay, yearOfCycle, year);
    YearDay(year, zeroDay - DaysBeforeYear(year))
  }

  /** The year found within a cycle, moved to the cycle of `zeroDay`, holds `zeroDay`. */
  lemma CycleYear(zeroDay: int, yearOfCycle: int, year: int)
    requires DaysBeforeYear(yearOfCycle) <= zeroDay % DAYS_PER_CYCLE < DaysBeforeYear(yearOfCycle + 1)
    requires year == 400 * (zeroDay / DAYS_PER_CYCLE) + yearOfCycle
    ensures DaysBeforeYear(year) <= zeroDay < DaysBeforeYear(year) + YearLength(year)
  {
    var cycle := zeroDay / DAYS_PER_CYCLE;
    assert zeroDay == DAYS_PER_CYCLE * cycle + zeroDay % DAYS_PER_CYCLE;
    DaysBeforeYearCycle(cycle, yearOfCycle);
    DaysBeforeYearStep(yearOfCycle);
  }

  /** The calendar date of the 0-based `dayOfYear` of `year`. */
  function DateOfYearDay(year: int, dayOfYear: int): (d: LocalDate)
    requires 0 <= dayOfYear < YearLength(year)
    ensures IsCalendarDate(d) && d.year == year
    ensures DaysBeforeMonth(year, d.month) + d.day - 1 == dayOfYear
  {
    DaysBeforeMonthStep(year, 1);
    var month := MonthOfYearDay(year, dayOfYear, 1);
    DaysBeforeMonthStep(year, month);
    LocalDate(year, month, dayOfYear - DaysBeforeMonth(year, month) + 1)
  }

  /** `LocalDate.ofEpochDay` without its range check: the calendar date `epochDay`
      days after 1970-01-01. */
  function FromEpochDay(epochDay: int): (d: LocalDate)
    ensures IsCalendarDate(d)
    ensures EpochDay(d) == epochDay
  {
    var yearDay := YearOfZeroDay(epochDay + DAYS_0000_TO_1970);
    DateOfYearDay(yearDay.year, yearDay.dayOfYear)
  }

  /** Epoch days are one-to-one on calendar dates. */
  lemma EpochDayInjective(a: LocalDate, b: LocalDate)
    requires IsCalendarDate(a) && IsCalendarDate(b)
    requires EpochDay(a) == EpochDay(b)
    ensures a == b
  {
    if DateBefore(a, b) {
      EpochDayBefore(a, b);
    } else if DateBefore(b, a) {
      EpochDayBefore(b, a);
    }
  }

  /** Every calendar date comes back from its epoch day. */
  lemma EpochDayRoundTrip(d: LocalDate)
    requires IsCalendarDate(d)
    ensures FromEpochDay(EpochDay(d)) == d
  {
    EpochDayInjective(FromEpochDay(EpochDay(d)), d);
  }

  /** Calendar order and epoch-day order agree. */
  lemma EpochDayOrder(a: LocalDate, b: LocalDate)
    requires IsCalendarDate(a) && IsCalendarDate(b)
    ensures DateBefore(a, b) <==> EpochDay(a) < EpochDay(b)
  {
    if DateBefore(a, b) {
      EpochDayBefore(a, b);
    } else if a != b {
      assert DateBefore(b, a);
      EpochDayBefore(b, a);
    }
  }

  lemma EpochDayBefore(a: LocalDate, b: LocalDate)
    requires IsCalendarDate(a) && IsCalendarDate(b)
    requires DateBefore(a, b)
    ensures EpochDay(a) < EpochDay(b)
  {
    if a.year < b.year {
      DayInYear(a);
      DayInYear(b);
      DaysBeforeYearMonotone(a.year + 1, b.year);
    } else if a.month < b.month {
      DaysBeforeMonthStep(a.year, a.month);
      DaysBeforeMonthMonotone(a.year, a.month + 1, b.month);
    }
  }
}
