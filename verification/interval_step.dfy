/** `IntervalStep`: the unit and amount by which time-interval sharding walks its
    time buckets (`next`), aligns a date-time to the unit (`floorUnit`) and
    numbers the bucket a date-time falls in (`offsetUnit`). */
module Sharding {
  import opened JavaArith
  import opened ChronoUnits
  import opened Outcome
  import opened IsoCalendar
  import opened LocalTimes
  import opened LocalDateTimes
  import opened DateTimeArithmetic
  import opened DateTimeLaws

  /** `IntervalStep.DEFAULT_AMOUNT`. */
  const DEFAULT_AMOUNT: Int32 := 1

  /** An immutable step; the fields are the getters `getUnit` and `getAmount`.
      The constructor accepts any amount, zero and negative ones included. */
  datatype IntervalStep = IntervalStep(unit: ChronoUnit, amount: Int32)

  /** `IntervalStep.of(unit)`: one unit per step. */
  function Of(unit: ChronoUnit): (s: IntervalStep)
    ensures s == OfAmount(unit, DEFAULT_AMOUNT)
    ensures s.amount == 1
  {
    IntervalStep(unit, DEFAULT_AMOUNT)
  }

  /** `IntervalStep.of(unit, amount)`: the getters give back exactly the arguments. */
  function OfAmount(unit: ChronoUnit, amount: Int32): (s: IntervalStep)
    ensures s.unit == unit && s.amount == amount
  {
    IntervalStep(unit, amount)
  }

  // ---------------------------------------------------------------- next

  /** `next(previous)`: `previous.plus(amount, unit)`. */
  function Next(step: IntervalStep, previous: LocalDateTime): (r: Result<LocalDateTime>)
    requires IsValid(previous)
    ensures r.Success? ==> IsValid(r.value)
    ensures r.Failure? ==> r.error == (if step.unit == Forever then UnsupportedUnit(Forever) else DateTimeOutOfRange)
  {
    Plus(previous, step.amount, step.unit)
  }

  /** A step of zero units stays put (every unit but `FOREVER`, which `plus` rejects). */
  lemma NextZeroAmountStays(step: IntervalStep, previous: LocalDateTime)
    requires IsValid(previous) && step.amount == 0
    ensures step.unit != Forever ==> Next(step, previous) == Success(previous)
    ensures step.unit == Forever ==> Next(step, previous) == Failure(UnsupportedUnit(Forever))
  {
    if step.unit != Forever {
      PlusZeroIsIdentity(previous, step.unit);
    }
  }

  /** A step of a positive amount moves strictly later, so walking a time-line
      with `next` never revisits a bucket. */
  lemma NextIsLater(step: IntervalStep, previous: LocalDateTime)
    requires IsValid(previous) && step.amount >= 1
    requires Next(step, previous).Success?
    ensures IsBefore(previous, Next(step, previous).value)
  {
    PlusPositiveIsLater(previous, step.amount, step.unit);
  }

  /** A fixed-length unit moves the date-time by exactly `UnitsMoved(amount, unit)`
      times its length, and fails exactly when the result leaves `LocalDateTime`'s
      range. That is `amount` units, except for `HALF_DAYS` beyond 255, where the
      JDK's day split moves fewer (`UnitsMovedIsAmount`). */
  lemma NextFixedLength(step: IntervalStep, previous: LocalDateTime)
    requires IsValid(previous) && IsFixedLength(step.unit)
    ensures Next(step, previous).Success? <==>
      EpochNanos(MIN_DATE_TIME) <= EpochNanos(previous) + UnitsMoved(step.amount, step.unit) * UnitNanos(step.unit) <= EpochNanos(MAX_DATE_TIME)
    ensures Next(step, previous).Success? ==>
      EpochNanos(Next(step, previous).value) == EpochNanos(previous) + UnitsMoved(step.amount, step.unit) * UnitNanos(step.unit)
  {
    PlusFixedLength(previous, step.amount, step.unit);
  }

  /** A month-based unit moves the month count by exactly `amount` units, keeps the
      time of day and clamps the day to the length of the month reached. */
  lemma NextMonthBased(step: IntervalStep, previous: LocalDateTime)
    requires IsValid(previous) && IsMonthBased(step.unit)
    ensures Next(step, previous).Success? <==>
      InYearRange((ProlepticMonth(previous.date) + step.amount * MonthsPerUnit(step.unit)) / 12)
    ensures Next(step, previous).Success? ==>
      var r := Next(step, previous).value;
      && ProlepticMonth(r.date) == ProlepticMonth(previous.date) + step.amount * MonthsPerUnit(step.unit)
      && r.date.day == Min(previous.date.day, MonthLength(r.date.year, r.date.month))
      && r.time == previous.time
  {
    PlusMonthBased(previous, step.amount, step.unit);
  }

  // ----------------------------------------------------------- floorUnit

  /** The units `floorUnit` accepts. */
  predicate IsFloorUnit(unit: ChronoUnit) {
    unit in {Years, Months, Days, Hours, Minutes, Seconds}
  }

  /** The fields of a date-time, coarsest first: year, month, day, hour, minute,
      second, nano. */
  function Fields(t: LocalDateTime): seq<int> {
    [t.date.year, t.date.month, t.date.day, t.time.hour, t.time.minute, t.time.second, t.time.nano]
  }

  /** The position in `Fields` of the finest field that truncation to `unit` keeps. */
  function FinestKept(unit: ChronoUnit): (i: nat)
    requires IsFloorUnit(unit)
    ensures i < 6
  {
    match unit
    case Years => 0
    case Months => 1
    case Days => 2
    case Hours => 3
    case Minutes => 4
    case Seconds => 5
  }

  /** The first value of each field below the year: month and day count from 1,
      the time-of-day fields from 0. */
  function FieldStart(i: int): int
    requires 1 <= i < 7
  {
    if i <= 2 then 1 else 0
  }

  /** Every field finer than `unit` holds its first value. */
  predicate IsTruncatedTo(t: LocalDateTime, unit: ChronoUnit)
    requires IsFloorUnit(unit)
  {
    forall i | FinestKept(unit) < i < 7 :: Fields(t)[i] == FieldStart(i)
  }

  /** `a` and `b` agree on every field at or coarser than `unit`. */
  predicate AgreesDownTo(a: LocalDateTime, b: LocalDateTime, unit: ChronoUnit)
    requires IsFloorUnit(unit)
  {
    forall i | 0 <= i <= FinestKept(unit) :: Fields(a)[i] == Fields(b)[i]
  }

  /** A date-time is determined by its fields. */
  lemma FieldsDetermine(a: LocalDateTime, b: LocalDateTime)
    requires forall i | 0 <= i < 7 :: Fields(a)[i] == Fields(b)[i]
    ensures a == b
  {
    assert Fields(a)[0] == Fields(b)[0] && Fields(a)[1] == Fields(b)[1] && Fields(a)[2] == Fields(b)[2];
    assert Fields(a)[3] == Fields(b)[3] && Fields(a)[4] == Fields(b)[4];
    assert Fields(a)[5] == Fields(b)[5] && Fields(a)[6] == Fields(b)[6];
  }

  /** `floorUnit(time)`: keeps the fields down to `unit` and resets the finer ones;
      any other unit is an `IllegalStateException`. The amount plays no part. */
  function FloorUnit(step: IntervalStep, time: LocalDateTime): (r: Result<LocalDateTime>)
    requires IsValid(time)
    ensures r.Success? <==> IsFloorUnit(step.unit)
    ensures r.Failure? ==> r.error == UnexpectedUnit(step.unit)
    ensures r.Success? ==>
      && IsValid(r.value)
      && IsTruncatedTo(r.value, step.unit)
      && AgreesDownTo(r.value, time, step.unit)
  {
    var d := time.date;
    var c := time.time;
    match step.unit
    case Years => Success(LocalDateTime(LocalDate(d.year, 1, 1), MIDNIGHT))
    case Months => Success(LocalDateTime(LocalDate(d.year, d.month, 1), MIDNIGHT))
    case Days => Success(LocalDateTime(LocalDate(d.year, d.month, d.day), MIDNIGHT))
    case Hours => Success(LocalDateTime(LocalDate(d.year, d.month, d.day), LocalTime(c.hour, 0, 0, 0)))
    case Minutes => Success(LocalDateTime(LocalDate(d.year, d.month, d.day), LocalTime(c.hour, c.minute, 0, 0)))
    case Seconds =>
      Success(LocalDateTime(LocalDate(d.year, d.month, d.day), LocalTime(c.hour, c.minute, c.second, 0)))
    case _ => Failure(UnexpectedUnit(step.unit))
  }

  /** The floor is the one date-time that is truncated to the unit and agrees with
      `time` down to it. */
  lemma FloorUnitIsUnique(step: IntervalStep, time: LocalDateTime, t: LocalDateTime)
    requires IsValid(time) && IsFloorUnit(step.unit)
    ensures t == FloorUnit(step, time).value <==> IsTruncatedTo(t, step.unit) && AgreesDownTo(t, time, step.unit)
  {
    var f := FloorUnit(step, time).value;
    if IsTruncatedTo(t, step.unit) && AgreesDownTo(t, time, step.unit) {
      var k := FinestKept(step.unit);
      forall i | 0 <= i < 7
        ensures Fields(t)[i] == Fields(f)[i]
      {
        if i > k {
          assert Fields(t)[i] == FieldStart(i) == Fields(f)[i];
        } else {
          assert Fields(t)[i] == Fields(time)[i] == Fields(f)[i];
        }
      }
      FieldsDetermine(t, f);
    }
  }

  /** The floor never lies after the date-time it was taken of. */
  lemma FloorUnitNotAfter(step: IntervalStep, time: LocalDateTime)
    requires IsValid(time) && IsFloorUnit(step.unit)
    ensures !IsBefore(time, FloorUnit(step, time).value)
  {
  }

  /** Flooring a floor changes nothing. */
  lemma FloorUnitIdempotent(step: IntervalStep, time: LocalDateTime)
    requires IsValid(time) && IsFloorUnit(step.unit)
    ensures FloorUnit(step, FloorUnit(step, time).value) == FloorUnit(step, time)
  {
    var f := FloorUnit(step, time).value;
    FloorUnitIsUnique(step, f, f);
  }

  /** Every date-time truncated to the unit and not after `time` is at or before the
      floor: the floor is the greatest such date-time. */
  lemma FloorUnitIsGreatest(step: IntervalStep, time: LocalDateTime, t: LocalDateTime)
    requires IsValid(time) && IsValid(t) && IsFloorUnit(step.unit)
    requires IsTruncatedTo(t, step.unit) && !IsBefore(time, t)
    ensures !IsBefore(FloorUnit(step, time).value, t)
  {
    if AgreesDownTo(t, time, step.unit) {
      FloorUnitIsUnique(step, time, t);
    }
  }

  /** The floor depends on the unit alone, never on the amount. */
  lemma FloorUnitIgnoresAmount(unit: ChronoUnit, a: Int32, b: Int32, time: LocalDateTime)
    requires IsValid(time)
    ensures FloorUnit(OfAmount(unit, a), time) == FloorUnit(OfAmount(unit, b), time)
  {
  }

  // ---------------------------------------------------------- offsetUnit

  /** `(int) (units / amount)` on a `long` and an `int`: the quotient truncates
      toward zero, and the cast keeps its low 32 bits. */
  function CastQuotient(units: int, amount: Int32): (r: Int32)
    requires InLong(units) && amount != 0
    ensures (r - TruncDiv(units, amount)) % TWO_POW_32 == 0
    ensures InInt(TruncDiv(units, amount)) ==> r == TruncDiv(units, amount)
  {
    assert InInt(amount);
    var q := LongDiv(units, amount);
    assert q == TruncDiv(units, amount) || q == TruncDiv(units, amount) - TWO_POW_32 * TWO_POW_32;
    NarrowToInt(q)
  }

  /** `Math.toIntExact(units / amount)`: the truncated quotient, or an
      `ArithmeticException` when it does not fit in an `int`. */
  function ExactQuotient(units: int, amount: Int32): (r: Result<Int32>)
    requires InLong(units) && amount != 0
    ensures r.Success? <==> InInt(TruncDiv(units, amount))
    ensures r.Success? ==> r.value == TruncDiv(units, amount)
    ensures r.Failure? ==> r.error == ArithmeticOverflow
  {
    assert InInt(amount);
    var q := LongDiv(units, amount);
    if InInt(q) then Success(q) else Failure(ArithmeticOverflow)
  }

  /** The index `(int) (units / amount)` of a measured distance as written: an
      exception from `until` passes through, then a zero amount divides by zero. */
  function CastIndex(units: Result<int>, amount: Int32): (r: Result<Int32>)
    requires units.Success? ==> InLong(units.value)
    ensures r.Success? <==> units.Success? && amount != 0
    ensures r.Failure? ==> r.error == (if units.Failure? then units.error else DivisionByZero)
    ensures r.Success? ==> (r.value - TruncDiv(units.value, amount)) % TWO_POW_32 == 0
    ensures r.Success? && InInt(TruncDiv(units.value, amount)) ==> r.value == TruncDiv(units.value, amount)
  {
    var u :- units;
    if amount == 0 then Failure(DivisionByZero) else Success(CastQuotient(u, amount))
  }

  /** The index `Math.toIntExact(units / amount)` of a measured distance. */
  function ExactIndex(units: Result<int>, amount: Int32): (r: Result<Int32>)
    requires units.Success? ==> InLong(units.value)
    ensures r.Success? <==> units.Success? && amount != 0 && InInt(TruncDiv(units.value, amount))
    ensures r.Failure? ==>
      r.error == (if units.Failure? then units.error else if amount == 0 then DivisionByZero else ArithmeticOverflow)
    ensures r.Success? ==> r.value == TruncDiv(units.value, amount)
  {
    var u :- units;
    if amount == 0 then Failure(DivisionByZero) else ExactQuotient(u, amount)
  }

  /** Where the exact index fits in an `int` the cast changes nothing; where it
      does not, the cast still answers, with a wrapped index. */
  lemma CastIndexAgreesWhenInRange(units: Result<int>, amount: Int32)
    requires units.Success? ==> InLong(units.value)
    ensures ExactIndex(units, amount).Success? ==> CastIndex(units, amount) == ExactIndex(units, amount)
    ensures units.Success? && ExactIndex(units, amount) == Failure(ArithmeticOverflow) ==>
      CastIndex(units, amount).Success?
    ensures CastIndex(units, amount).Failure? ==> ExactIndex(units, amount) == CastIndex(units, amount)
  {
  }

  /** For a positive amount the exact index never decreases as the distance grows,
      and for a negative amount it never increases. */
  lemma ExactIndexMonotone(x: int, y: int, amount: Int32)
    requires InLong(x) && InLong(y) && x <= y
    requires ExactIndex(Success(x), amount).Success? && ExactIndex(Success(y), amount).Success?
    ensures amount > 0 ==> ExactIndex(Success(x), amount).value <= ExactIndex(Success(y), amount).value
    ensures amount < 0 ==> ExactIndex(Success(x), amount).value >= ExactIndex(Success(y), amount).value
  {
    if amount > 0 {
      TruncDivMonotone(x, y, amount);
    } else {
      TruncDivMonotone(x, y, -(amount as int));
      TruncDivNegatedDivisor(x, -(amount as int));
      TruncDivNegatedDivisor(y, -(amount as int));
    }
  }

  /** `offsetUnit(start, time)` as written: `(int) (start.until(time, unit) / amount)`. */
  function OffsetUnit(step: IntervalStep, start: LocalDateTime, time: LocalDateTime): (r: Result<Int32>)
    requires IsValid(start) && IsValid(time)
    ensures r.Success? <==> Until(start, time, step.unit).Success? && step.amount != 0
    ensures r.Failure? ==>
      r.error == (if Until(start, time, step.unit).Failure? then Until(start, time, step.unit).error else DivisionByZero)
    ensures r.Success? ==> (r.value - TruncDiv(Until(start, time, step.unit).value, step.amount)) % TWO_POW_32 == 0
    ensures r.Success? && InInt(TruncDiv(Until(start, time, step.unit).value, step.amount)) ==>
      r.value == TruncDiv(Until(start, time, step.unit).value, step.amount)
  {
    CastIndex(Until(start, time, step.unit), step.amount)
  }

  /** `offsetUnit` with the cast replaced by `Math.toIntExact`: a bucket index that
      does not fit in an `int` is an `ArithmeticException` instead of a wrapped value. */
  function OffsetUnitExact(step: IntervalStep, start: LocalDateTime, time: LocalDateTime): (r: Result<Int32>)
    requires IsValid(start) && IsValid(time)
    ensures r.Success? <==>
      && Until(start, time, step.unit).Success? && step.amount != 0
      && InInt(TruncDiv(Until(start, time, step.unit).value, step.amount))
    ensures r.Failure? ==>
      r.error == (if Until(start, time, step.unit).Failure? then Until(start, time, step.unit).error
                  else if step.amount == 0 then DivisionByZero
                  else ArithmeticOverflow)
    ensures r.Success? ==> r.value == TruncDiv(Until(start, time, step.unit).value, step.amount)
  {
    ExactIndex(Until(start, time, step.unit), step.amount)
  }

  /** Where the exact index fits in an `int`, `offsetUnit` as written gives the same
      answer; where it does not, it still answers, with a wrapped index. */
  lemma OffsetAgreesWhenInRange(step: IntervalStep, start: LocalDateTime, time: LocalDateTime)
    requires IsValid(start) && IsValid(time)
    ensures OffsetUnitExact(step, start, time).Success? ==>
      OffsetUnit(step, start, time) == OffsetUnitExact(step, start, time)
    ensures Until(start, time, step.unit).Success? && OffsetUnitExact(step, start, time) == Failure(ArithmeticOverflow) ==>
      OffsetUnit(step, start, time).Success?
    ensures OffsetUnit(step, start, time).Failure? ==> OffsetUnitExact(step, start, time) == OffsetUnit(step, start, time)
  {
    CastIndexAgreesWhenInRange(Until(start, time, step.unit), step.amount);
  }

  /** The bucket of `start` itself is bucket 0 ("Start with 0"). */
  lemma OffsetAtStartIsZero(step: IntervalStep, start: LocalDateTime)
    requires IsValid(start) && step.unit != Forever && step.amount != 0
    ensures OffsetUnitExact(step, start, start) == Success(0)
    ensures OffsetUnit(step, start, start) == Success(0)
  {
    UntilSelfIsZero(start, step.unit);
  }

  /** One step after `start` is bucket 1, whatever the sign of the amount, provided
      a month-based `plus` did not have to clamp the day of the month and a
      `HALF_DAYS` amount stays below 256 (`OffsetOfNextHalfDaysIsZero` covers the rest). */
  lemma OffsetOfNextIsOne(step: IntervalStep, start: LocalDateTime)
    requires IsValid(start) && step.amount != 0
    requires Next(step, start).Success?
    requires IsMonthBased(step.unit) ==> Next(step, start).value.date.day == start.date.day
    requires step.unit == HalfDays ==> -256 < step.amount < 256
    ensures OffsetUnitExact(step, start, Next(step, start).value) == Success(1)
    ensures OffsetUnit(step, start, Next(step, start).value) == Success(1)
  {
    UntilAfterPlus(start, step.amount, step.unit);
    UnitsMovedIsAmount(step.amount, step.unit);
    TruncDivOfMultiple(1, step.amount);
  }

  /** With `HALF_DAYS` and an amount of 256 or more either way, one step after
      `start` is still bucket 0: `next` moves fewer half days than one bucket holds. */
  lemma OffsetOfNextHalfDaysIsZero(step: IntervalStep, start: LocalDateTime)
    requires IsValid(start) && step.unit == HalfDays && !(-256 < step.amount < 256)
    requires Next(step, start).Success?
    ensures OffsetUnitExact(step, start, Next(step, start).value) == Success(0)
    ensures OffsetUnit(step, start, Next(step, start).value) == Success(0)
  {
    UntilAfterPlus(start, step.amount, step.unit);
    HalfDaysMovedIsAmount(step.amount);
    TruncDivOfSmaller(HalfDaysMoved(step.amount), step.amount);
  }

  /** `next` as `LocalDateTime.plus` documents it: a `HALF_DAYS` step moves exactly
      `amount` times 12 hours; every other unit steps as `Next` does. */
  function NextAsDocumented(step: IntervalStep, previous: LocalDateTime): (r: Result<LocalDateTime>)
    requires IsValid(previous)
    ensures step.unit != HalfDays ==> r == Next(step, previous)
    ensures r.Success? ==> IsValid(r.value)
    ensures step.unit == HalfDays ==>
      (r.Success? <==> EpochNanos(MIN_DATE_TIME) <= EpochNanos(previous) + step.amount * UnitNanos(HalfDays) <= EpochNanos(MAX_DATE_TIME))
    ensures step.unit == HalfDays && r.Success? ==>
      EpochNanos(r.value) == EpochNanos(previous) + step.amount * UnitNanos(HalfDays)
  {
    if step.unit == HalfDays then PlusNanos(previous, step.amount * UnitNanos(HalfDays))
    else Next(step, previous)
  }

  /** With the documented `plus`, one step after `start` is bucket 1 for every
      amount, `HALF_DAYS` included. */
  lemma OffsetOfNextAsDocumentedIsOne(step: IntervalStep, start: LocalDateTime)
    requires IsValid(start) && step.amount != 0
    requires NextAsDocumented(step, start).Success?
    requires IsMonthBased(step.unit) ==> NextAsDocumented(step, start).value.date.day == start.date.day
    ensures OffsetUnitExact(step, start, NextAsDocumented(step, start).value) == Success(1)
    ensures OffsetUnit(step, start, NextAsDocumented(step, start).value) == Success(1)
  {
    if step.unit == HalfDays {
      var r := NextAsDocumented(step, start).value;
      UntilFixedLength(start, r, HalfDays);
      TruncDivOfMultiple(step.amount, UnitNanos(HalfDays));
      UntilFixedLengthSucceeds(start, r, HalfDays, step.amount);
      TruncDivOfMultiple(1, step.amount);
    } else {
      OffsetOfNextIsOne(step, start);
    }
  }

  /** From a floored start no clamping can occur: one step later is bucket 1. */
  lemma OffsetOfNextFromFloorIsOne(step: IntervalStep, time: LocalDateTime)
    requires IsValid(time) && IsFloorUnit(step.unit) && step.amount != 0
    requires Next(step, FloorUnit(step, time).value).Success?
    ensures OffsetUnitExact(step, FloorUnit(step, time).value, Next(step, FloorUnit(step, time).value).value) == Success(1)
    ensures OffsetUnit(step, FloorUnit(step, time).value, Next(step, FloorUnit(step, time).value).value) == Success(1)
  {
    var start := FloorUnit(step, time).value;
    if IsMonthBased(step.unit) {
      FloorDayIsFirst(step, time);
      NextFromFirstKeepsDay(step, start);
    }
    OffsetOfNextIsOne(step, start);
  }

  /** Flooring to months or years lands on the first of the month. */
  lemma FloorDayIsFirst(step: IntervalStep, time: LocalDateTime)
    requires IsValid(time) && IsFloorUnit(step.unit)
    ensures IsMonthBased(step.unit) ==> FloorUnit(step, time).value.date.day == 1
  {
    if IsMonthBased(step.unit) {
      assert Fields(FloorUnit(step, time).value)[2] == FieldStart(2);
    }
  }

  /** A month-based step from the first of a month lands on the first of a month. */
  lemma NextFromFirstKeepsDay(step: IntervalStep, start: LocalDateTime)
    requires IsValid(start) && IsMonthBased(step.unit) && start.date.day == 1
    requires Next(step, start).Success?
    ensures Next(step, start).value.date.day == 1
  {
    NextMonthBased(step, start);
  }

  /** The exact index never decreases as `time` moves later for a positive amount,
      and never increases for a negative one. */
  lemma OffsetExactMonotone(step: IntervalStep, start: LocalDateTime, a: LocalDateTime, b: LocalDateTime)
    requires IsValid(start) && IsValid(a) && IsValid(b) && !IsBefore(b, a)
    requires OffsetUnitExact(step, start, a).Success? && OffsetUnitExact(step, start, b).Success?
    ensures step.amount > 0 ==> OffsetUnitExact(step, start, a).value <= OffsetUnitExact(step, start, b).value
    ensures step.amount < 0 ==> OffsetUnitExact(step, start, a).value >= OffsetUnitExact(step, start, b).value
  {
    UntilMonotone(start, a, b, step.unit);
    ExactIndexMonotone(Until(start, a, step.unit).value, Until(start, b, step.unit).value, step.amount);
  }

  /** A date-time before `start` has a bucket index of at most 0 for a positive amount. */
  lemma OffsetExactNotPositiveBefore(step: IntervalStep, start: LocalDateTime, time: LocalDateTime)
    requires IsValid(start) && IsValid(time) && IsBefore(time, start) && step.amount > 0
    requires OffsetUnitExact(step, start, time).Success?
    ensures OffsetUnitExact(step, start, time).value <= 0
  {
    UntilEarlierIsNotPositive(start, time, step.unit);
    TruncDivMonotone(Until(start, time, step.unit).value, 0, step.amount);
  }

  /** 1970-01-01T00:00, the start of the counter-examples below. */
  const EPOCH: LocalDateTime := LocalDateTime(LocalDate(1970, 1, 1), MIDNIGHT)

  /** 2^31 - 1 seconds after `EPOCH`: the last second whose index fits in an `int`. */
  const LAST_INT_SECOND: LocalDateTime := LocalDateTime(LocalDate(2038, 1, 19), LocalTime(3, 14, 7, 0))

  /** 2^31 seconds after `EPOCH`. */
  const FIRST_WRAPPED_SECOND: LocalDateTime := LocalDateTime(LocalDate(2038, 1, 19), LocalTime(3, 14, 8, 0))

  /** With one-second buckets counted from 1970-01-01T00:00, the cast turns the index
      of 2038-01-19T03:14:08 from 2^31 into -2^31: a later date-time gets a smaller,
      negative index than the second before it, whereas the exact index reports
      the overflow. */
  lemma OffsetWrapsPastIntRange()
    ensures IsValid(EPOCH) && IsValid(LAST_INT_SECOND) && IsValid(FIRST_WRAPPED_SECOND)
    ensures IsBefore(EPOCH, LAST_INT_SECOND) && IsBefore(LAST_INT_SECOND, FIRST_WRAPPED_SECOND)
    ensures Until(EPOCH, FIRST_WRAPPED_SECOND, Seconds) == Success(0x8000_0000)
    ensures OffsetUnit(Of(Seconds), EPOCH, LAST_INT_SECOND) == Success(INT_MAX)
    ensures OffsetUnit(Of(Seconds), EPOCH, FIRST_WRAPPED_SECOND) == Success(INT_MIN)
    ensures OffsetUnitExact(Of(Seconds), EPOCH, FIRST_WRAPPED_SECOND) == Failure(ArithmeticOverflow)
  {
    SecondsPastEpoch();
    assert OffsetUnit(Of(Seconds), EPOCH, LAST_INT_SECOND) == CastIndex(Success(0x7fff_ffff), 1);
    assert OffsetUnit(Of(Seconds), EPOCH, FIRST_WRAPPED_SECOND) == CastIndex(Success(0x8000_0000), 1);
    assert OffsetUnitExact(Of(Seconds), EPOCH, FIRST_WRAPPED_SECOND) == ExactIndex(Success(0x8000_0000), 1);
  }

  /** The whole seconds from `EPOCH` to the two date-times of the counter-example. */
  lemma SecondsPastEpoch()
    ensures IsValid(EPOCH) && IsValid(LAST_INT_SECOND) && IsValid(FIRST_WRAPPED_SECOND)
    ensures Until(EPOCH, LAST_INT_SECOND, Seconds) == Success(0x7fff_ffff)
    ensures Until(EPOCH, FIRST_WRAPPED_SECOND, Seconds) == Success(0x8000_0000)
  {
    assert EpochDay(FIRST_WRAPPED_SECOND.date) == 24_855;
    assert EpochNanos(EPOCH) == 0;
    assert EpochNanos(FIRST_WRAPPED_SECOND) == 0x8000_0000 * NANOS_PER_SECOND;
    assert EpochNanos(LAST_INT_SECOND) == 0x7fff_ffff * NANOS_PER_SECOND;
  }

  /** One day, and 128 days, after `EPOCH`. */
  const ONE_DAY_LATER: LocalDateTime := LocalDateTime(LocalDate(1970, 1, 2), MIDNIGHT)
  const HALF_DAYS_256_LATER: LocalDateTime := LocalDateTime(LocalDate(1970, 5, 9), MIDNIGHT)

  /** With buckets of 256 half days from 1970-01-01T00:00, `next` lands one day
      later instead of 128 days later, and that date-time is still in bucket 0;
      the documented step reaches 1970-05-09T00:00, which `OffsetOfNextAsDocumentedIsOne`
      puts in bucket 1. */
  lemma HalfDaysStepFallsShort()
    ensures IsValid(EPOCH) && IsValid(ONE_DAY_LATER) && IsValid(HALF_DAYS_256_LATER)
    ensures Next(OfAmount(HalfDays, 256), EPOCH) == Success(ONE_DAY_LATER)
    ensures OffsetUnit(OfAmount(HalfDays, 256), EPOCH, ONE_DAY_LATER) == Success(0)
    ensures NextAsDocumented(OfAmount(HalfDays, 256), EPOCH) == Success(HALF_DAYS_256_LATER)
  {
    HalfDaysPastEpoch();
    HalfDaysNextAsWritten();
    HalfDaysDocumentedTarget();
  }

  lemma HalfDaysNextAsWritten()
    ensures Next(OfAmount(HalfDays, 256), EPOCH) == Success(ONE_DAY_LATER)
    ensures OffsetUnit(OfAmount(HalfDays, 256), EPOCH, ONE_DAY_LATER) == Success(0)
  {
    var step := OfAmount(HalfDays, 256);
    HalfDaysPastEpoch();
    YearRangeIsTimeLineRange(ONE_DAY_LATER);
    assert TruncDiv(256, 256) == 1;
    NextFixedLength(step, EPOCH);
    assert Next(step, EPOCH).Success?;
    EpochNanosRoundTrip(Next(step, EPOCH).value);
    EpochNanosRoundTrip(ONE_DAY_LATER);
    OffsetOfNextHalfDaysIsZero(step, EPOCH);
  }

  lemma HalfDaysDocumentedTarget()
    ensures NextAsDocumented(OfAmount(HalfDays, 256), EPOCH) == Success(HALF_DAYS_256_LATER)
  {
    var r := NextAsDocumented(OfAmount(HalfDays, 256), EPOCH);
    HalfDaysPastEpoch();
    YearRangeIsTimeLineRange(HALF_DAYS_256_LATER);
    assert r.Success?;
    EpochNanosRoundTrip(r.value);
    EpochNanosRoundTrip(HALF_DAYS_256_LATER);
  }

  /** The nanoseconds from 1970-01-01T00:00 to the date-times of the counter-example. */
  lemma HalfDaysPastEpoch()
    ensures IsValid(EPOCH) && IsValid(ONE_DAY_LATER) && IsValid(HALF_DAYS_256_LATER)
    ensures EpochNanos(EPOCH) == 0
    ensures EpochNanos(ONE_DAY_LATER) == 2 * UnitNanos(HalfDays)
    ensures EpochNanos(HALF_DAYS_256_LATER) == 256 * UnitNanos(HalfDays)
  {
    assert EpochDay(ONE_DAY_LATER.date) == 1;
    assert EpochDay(HALF_DAYS_256_LATER.date) == 128;
  }
}
