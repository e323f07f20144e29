# IntervalStep of CosId, in Dafny

CosId's time-interval sharding splits a time-line into buckets of equal calendar
length and stores each bucket in its own table. `IntervalStep` is the immutable value
that describes one bucket length: a `ChronoUnit` and an `int` amount. It offers three
operations:

- `next(previous)` moves a `LocalDateTime` one bucket on (`previous.plus(amount, unit)`).
- `floorUnit(time)` truncates a date-time to the unit: it keeps the fields down to the
  unit and resets the finer ones.
- `offsetUnit(start, time)` numbers the bucket that `time` falls in, counted from
  `start`: `(int) (start.until(time, unit) / amount)`.

These operations only mean something together with the `java.time` arithmetic they
call, so the project models that arithmetic too. The `java.time` source is not part of
this model. Its behaviour is written from the library's behaviour for `LocalDateTime`,
`LocalDate` and `ChronoUnit` as the JDK implements it. Where the implementation goes
beyond or against the documentation, the model follows the implementation:
- `plus(amount, HALF_DAYS)` adds `amount / 256` days and then `(amount % 256) * 12`
  hours. That is `amount` half days only while abs(amount) < 256; 256 half days move a
  single day (see Findings).
- `until` for date-based units shifts the end date by one day when the time of day
  crosses, and counts months through a packed `month * 32 + day` value.

| module | file | contents |
|---|---|---|
| `JavaArith` | `java_arith.dfy` | `int`/`long` ranges; Java's `/` truncating toward zero; the `long` quotient, including `Long.MIN_VALUE / -1` wrapping; the `(int)` narrowing cast |
| `ChronoUnits` | `chrono_unit.dfy` | the sixteen `ChronoUnit` values; unit lengths in nanoseconds; months per month-based unit |
| `Outcome` | `outcome.dfy` | the exceptions that can be thrown, and a `Result` type carrying either a value or one of them |
| `IsoCalendar` | `iso_calendar.dfy` | the proleptic Gregorian calendar; `LocalDate.toEpochDay` (`EpochDay`) and `LocalDate.ofEpochDay` (`FromEpochDay`) and their round trip; date order |
| `LocalTimes`, `LocalDateTimes` | `local_time.dfy`, `local_date_time.dfy` | time of day; date-time; the linear nanosecond encoding and its order |
| `DateTimeArithmetic` | `date_time_arith.dfy` | `LocalDateTime.plus(amount, unit)` (`Plus`) and `LocalDateTime.until(end, unit)` (`Until`) for every unit, with the `java.time` methods they dispatch to: `plusNanos`/`plusHours` (`PlusNanos`), `plusDays` (`PlusDays`), the `HALF_DAYS` chain `plusDays(…).plusHours(…)` (`PlusHalfDays`, `PlusDaysThenHours`), `plusMonths` (`PlusMonths`), `plusYears` (`PlusYears`), `with(ERA, …)` (`PlusEras`), `resolvePreviousValid` (`ResolvePreviousValid`), `daysUntil` and `monthsUntil` (`DateUntil`, `MonthsUntil`) |
| `DateTimeLaws` | `date_time_laws.dfy` | the laws of `plus` and `until` that the bucket operations rely on |
| `Sharding` | `interval_step.dfy` | `IntervalStep` itself |

The exceptions are modelled as `Failure` values:
- `DateTimeException`: out of range.
- `UnsupportedTemporalTypeException` for `FOREVER`.
- `ArithmeticException`: overflow or `/ by zero`.
- `IllegalStateException` from `floorUnit`.

## Model

Paths are relative to the repository root. `IntervalStep.java` stands for
`cosid-core/src/main/java/me/ahoo/cosid/sharding/IntervalStep.java`. In the table the
full path is written out.

| member | source | states |
|---|---|---|
| Sharding.Of | cosid-core/src/main/java/me/ahoo/cosid/sharding/IntervalStep.java:93-95 | `of(unit)` is `of(unit, DEFAULT_AMOUNT)`, and its amount is 1 |
| Sharding.OfAmount | cosid-core/src/main/java/me/ahoo/cosid/sharding/IntervalStep.java:97-99 | `of(unit, amount)` builds the step through the constructor (lines 33-36), whose getters (lines 38-44) give back exactly the unit and amount passed in; no amount is rejected |
| Sharding.Next | cosid-core/src/main/java/me/ahoo/cosid/sharding/IntervalStep.java:46-48 | `next` yields a valid date-time or fails; `FOREVER` fails as unsupported, every other unit fails only as out of range. It is `plus` as the JDK computes it, `HALF_DAYS` split included; `NextFixedLength` and `NextMonthBased` state where it lands |
| Sharding.NextZeroAmountStays | cosid-core/src/main/java/me/ahoo/cosid/sharding/IntervalStep.java:46-48 | a zero amount returns `previous` unchanged for every unit except `FOREVER`, which always fails |
| Sharding.NextIsLater | cosid-core/src/main/java/me/ahoo/cosid/sharding/IntervalStep.java:46-48 | with a positive amount, a successful `next` is strictly later than `previous` |
| Sharding.NextFixedLength | cosid-core/src/main/java/me/ahoo/cosid/sharding/IntervalStep.java:46-48 | for units up to `WEEKS`, `next` lands exactly `UnitsMoved(amount, unit)` × unit length nanoseconds later: amount × unit length for every unit but `HALF_DAYS`, and for `HALF_DAYS` the JDK's amount/256 days plus (amount%256) × 12 hours. It fails exactly when that point lies outside `LocalDateTime.MIN..MAX` |
| Sharding.NextMonthBased | cosid-core/src/main/java/me/ahoo/cosid/sharding/IntervalStep.java:46-48 | for `MONTHS` up to `MILLENNIA`, the month count moves by amount × months per unit; the day is clamped to the month reached and the time of day is kept; it fails exactly when the year leaves the range |
| Sharding.FloorUnit | cosid-core/src/main/java/me/ahoo/cosid/sharding/IntervalStep.java:56-79 | succeeds exactly for `YEARS`, `MONTHS`, `DAYS`, `HOURS`, `MINUTES` and `SECONDS`; every other unit fails with the unexpected unit. The result is valid, agrees with `time` on every field down to the unit, and has every finer field at its first value (month and day 1, time fields 0) |
| Sharding.FloorUnitIsUnique | cosid-core/src/main/java/me/ahoo/cosid/sharding/IntervalStep.java:56-79 | a date-time equals the floor if and only if it is truncated to the unit and agrees with `time` down to the unit |
| Sharding.FloorUnitNotAfter | cosid-core/src/main/java/me/ahoo/cosid/sharding/IntervalStep.java:58-75 | the floor is never after `time` |
| Sharding.FloorUnitIdempotent | cosid-core/src/main/java/me/ahoo/cosid/sharding/IntervalStep.java:56-75 | flooring the floor gives the floor again |
| Sharding.FloorUnitIsGreatest | cosid-core/src/main/java/me/ahoo/cosid/sharding/IntervalStep.java:56-75 | every valid date-time that is truncated to the unit and not after `time` is at or before the floor |
| Sharding.FloorUnitIgnoresAmount | cosid-core/src/main/java/me/ahoo/cosid/sharding/IntervalStep.java:57-77 | the floor is the same whatever the amount |
| Sharding.FloorDayIsFirst | cosid-core/src/main/java/me/ahoo/cosid/sharding/IntervalStep.java:58-63 | flooring to `YEARS` or `MONTHS` lands on day 1 |
| Sharding.NextFromFirstKeepsDay | cosid-core/src/main/java/me/ahoo/cosid/sharding/IntervalStep.java:46-48 | a month-based step taken from the first of a month lands on the first of a month, so it never clamps |
| Sharding.CastQuotient | cosid-core/src/main/java/me/ahoo/cosid/sharding/IntervalStep.java:90 | `(int) (units / amount)` is congruent modulo 2^32 to the quotient truncated toward zero, and equal to it when that quotient fits in an `int` |
| Sharding.CastIndex | cosid-core/src/main/java/me/ahoo/cosid/sharding/IntervalStep.java:90 | a failure of `until` passes through; a zero amount is a division by zero; otherwise the result is the wrapped truncated quotient |
| Sharding.OffsetUnit | cosid-core/src/main/java/me/ahoo/cosid/sharding/IntervalStep.java:89-91 | succeeds exactly when `until` succeeds and the amount is non-zero. Its errors are those of `until`, or division by zero. The value is congruent modulo 2^32 to `until` / amount truncated toward zero, and equal to it when that quotient fits in an `int` |
| Sharding.ExactQuotient | cosid-core/src/main/java/me/ahoo/cosid/sharding/IntervalStep.java:90 | corrected form of the quotient: the truncated quotient when it fits in an `int`, an overflow failure otherwise |
| Sharding.ExactIndex | cosid-core/src/main/java/me/ahoo/cosid/sharding/IntervalStep.java:90 | corrected form of the index: it succeeds exactly when the distance is known, the amount is non-zero and the quotient fits; its value is then exactly the truncated quotient |
| Sharding.OffsetUnitExact | cosid-core/src/main/java/me/ahoo/cosid/sharding/IntervalStep.java:89-91 | corrected `offsetUnit`: exactly `until` / amount truncated toward zero; it fails with `until`'s error, division by zero or overflow, in that order of precedence |
| Sharding.CastIndexAgreesWhenInRange | cosid-core/src/main/java/me/ahoo/cosid/sharding/IntervalStep.java:90 | the as-written and corrected indices agree whenever the corrected one succeeds or the distance fails; when only the quotient overflows, the as-written one still answers |
| Sharding.OffsetAgreesWhenInRange | cosid-core/src/main/java/me/ahoo/cosid/sharding/IntervalStep.java:89-91 | as-written and corrected `offsetUnit` agree except where the exact index overflows an `int`; there the as-written one returns a (wrapped) value |
| Sharding.ExactIndexMonotone | cosid-core/src/main/java/me/ahoo/cosid/sharding/IntervalStep.java:90 | the exact index is non-decreasing in the distance for a positive amount and non-increasing for a negative one |
| Sharding.OffsetAtStartIsZero | cosid-core/src/main/java/me/ahoo/cosid/sharding/IntervalStep.java:81-91 | "Start with 0": the offset of `start` from itself is 0, for every unit except `FOREVER` and every non-zero amount |
| Sharding.OffsetOfNextIsOne | cosid-core/src/main/java/me/ahoo/cosid/sharding/IntervalStep.java:89-91 | the offset of `next(start)` from `start` is 1, for every unit and any non-zero amount, as-written and corrected alike, unless a month-based `plus` had to clamp the day of the month (the result's day differs from the start's) or the unit is `HALF_DAYS` with abs(amount) ≥ 256 (see `OffsetOfNextHalfDaysIsZero`) |
| Sharding.OffsetOfNextHalfDaysIsZero | cosid-core/src/main/java/me/ahoo/cosid/sharding/IntervalStep.java:46-48 | with `HALF_DAYS` and abs(amount) ≥ 256, the offset of `next(start)` from `start` is 0, as-written and corrected alike: `next` moves fewer half days than one bucket holds |
| Sharding.NextAsDocumented | cosid-core/src/main/java/me/ahoo/cosid/sharding/IntervalStep.java:46-48 | `next` as `plus` is documented: a `HALF_DAYS` step moves exactly amount × 12 hours and fails exactly outside the range; every other unit steps as `next` does |
| Sharding.OffsetOfNextAsDocumentedIsOne | cosid-core/src/main/java/me/ahoo/cosid/sharding/IntervalStep.java:46-48 | with the documented `plus`, the offset of one step after `start` is 1 for every non-zero amount, `HALF_DAYS` included (month-based units again without a clamp) |
| Sharding.OffsetOfNextFromFloorIsOne | cosid-core/src/main/java/me/ahoo/cosid/sharding/IntervalStep.java:89-91 | from a floored start, one `next` later is always bucket 1, for the as-written `offsetUnit` and the corrected one |
| Sharding.OffsetExactMonotone | cosid-core/src/main/java/me/ahoo/cosid/sharding/IntervalStep.java:89-91 | the corrected offset never decreases as `time` moves later for a positive amount, and never increases for a negative one |
| Sharding.OffsetExactNotPositiveBefore | cosid-core/src/main/java/me/ahoo/cosid/sharding/IntervalStep.java:89-91 | a `time` before `start` has corrected offset at most 0 for a positive amount |
| Sharding.SecondsPastEpoch | cosid-core/src/main/java/me/ahoo/cosid/sharding/IntervalStep.java:90 | `until` in `SECONDS` from 1970-01-01T00:00 to 2038-01-19T03:14:07 is 2^31 - 1, and to 2038-01-19T03:14:08 it is 2^31 |
| Sharding.OffsetWrapsPastIntRange | cosid-core/src/main/java/me/ahoo/cosid/sharding/IntervalStep.java:90 | with one-second buckets from 1970-01-01T00:00, the as-written offset is `Integer.MAX_VALUE` at 03:14:07 on 2038-01-19 and `Integer.MIN_VALUE` one second later; the corrected offset reports overflow |
| Sharding.HalfDaysStepFallsShort | cosid-core/src/main/java/me/ahoo/cosid/sharding/IntervalStep.java:46-48 | with 256 half days per bucket from 1970-01-01T00:00, `next` lands on 1970-01-02T00:00, which is still bucket 0; the documented step lands on 1970-05-09T00:00 |
| DateTimeArithmetic.Plus | cosid-core/src/main/java/me/ahoo/cosid/sharding/IntervalStep.java:47 | `previous.plus(amount, unit)` gives a valid date-time or fails; `FOREVER` fails as unsupported and every other unit only as out of range |
| DateTimeArithmetic.PlusHalfDays | cosid-core/src/main/java/me/ahoo/cosid/sharding/IntervalStep.java:47 | `plus(amount, HALF_DAYS)` as the JDK computes it moves `HalfDaysMoved(amount)` half days (amount/256 days plus (amount%256) × 12 hours) and fails exactly when that leaves the range |
| DateTimeArithmetic.PlusDaysThenHours | cosid-core/src/main/java/me/ahoo/cosid/sharding/IntervalStep.java:47 | `plusDays(days).plusHours(hours)` moves days × 24 + hours hours; for days and hours of the same sign it fails exactly when the end point leaves the range, since the intermediate date lies between |
| DateTimeArithmetic.PlusMonths | cosid-core/src/main/java/me/ahoo/cosid/sharding/IntervalStep.java:47 | `plusMonths` moves the month count by the argument, keeps the time of day, clamps the day to the new month's length, and fails exactly when the resulting year leaves the range |
| DateTimeArithmetic.PlusYears | cosid-core/src/main/java/me/ahoo/cosid/sharding/IntervalStep.java:47 | `plusYears` moves the month count by twelve per year, keeps the time of day, clamps 29 February, and fails exactly when the year leaves the range |
| DateTimeArithmetic.PlusEras | cosid-core/src/main/java/me/ahoo/cosid/sharding/IntervalStep.java:47 | `plus(amount, ERAS)` moves the era by the amount, maps year `y` to `1 - y` when the era switches, keeps the month and the time of day and clamps the day; it succeeds exactly when the era stays 0 or 1 and a switched year stays in range |
| DateTimeArithmetic.Until | cosid-core/src/main/java/me/ahoo/cosid/sharding/IntervalStep.java:90 | `start.until(time, unit)` fits a `long` when it succeeds; `FOREVER` fails as unsupported and every other unit only as overflow |
| DateTimeArithmetic.UntilFailsOnlyBelowSeconds | cosid-core/src/main/java/me/ahoo/cosid/sharding/IntervalStep.java:90 | only `NANOS`, `MICROS` and `MILLIS` can overflow in `until`; every other unit except `FOREVER` always succeeds |
| DateTimeLaws.PlusZeroIsIdentity | cosid-core/src/main/java/me/ahoo/cosid/sharding/IntervalStep.java:47 | adding zero of any unit except `FOREVER` returns the date-time unchanged |
| DateTimeLaws.PlusFixedLength | cosid-core/src/main/java/me/ahoo/cosid/sharding/IntervalStep.java:47 | fixed-length units move the time-line position by exactly `UnitsMoved(amount, unit)` × unit length (amount × unit length, except `HALF_DAYS` from 256 on, where the JDK's day split moves amount/256 days plus (amount%256) × 12 hours), and fail exactly outside the range |
| DateTimeLaws.HalfDaysMovedIsAmount | cosid-core/src/main/java/me/ahoo/cosid/sharding/IntervalStep.java:47 | `plus(amount, HALF_DAYS)` moves `amount` half days if and only if abs(amount) < 256; otherwise it moves strictly fewer, in the same direction |
| DateTimeLaws.UnitsMovedIsAmount | cosid-core/src/main/java/me/ahoo/cosid/sharding/IntervalStep.java:47 | a fixed-length `plus` moves `amount` units if and only if the unit is not `HALF_DAYS` or abs(amount) < 256; the units moved fit an `int` and have the amount's sign |
| DateTimeLaws.PlusMonthBased | cosid-core/src/main/java/me/ahoo/cosid/sharding/IntervalStep.java:47 | month-based units move the month count by amount × months per unit, clamp the day and keep the time of day; they fail exactly outside the year range |
| DateTimeLaws.PlusPositiveIsLater | cosid-core/src/main/java/me/ahoo/cosid/sharding/IntervalStep.java:47 | a successful `plus` of a positive amount lands strictly later |
| DateTimeLaws.UntilSelfIsZero | cosid-core/src/main/java/me/ahoo/cosid/sharding/IntervalStep.java:90 | `until` from a date-time to itself is 0 in every unit except `FOREVER` |
| DateTimeLaws.UntilFixedLength | cosid-core/src/main/java/me/ahoo/cosid/sharding/IntervalStep.java:90 | for fixed-length units, `until` is the nanosecond distance divided by the unit length, truncated toward zero; `DAYS` and `WEEKS` never fail |
| DateTimeLaws.UntilMonotone | cosid-core/src/main/java/me/ahoo/cosid/sharding/IntervalStep.java:90 | `until` from a fixed start never decreases as the end moves later, in every unit |
| DateTimeLaws.UntilEarlierIsNotPositive | cosid-core/src/main/java/me/ahoo/cosid/sharding/IntervalStep.java:90 | `until` to an end before the start is at most 0 |
| DateTimeLaws.UntilAfterPlus | cosid-core/src/main/java/me/ahoo/cosid/sharding/IntervalStep.java:90 | `until` undoes `plus`: from `t` to `t.plus(amount, unit)` is exactly the units `plus` moved, for every unit, unless a month-based `plus` had to clamp the day of the month (the result's day differs from `t`'s). That is `amount` except for `HALF_DAYS` from 256 on (`UnitsMovedIsAmount`) |
| JavaArith.LongDiv | cosid-core/src/main/java/me/ahoo/cosid/sharding/IntervalStep.java:90 | `long` division stays in `long` and truncates toward zero; the single exception is `Long.MIN_VALUE / -1`, which wraps |
| JavaArith.NarrowToInt | cosid-core/src/main/java/me/ahoo/cosid/sharding/IntervalStep.java:90 | the `(int)` cast gives the `int` congruent to its argument modulo 2^32, and leaves `int` values unchanged |

## Left out

- Only `IntervalStep.java` is modelled. The rest of the repository is outside this model: the Snowflake and segment generators, the machine-id distributors, the Spring configuration and endpoints, and `LocalDateTimeConvert`.
- A `null` unit or date-time, and the resulting `NullPointerException`, is not modelled. The datatypes have no null.
- Time zones and daylight saving are outside the model. `IntervalStep` works on zone-less `LocalDateTime` only.
- `@Immutable` is not a separate property. The Dafny datatype is immutable by construction, and its fields play the part of `getUnit` and `getAmount`.
- Sharding.FloorUnit: the range checks of `LocalDateTime.of` are not modelled as a failure path. The fields always come from a valid date-time, so they can never fail.
- DateTimeArithmetic.Until: for time-based units, the model states the overflow check on the final quotient (it fails exactly when the quotient leaves `long`). The intermediate `Math.multiplyExact`/`Math.addExact` steps inside `java.time` are not modelled one by one.
- DateTimeArithmetic.Until: for date-based units, the model follows `java.time`'s algorithm. When the time of day crosses, the end date moves back or forward one day. Then whole days, or whole months through a packed `month * 32 + day` count, are divided by the unit. That algorithm comes from the library's behaviour; it is not in this repository.
- Sharding.OffsetOfNextIsOne: for month-based units, stated only where `plus` keeps the day of the month. After a clamp the offset can be 0: 2021-01-31 plus one month is 2021-02-28, and `until` between the two is 0 months. For `HALF_DAYS` it is stated only for abs(amount) < 256; Sharding.OffsetOfNextHalfDaysIsZero proves the offset is 0 beyond that. `ERAS` and the other fixed-length units have no condition.
- DateTimeLaws.UntilAfterPlus: carries the same day-of-month condition for month-based units, for the same reason. It gives back the units `plus` actually moved, which differ from the amount for `HALF_DAYS` from 256 on.
- Sharding.OffsetOfNextAsDocumentedIsOne: carries the same day-of-month condition for month-based units.
- Sharding.OffsetExactMonotone and Sharding.OffsetExactNotPositiveBefore: stated for the corrected offset. The as-written offset is not monotone once the index leaves the `int` range (see Findings). Sharding.OffsetAgreesWhenInRange carries these properties over wherever the index fits.

## Findings

| source | as written | input that shows it | evidently intended | confidence | as-written member | corrected member |
|---|---|---|---|---|---|---|
| cosid-core/src/main/java/me/ahoo/cosid/sharding/IntervalStep.java:90 | `(int)` keeps the low 32 bits of the `long` bucket index, so an index beyond the `int` range wraps silently | `SECONDS`, amount 1, start 1970-01-01T00:00: 2038-01-19T03:14:07 gets index 2147483647, and one second later 2038-01-19T03:14:08 gets -2147483648. The same happens with `MILLIS` after about 24.8 days | a bucket index that never decreases as time moves on, or an `ArithmeticException` (`Math.toIntExact`) when it does not fit | not executed; low to medium (real sharding configurations rarely reach 2^31 buckets) | Sharding.OffsetUnit (shown by Sharding.OffsetWrapsPastIntRange) | Sharding.OffsetUnitExact (with Sharding.OffsetExactMonotone and Sharding.OffsetExactNotPositiveBefore) |
| cosid-core/src/main/java/me/ahoo/cosid/sharding/IntervalStep.java:46-48 | `next` is `previous.plus(amount, unit)`. For `HALF_DAYS` the JDK's `LocalDateTime.plus` computes `plusDays(amount / 256).plusHours((amount % 256) * 12)`, so 256 half days move one day, not 128. The defect is in the JDK, and `next` inherits it | `HALF_DAYS`, amount 256, from 1970-01-01T00:00: `next` gives 1970-01-02T00:00 instead of 1970-05-09T00:00, and `offsetUnit` of that result is 0, so the next bucket's start still lies in bucket 0 | `next` moves amount × 12 hours, as `plus` is documented, so that one step later is bucket 1 | not executed; read from the JDK 21 `LocalDateTime.plus` source; high for the arithmetic, low in practice (a `HALF_DAYS` step of 256 or more is unusual) | Sharding.Next (shown by Sharding.HalfDaysStepFallsShort and Sharding.OffsetOfNextHalfDaysIsZero) | Sharding.NextAsDocumented (with Sharding.OffsetOfNextAsDocumentedIsOne) |
