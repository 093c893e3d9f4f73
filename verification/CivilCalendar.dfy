/** Day numbers and Gregorian dates (benchmarks/usb-bench-rs/src/csv.rs, epoch_days_to_ymd).

    The code's branch-free arithmetic is compared with the calendar defined by its leap-year
    rule and month lengths. */
module CivilCalendar {

  // ----- the Gregorian calendar -----

  datatype Date = Date(year: int, month: int, day: int)

  predicate IsLeap(year: int) {
    year % 4 == 0 && (year % 100 != 0 || year % 400 == 0)
  }

  function MonthLength(year: int, month: int): int {
    if month == 2 then (if IsLeap(year) then 29 else 28)
    else if month in {4, 6, 9, 11} then 30
    else 31
  }

  predicate ValidDate(d: Date) {
    1 <= d.month <= 12 && 1 <= d.day <= MonthLength(d.year, d.month)
  }

  function NextDay(d: Date): Date {
    if d.day < MonthLength(d.year, d.month) then Date(d.year, d.month, d.day + 1)
    else if d.month < 12 then Date(d.year, d.month + 1, 1)
    else Date(d.year + 1, 1, 1)
  }

  /** Days from the start of `year` to the start of `month`. */
  function DaysBeforeMonth(year: int, month: int): int
    requires 1 <= month <= 12
  {
    if month == 1 then 0 else DaysBeforeMonth(year, month - 1) + MonthLength(year, month - 1)
  }

  /** Leap days in the years before `year`, counted from year 1 by the leap-year rule. */
  function LeapDaysBefore(year: int): int {
    (year - 1) / 4 - (year - 1) / 100 + (year - 1) / 400
  }

  lemma DivStep(x: int, k: int)
    requires k == 4 || k == 100 || k == 400
    ensures x / k == (x - 1) / k + if x % k == 0 then 1 else 0
  {}

  lemma LeapDaysCountLeapYears(year: int)
    ensures LeapDaysBefore(year + 1) == LeapDaysBefore(year) + if IsLeap(year) then 1 else 0
  {
    DivStep(year, 4);
    DivStep(year, 100);
    DivStep(year, 400);
  }

  /** Day number of 1 January, with 1970-01-01 as day 0. */
  function YearBase(year: int): int {
    365 * (year - 1970) + LeapDaysBefore(year) - 477
  }

  function DayNumber(d: Date): int
    requires ValidDate(d)
  {
    YearBase(d.year) + DaysBeforeMonth(d.year, d.month) + d.day - 1
  }

  function YearDays(year: int): int {
    if IsLeap(year) then 366 else 365
  }

  lemma YearBaseStep(year: int)
    ensures YearBase(year + 1) == YearBase(year) + YearDays(year)
  {
    LeapDaysCountLeapYears(year);
  }

  lemma MonthTable(year: int)
    ensures var feb := if IsLeap(year) then 29 else 28;
            && DaysBeforeMonth(year, 1) == 0 && DaysBeforeMonth(year, 2) == 31
            && DaysBeforeMonth(year, 3) == 31 + feb && DaysBeforeMonth(year, 4) == 62 + feb
            && DaysBeforeMonth(year, 5) == 92 + feb && DaysBeforeMonth(year, 6) == 123 + feb
            && DaysBeforeMonth(year, 7) == 153 + feb && DaysBeforeMonth(year, 8) == 184 + feb
            && DaysBeforeMonth(year, 9) == 215 + feb && DaysBeforeMonth(year, 10) == 245 + feb
            && DaysBeforeMonth(year, 11) == 276 + feb && DaysBeforeMonth(year, 12) == 306 + feb
  {
    assert DaysBeforeMonth(year, 2) == DaysBeforeMonth(year, 1) + 31;
    assert DaysBeforeMonth(year, 3) == DaysBeforeMonth(year, 2) + MonthLength(year, 2);
    assert DaysBeforeMonth(year, 4) == DaysBeforeMonth(year, 3) + 31;
    assert DaysBeforeMonth(year, 5) == DaysBeforeMonth(year, 4) + 30;
    assert DaysBeforeMonth(year, 6) == DaysBeforeMonth(year, 5) + 31;
    assert DaysBeforeMonth(year, 7) == DaysBeforeMonth(year, 6) + 30;
    assert DaysBeforeMonth(year, 8) == DaysBeforeMonth(year, 7) + 31;
    assert DaysBeforeMonth(year, 9) == DaysBeforeMonth(year, 8) + 31;
    assert DaysBeforeMonth(year, 10) == DaysBeforeMonth(year, 9) + 30;
    assert DaysBeforeMonth(year, 11) == DaysBeforeMonth(year, 10) + 31;
  }

  lemma YearLength(year: int)
    ensures DaysBeforeMonth(year, 12) + MonthLength(year, 12) == YearDays(year)
  {
    MonthTable(year);
  }

  /** The day count is the calendar's: consecutive dates have consecutive numbers. */
  lemma DayNumberCountsDays(d: Date)
    requires ValidDate(d)
    ensures ValidDate(NextDay(d))
    ensures DayNumber(NextDay(d)) == DayNumber(d) + 1
    ensures DayNumber(Date(1970, 1, 1)) == 0
  {
    YearBaseStep(d.year);
    YearLength(d.year);
  }

  // ----- the code's arithmetic -----

  const I64_MAX: int := 0x7FFF_FFFF_FFFF_FFFF
  const I64_MIN: int := -0x8000_0000_0000_0000

  /** Rust's `/` on i64: rounds toward zero. */
  function TruncDiv(a: int, b: int): int
    requires b > 0
  {
    if a >= 0 then a / b else -((-a) / b)
  }

  function Era(z: int): int {
    TruncDiv(if z >= 0 then z else z - 146096, 146097)
  }

  function YearOfEra(doe: int): int {
    (doe - doe / 1460 + doe / 36524 - doe / 146096) / 365
  }

  /** Day of a year that starts on 1 March. */
  function DayOfYear(doe: int): int {
    doe - (365 * YearOfEra(doe) + YearOfEra(doe) / 4 - YearOfEra(doe) / 100)
  }

  function MonthPrime(doy: int): int {
    (5 * doy + 2) / 153
  }

  /** Day `doy` of the year that starts on 1 March of `year`, as a date. */
  function FromMarch(year: int, doy: int): Date {
    var mp := MonthPrime(doy);
    var d := doy - (153 * mp + 2) / 5 + 1;
    var m := if mp < 10 then mp + 3 else mp - 9;
    Date(if m <= 2 then year + 1 else year, m, d)
  }

  /** Day `doe` of a 400-year era. */
  function FromEra(era: int, doe: int): Date {
    FromMarch(YearOfEra(doe) + era * 400, DayOfYear(doe))
  }

  function EpochDaysToYmd(days: int): Date {
    var z := days + 719468;
    var era := Era(z);
    FromEra(era, z - era * 146097)
  }

  // ----- ranges -----

  /** First day, within an era, of the 1 March year `y` of that era. */
  function YearStart(y: int): int {
    365 * y + y / 4 - y / 100
  }

  /** First day, within a 1 March year, of its month `mp`. */
  function MonthStart(mp: int): int {
    (153 * mp + 2) / 5
  }

  lemma EraIsFloor(z: int)
    ensures Era(z) == z / 146097
  {}

  /** Within an era, day `s` of four-year cycle `q` of century `c`. */
  lemma YearOfEraInCycle(c: int, q: int, s: int)
    requires 0 <= c <= 3 && 0 <= q <= 24 && 0 <= s <= 1460 && 1461 * q + s < 36524
    ensures var doe := 36524 * c + 1461 * q + s;
            && 0 <= YearOfEra(doe) <= 399
            && YearStart(YearOfEra(doe)) <= doe < YearStart(YearOfEra(doe) + 1)
  {
    var doe := 36524 * c + 1461 * q + s;
    var e := if 24 * c + q + s >= 1460 then 1 else 0;
    var t := (s - e) / 365;
    assert doe / 1460 == 25 * c + q + e;
    assert doe / 36524 == c;
    assert doe / 146096 == 0;
    var y := 100 * c + 4 * q + t;
    assert doe - doe / 1460 + doe / 36524 - doe / 146096 == 365 * (100 * c + 4 * q) + (s - e);
    assert YearOfEra(doe) == y;
    assert y / 4 == 25 * c + q && y / 100 == c;
    assert YearStart(y) == 36524 * c + 1461 * q + 365 * t;
    if t < 3 {
      assert (y + 1) / 4 == 25 * c + q && (y + 1) / 100 == c;
    } else {
      assert (y + 1) / 4 == 25 * c + q + 1;
      assert (y + 1) / 100 == if q == 24 then c + 1 else c;
    }
  }

  /** The year-of-era formula finds the year the day lies in. */
  lemma YearOfEraFindsYear(doe: int)
    requires 0 <= doe <= 146096
    ensures 0 <= YearOfEra(doe) <= 399
    ensures YearStart(YearOfEra(doe)) <= doe
    ensures YearOfEra(doe) < 399 ==> doe < YearStart(YearOfEra(doe) + 1)
    ensures 0 <= DayOfYear(doe) <= 365
  {
    if doe < 146096 {
      var r := doe % 36524;
      YearOfEraInCycle(doe / 36524, r / 1461, r % 1461);
    }
  }

  /** The month formula finds the month the day lies in. */
  lemma MonthPrimeFindsMonth(doy: int)
    requires 0 <= doy <= 365
    ensures 0 <= MonthPrime(doy) <= 11
    ensures MonthStart(MonthPrime(doy)) <= doy < MonthStart(MonthPrime(doy) + 1)
  {}

  /** Within a 1 March year, month starts agree with the calendar's month lengths. */
  lemma MonthStartsAgree(year: int, mp: int)
    requires 0 <= mp <= 11
    ensures mp < 10 ==> MonthStart(mp) == DaysBeforeMonth(year, mp + 3) - DaysBeforeMonth(year, 3)
    ensures mp >= 10 ==>
              MonthStart(mp) == DaysBeforeMonth(year, 12) + MonthLength(year, 12) - DaysBeforeMonth(year, 3)
                                + DaysBeforeMonth(year + 1, mp - 9)
    ensures mp < 11 ==>
              MonthStart(mp + 1) - MonthStart(mp)
              == if mp < 10 then MonthLength(year, mp + 3) else MonthLength(year + 1, mp - 9)
  {
    MonthTable(year);
    MonthTable(year + 1);
  }

  lemma DivShift(y: int, era: int)
    ensures (y + 400 * era) / 4 == y / 4 + 100 * era && (y + 400 * era) % 4 == y % 4
    ensures (y + 400 * era) / 100 == y / 100 + 4 * era && (y + 400 * era) % 100 == y % 100
    ensures (y + 400 * era) / 400 == y / 400 + era && (y + 400 * era) % 400 == y % 400
  {}

  /** A year of an era that starts on 1 March, against 1 January of the year after. */
  lemma YearStartAgrees(y: int, era: int)
    requires 0 <= y <= 399
    ensures YearBase(y + 400 * era + 1) == YearStart(y) + 146097 * era - 719162
    ensures YearDays(y + 400 * era + 1) == (if y < 399 then YearStart(y + 1) else 146097) - YearStart(y)
  {
    DivShift(y, era);
    DivShift(y + 1, era);
    DivStep(y + 1, 4);
    DivStep(y + 1, 100);
  }

  /** Day `doy` of the 1 March year `year`, as the code splits it into month and day. */
  lemma MonthAndDay(year: int, doy: int)
    requires 0 <= doy < 306 + DaysBeforeMonth(year + 1, 3)
    ensures ValidDate(FromMarch(year, doy))
    ensures DayNumber(FromMarch(year, doy)) == YearBase(year + 1) - 306 + doy
  {
    MonthTable(year);
    MonthTable(year + 1);
    YearBaseStep(year);
    MonthPrimeFindsMonth(doy);
    MonthStartsAgree(year, MonthPrime(doy));
  }

  // ----- the main results -----

  lemma EraBounds(z: int)
    ensures 0 <= z - Era(z) * 146097 <= 146096
  {
    EraIsFloor(z);
  }

  /** Every intermediate value stays in the range the code's comments and casts state. */
  lemma IntermediatesInRange(days: int)
    ensures var z := days + 719468;
            var doe := z - Era(z) * 146097;
            && 0 <= doe <= 146096
            && 0 <= YearOfEra(doe) <= 399
            && 0 <= DayOfYear(doe) <= 365
            && 0 <= MonthPrime(DayOfYear(doe)) <= 11
    ensures var z := days + 719468;
            I64_MIN <= days && z <= I64_MAX ==>
              && I64_MIN <= z - 146096
              && I64_MIN <= Era(z) * 146097 <= I64_MAX
              && I64_MIN <= Era(z) * 400 <= Era(z) * 400 + 399 < I64_MAX
  {
    var z := days + 719468;
    EraBounds(z);
    var doe := z - Era(z) * 146097;
    YearOfEraFindsYear(doe);
    MonthPrimeFindsMonth(DayOfYear(doe));
  }

  lemma YearAndDay(y: int, era: int, doy: int)
    requires 0 <= y <= 399 && 0 <= doy < (if y < 399 then YearStart(y + 1) else 146097) - YearStart(y)
    ensures ValidDate(FromMarch(y + era * 400, doy))
    ensures DayNumber(FromMarch(y + era * 400, doy)) == YearStart(y) + 146097 * era + doy - 719468
  {
    YearStartAgrees(y, era);
    MonthTable(y + 400 * era + 1);
    MonthAndDay(y + era * 400, doy);
  }

  lemma DayOfEra(era: int, doe: int)
    requires 0 <= doe <= 146096
    ensures ValidDate(FromEra(era, doe))
    ensures DayNumber(FromEra(era, doe)) == era * 146097 + doe - 719468
  {
    YearOfEraFindsYear(doe);
    YearAndDay(YearOfEra(doe), era, DayOfYear(doe));
  }

  /** The result is a calendar date, and its day number is the input: the code inverts the
      Gregorian day count on every day number. */
  lemma YmdInvertsDayNumber(days: int)
    ensures ValidDate(EpochDaysToYmd(days))
    ensures DayNumber(EpochDaysToYmd(days)) == days
  {
    var z := days + 719468;
    EraBounds(z);
    DayOfEra(Era(z), z - Era(z) * 146097);
  }

  lemma YearsOrdered(a: int, b: int)
    requires a < b
    ensures YearBase(a) + YearDays(a) <= YearBase(b)
  {
    YearBaseStep(a);
    assert YearBase(a + 1) <= YearBase(b);
  }

  lemma DayWithinYear(d: Date)
    requires ValidDate(d)
    ensures YearBase(d.year) <= DayNumber(d) < YearBase(d.year) + YearDays(d.year)
  {
    MonthTable(d.year);
  }

  /** No two dates share a day number. */
  lemma DayNumberInjective(a: Date, b: Date)
    requires ValidDate(a) && ValidDate(b) && DayNumber(a) == DayNumber(b)
    ensures a == b
  {
    DayWithinYear(a);
    DayWithinYear(b);
    if a.year < b.year {
      YearsOrdered(a.year, b.year);
    } else if b.year < a.year {
      YearsOrdered(b.year, a.year);
    } else {
      MonthTable(a.year);
    }
  }

  /** And the other way round: the code maps the day number of a date back to that date. */
  lemma DayNumberInvertsYmd(d: Date)
    requires ValidDate(d)
    ensures EpochDaysToYmd(DayNumber(d)) == d
  {
    YmdInvertsDayNumber(DayNumber(d));
    DayNumberInjective(EpochDaysToYmd(DayNumber(d)), d);
  }

  /** One day later is the calendar's next day. */
  lemma NextDayFollows(days: int)
    ensures EpochDaysToYmd(days + 1) == NextDay(EpochDaysToYmd(days))
  {
    YmdInvertsDayNumber(days);
    YmdInvertsDayNumber(days + 1);
    DayNumberCountsDays(EpochDaysToYmd(days));
    DayNumberInjective(EpochDaysToYmd(days + 1), NextDay(EpochDaysToYmd(days)));
  }

  /** The anchor. */
  lemma EpochStarts(days: int)
    requires days == 0
    ensures EpochDaysToYmd(days) == Date(1970, 1, 1)
  {
    DayNumberInvertsYmd(Date(1970, 1, 1));
  }
}
