/** Gregorian calendar arithmetic: the closed-form conversion used to stamp
    exported host-identity files, and the naive calendar it must agree with. */
module Calendar {

  const SECS_PER_DAY: nat := 86_400
  const I32_MAX: int := 0x7FFF_FFFF
  const U64_END: int := 0x1_0000_0000_0000_0000
  const I64_END: int := 0x8000_0000_0000_0000

  /** First second of the year 2^31: from here on `as i32` truncates the year. */
  const OVERFLOW_DAY: nat := 784_351_576_777
  const YEAR_OVERFLOW: nat := 67_767_976_233_532_800

  datatype Utc = Utc(year: int, month: int, day: int, hour: int, minute: int, second: int)

  // ---------------------------------------------------------------- the code

  /** Rust's `as i32` on an i64: keep the low 32 bits, as two's complement. */
  function AsI32(x: int): int {
    var low := x % 0x1_0000_0000;
    if low <= I32_MAX then low else low - 0x1_0000_0000
  }

  /** The values the conversion computes from a day count, step by step. */
  datatype Civil = Civil(z: int, era: int, doe: int, yoe: int, doy: int, mp: int, year: int, month: int, day: int)

  function CivilFromDays(days: nat): Civil {
    var z := days + 719_468;
    var era := z / 146_097;
    var doe := z - era * 146_097;
    var yoe := (doe - doe / 1460 + doe / 36_524 - doe / 146_096) / 365;
    var y := yoe + era * 400;
    var doy := doe - (365 * yoe + yoe / 4 - yoe / 100);
    var mp := (5 * doy + 2) / 153;
    var d := doy - (153 * mp + 2) / 5 + 1;
    var m := if mp < 10 then mp + 3 else mp - 9;
    Civil(z, era, doe, yoe, doy, mp, if m <= 2 then y + 1 else y, m, d)
  }

  function EpochToUtc(secs: nat): Utc {
    var c := CivilFromDays(secs / SECS_PER_DAY);
    var secondsOfDay := secs % SECS_PER_DAY;
    Utc(AsI32(c.year), c.month, c.day,
        secondsOfDay / 3600, (secondsOfDay % 3600) / 60, secondsOfDay % 60)
  }

  // ------------------------------------------------------ the naive calendar

  predicate IsLeap(y: int) {
    y % 4 == 0 && (y % 100 != 0 || y % 400 == 0)
  }

  function DaysInYear(y: int): nat {
    if IsLeap(y) then 366 else 365
  }

  function DaysInMonth(y: int, m: int): nat
    requires 1 <= m <= 12
  {
    if m == 2 then (if IsLeap(y) then 29 else 28)
    else if m == 4 || m == 6 || m == 9 || m == 11 then 30
    else 31
  }

  /** Days from 1970-01-01 to the first of January of year `y`, counted year by year. */
  function DaysBeforeYear(y: int): nat
    requires 1970 <= y
  {
    if y == 1970 then 0 else DaysBeforeYear(y - 1) + DaysInYear(y - 1)
  }

  /** Days from the first of January to the first of month `m`, counted month by month. */
  function DaysBeforeMonth(y: int, m: int): nat
    requires 1 <= m <= 12
  {
    if m == 1 then 0 else DaysBeforeMonth(y, m - 1) + DaysInMonth(y, m - 1)
  }

  predicate Valid(u: Utc) {
    && 1970 <= u.year <= I32_MAX
    && 1 <= u.month <= 12
    && 1 <= u.day <= DaysInMonth(u.year, u.month)
    && 0 <= u.hour < 24
    && 0 <= u.minute < 60
    && 0 <= u.second < 60
  }

  /** Whole seconds from the epoch to `u`, by counting. */
  function CountSeconds(u: Utc): int
    requires Valid(u)
  {
    (DaysBeforeYear(u.year) + DaysBeforeMonth(u.year, u.month) + u.day - 1) * SECS_PER_DAY
    + u.hour * 3600 + u.minute * 60 + u.second
  }

  predicate Before(a: Utc, b: Utc) {
    a.year < b.year || (a.year == b.year && (
    a.month < b.month || (a.month == b.month && (
    a.day < b.day || (a.day == b.day && (
    a.hour < b.hour || (a.hour == b.hour && (
    a.minute < b.minute || (a.minute == b.minute &&
    a.second < b.second)))))))))
  }

  // ------------------------------------------- closed forms of the naive sums

  lemma {:induction false} YearClosedForm(y: int)
    requires 1970 <= y
    ensures DaysBeforeYear(y) == 365 * (y - 1970) + (y - 1) / 4 - (y - 1) / 100 + (y - 1) / 400 - 477
  {
    if y > 1970 {
      YearClosedForm(y - 1);
      LeapStep(y - 1);
    }
  }

  lemma LeapStep(y: int)
    requires 0 < y
    ensures DaysInYear(y) - 365 == (y / 4 - (y - 1) / 4) - (y / 100 - (y - 1) / 100) + (y / 400 - (y - 1) / 400)
  {
    Crossing4(y);
    Crossing100(y);
    Crossing400(y);
    MultiplesNest(y);
  }

  lemma MultiplesNest(y: int)
    ensures y % 400 == 0 ==> y % 100 == 0
    ensures y % 100 == 0 ==> y % 4 == 0
  {
    if y % 400 == 0 {
      Shift100(0, 4 * (y / 400));
    }
    if y % 100 == 0 {
      Shift4(0, 25 * (y / 100));
    }
  }

  lemma Crossing4(y: int)
    ensures y / 4 - (y - 1) / 4 == if y % 4 == 0 then 1 else 0
  {
  }

  lemma Crossing100(y: int)
    ensures y / 100 - (y - 1) / 100 == if y % 100 == 0 then 1 else 0
  {
  }

  lemma Crossing400(y: int)
    ensures y / 400 - (y - 1) / 400 == if y % 400 == 0 then 1 else 0
  {
  }

  lemma MonthTable(y: int)
    ensures DaysBeforeMonth(y, 1) == 0 && DaysBeforeMonth(y, 2) == 31
    ensures var l := if IsLeap(y) then 60 else 59;
            && DaysBeforeMonth(y, 3) == l && DaysBeforeMonth(y, 4) == l + 31
            && DaysBeforeMonth(y, 5) == l + 61 && DaysBeforeMonth(y, 6) == l + 92
            && DaysBeforeMonth(y, 7) == l + 122 && DaysBeforeMonth(y, 8) == l + 153
            && DaysBeforeMonth(y, 9) == l + 184 && DaysBeforeMonth(y, 10) == l + 214
            && DaysBeforeMonth(y, 11) == l + 245 && DaysBeforeMonth(y, 12) == l + 275
  {
    assert DaysBeforeMonth(y, 3) == DaysBeforeMonth(y, 2) + DaysInMonth(y, 2);
    assert DaysBeforeMonth(y, 5) == DaysBeforeMonth(y, 4) + 30;
    assert DaysBeforeMonth(y, 7) == DaysBeforeMonth(y, 6) + 30;
    assert DaysBeforeMonth(y, 9) == DaysBeforeMonth(y, 8) + 31;
    assert DaysBeforeMonth(y, 11) == DaysBeforeMonth(y, 10) + 31;
  }

  // -------------------------------------------------- inside a 400-year era

  /** Centuries, four-year cycles and years since the era's first of March,
      counted off with the long last century, cycle and year capped. */
  function CountYears(doe: int): (int, int, int, int)
  {
    var a := if doe / 36_524 < 4 then doe / 36_524 else 3;
    var inCentury := doe - 36_524 * a;
    var q := inCentury / 1461;
    var inCycle := inCentury - 1461 * q;
    var r := if inCycle / 365 < 4 then inCycle / 365 else 3;
    (a, q, r, inCycle - 365 * r)
  }

  lemma CountYearsRange(doe: int)
    requires 0 <= doe < 146_097
    ensures var (a, q, r, t) := CountYears(doe);
            && 0 <= a <= 3 && 0 <= q <= 24 && 0 <= r <= 3 && 0 <= t <= 365
            && doe == 36_524 * a + 1461 * q + 365 * r + t
            && (t == 365 ==> r == 3 && (q == 24 ==> a == 3))
  {
  }

  /** The correction terms of the closed form compute exactly that count. */
  lemma YearOfEra(doe: int, a: int, q: int, r: int, t: int)
    requires 0 <= a <= 3 && 0 <= q <= 24 && 0 <= r <= 3 && 0 <= t <= 365
    requires t == 365 ==> r == 3 && (q == 24 ==> a == 3)
    requires doe == 36_524 * a + 1461 * q + 365 * r + t
    ensures (doe - doe / 1460 + doe / 36_524 - doe / 146_096) / 365 == 100 * a + 4 * q + r
  {
    var e := if 24 * a + q + 365 * r + t >= 1460 then 1 else 0;
    assert doe / 1460 == 25 * a + q + e;
    var last := if a == 3 && q == 24 && r == 3 && t == 365 then 1 else 0;
    assert doe / 36_524 == a + last;
    assert doe / 146_096 == last;
    assert doe - doe / 1460 + doe / 36_524 - doe / 146_096 == 365 * (100 * a + 4 * q + r) + (t - e);
    assert 0 <= t - e < 365;
  }

  lemma YearParts(a: int, q: int, r: int)
    requires 0 <= a <= 3 && 0 <= q <= 24 && 0 <= r <= 3
    ensures var y := 100 * a + 4 * q + r; y / 4 == 25 * a + q && y / 100 == a
  {
  }

  lemma EraRanges(doe: int, yoe: int, doy: int)
    requires 0 <= doe < 146_097
    requires yoe == (doe - doe / 1460 + doe / 36_524 - doe / 146_096) / 365
    requires doy == doe - (365 * yoe + yoe / 4 - yoe / 100)
    ensures 0 <= yoe <= 399 && 0 <= doy <= 365
    ensures doy == 365 ==> IsLeap(yoe + 1)
  {
    CountYearsRange(doe);
    var (a, q, r, t) := CountYears(doe);
    YearOfEra(doe, a, q, r, t);
    YearParts(a, q, r);
    if doy == 365 {
      assert yoe + 1 == 4 * (25 * a + q + 1);
      CenturyYear(a, q);
    }
  }

  lemma CenturyYear(a: int, q: int)
    requires 0 <= a <= 3 && 0 <= q <= 24 && (q == 24 ==> a == 3)
    ensures IsLeap(4 * (25 * a + q + 1))
  {
    var y := 4 * (25 * a + q + 1);
    if q == 24 {
      assert y == 400;
    } else {
      assert y % 100 == 4 * q + 4;
    }
  }

  lemma MonthRanges(doy: int, mp: int, d: int)
    requires 0 <= doy <= 365
    requires mp == (5 * doy + 2) / 153 && d == doy - (153 * mp + 2) / 5 + 1
    ensures 0 <= mp <= 11 && 1 <= d <= 31
  {
  }

  /** The comments in the source on the intermediate ranges hold, no step
      leaves the i64 range for any u64 input, and a day number of 365 only
      occurs in a March-to-March year that ends with a 29th of February. */
  lemma CivilRanges(days: nat)
    ensures var c := CivilFromDays(days);
            && 0 <= c.doe <= 146_096 && 0 <= c.yoe <= 399
            && 0 <= c.doy <= 365 && 0 <= c.mp <= 11
            && 1 <= c.month <= 12 && 1 <= c.day <= 31
            && (c.doy == 365 ==> IsLeap(c.yoe + 1))
            && (days <= U64_END / SECS_PER_DAY ==>
                  0 <= c.z < I64_END && 0 <= c.era * 146_097 < I64_END && 0 <= c.year < I64_END)
  {
    var c := CivilFromDays(days);
    assert 0 <= c.doe < 146_097;
    EraRanges(c.doe, c.yoe, c.doy);
    MonthRanges(c.doy, c.mp, c.day);
  }

  // ------------------------------------------------------------ the theorems

  /** Placing the March-based day number in the naive calendar. */
  lemma CivilDay(year: int, doy: int, mp: int)
    requires 0 <= doy <= 365 && mp == (5 * doy + 2) / 153
    requires doy == 365 ==> IsLeap(year + 1)
    ensures var d := doy - (153 * mp + 2) / 5 + 1;
            if mp < 10 then
              && 3 <= mp + 3 <= 12
              && 1 <= d <= DaysInMonth(year, mp + 3)
              && DaysBeforeMonth(year, mp + 3) + d - 1 == doy + (if IsLeap(year) then 60 else 59)
            else
              && 1 <= mp - 9 <= 2
              && 1 <= d <= DaysInMonth(year + 1, mp - 9)
              && DaysBeforeMonth(year + 1, mp - 9) + d - 1 == doy - 306
  {
    MonthTable(year);
    MonthTable(year + 1);
    MonthRanges(doy, mp, doy - (153 * mp + 2) / 5 + 1);
    assert mp == 0 || mp == 1 || mp == 2 || mp == 3 || mp == 4 || mp == 5
        || mp == 6 || mp == 7 || mp == 8 || mp == 9 || mp == 10 || mp == 11;
  }

  lemma EraYear(era: int, yoe: int)
    requires 0 <= yoe <= 399 && 0 <= era
    ensures var y := yoe + era * 400;
            y / 4 == yoe / 4 + 100 * era && y / 100 == yoe / 100 + 4 * era && y / 400 == era
  {
    assert yoe + era * 400 == 4 * (yoe / 4 + 100 * era) + yoe % 4;
    assert yoe + era * 400 == 100 * (yoe / 100 + 4 * era) + yoe % 100;
  }

  lemma EraLeap(era: int, y: int)
    requires 0 <= y && 0 <= era
    ensures IsLeap(y + era * 400) == IsLeap(y)
  {
    Shift4(y, 100 * era);
    Shift100(y, 4 * era);
    Shift400(y, era);
  }

  lemma Shift4(y: int, k: int)
    ensures (y + 4 * k) % 4 == y % 4
  {
  }

  lemma Shift100(y: int, k: int)
    ensures (y + 100 * k) % 100 == y % 100
  {
  }

  lemma Shift400(y: int, k: int)
    ensures (y + 400 * k) % 400 == y % 400
  {
  }

  /** Days up to the first of March of year `y`, from the closed form. */
  function MarchFirst(y: int): int {
    365 * y + y / 4 - y / 100 + y / 400 - 719_468
  }

  lemma MarchFirstCounts(y: int)
    requires 1969 <= y
    ensures 1970 <= y ==> DaysBeforeYear(y) + (if IsLeap(y) then 60 else 59) == MarchFirst(y)
    ensures DaysBeforeYear(y + 1) == MarchFirst(y) + 306
  {
    YearClosedForm(y + 1);
    if 1970 <= y {
      YearClosedForm(y);
      LeapStep(y);
    }
  }

  lemma MarchYear(days: nat, era: int, yoe: int, doy: int)
    requires 0 <= yoe <= 399 && 0 <= era && 0 <= doy <= 365
    requires days + 719_468 == 146_097 * era + 365 * yoe + yoe / 4 - yoe / 100 + doy
    ensures var y := yoe + era * 400;
            && 1969 <= y && (doy < 306 ==> 1970 <= y)
            && days == MarchFirst(y) + doy
  {
    EraYear(era, yoe);
  }

  /** For every day number, the date is a real one and counting up to it gives the day number back. */
  lemma CivilDate(days: nat)
    ensures var c := CivilFromDays(days);
            && 1970 <= c.year && 1 <= c.month <= 12
            && 1 <= c.day <= DaysInMonth(c.year, c.month)
            && DaysBeforeYear(c.year) + DaysBeforeMonth(c.year, c.month) + c.day - 1 == days
  {
    var c := CivilFromDays(days);
    CivilRanges(days);
    CivilDateFrom(days, c.era, c.yoe, c.doy, c.mp);
  }

  lemma CivilDateFrom(days: nat, era: int, yoe: int, doy: int, mp: int)
    requires 0 <= yoe <= 399 && 0 <= era && 0 <= doy <= 365 && mp == (5 * doy + 2) / 153
    requires days + 719_468 == 146_097 * era + 365 * yoe + yoe / 4 - yoe / 100 + doy
    requires doy == 365 ==> IsLeap(yoe + 1)
    ensures var m := if mp < 10 then mp + 3 else mp - 9;
            var y := yoe + era * 400 + if m <= 2 then 1 else 0;
            var d := doy - (153 * mp + 2) / 5 + 1;
            && 1970 <= y && 1 <= m <= 12 && 1 <= d <= DaysInMonth(y, m)
            && DaysBeforeYear(y) + DaysBeforeMonth(y, m) + d - 1 == days
  {
    var y := yoe + era * 400;
    EraLeap(era, yoe + 1);
    CivilDay(y, doy, mp);
    MarchYear(days, era, yoe, doy);
    MarchFirstCounts(y);
  }

  /** The conversion is exact just below the year 2^31 and truncated from there on:
      the year is the real one exactly when the input is below the overflow second. */
  lemma YearFits(secs: nat)
    ensures CivilFromDays(secs / SECS_PER_DAY).year <= I32_MAX <==> secs < YEAR_OVERFLOW
  {
    var days := secs / SECS_PER_DAY;
    CivilDate(days);
    var c := CivilFromDays(days);
    DateBeforeNextYear(c.year, c.month, c.day);
    DayNumberFits(days, c.year);
    assert secs < YEAR_OVERFLOW <==> days < OVERFLOW_DAY;
  }

  lemma DayNumberFits(days: nat, y: int)
    requires 1970 <= y && DaysBeforeYear(y) <= days < DaysBeforeYear(y + 1)
    ensures y <= I32_MAX <==> days < OVERFLOW_DAY
  {
    YearClosedForm(I32_MAX + 1);
    assert DaysBeforeYear(I32_MAX + 1) == OVERFLOW_DAY;
    if y <= I32_MAX {
      YearsAddUp(y + 1, I32_MAX + 1);
    } else {
      YearsAddUp(I32_MAX + 1, y);
    }
  }

  lemma {:induction false} YearsAddUp(y: int, y': int)
    requires 1970 <= y <= y'
    ensures DaysBeforeYear(y) + 365 * (y' - y) <= DaysBeforeYear(y')
    decreases y'
  {
    if y < y' {
      YearsAddUp(y, y' - 1);
    }
  }

  lemma {:induction false} MonthsAddUp(y: int, m: int, m': int)
    requires 1 <= m < m' <= 12
    ensures DaysBeforeMonth(y, m) + DaysInMonth(y, m) <= DaysBeforeMonth(y, m')
    decreases m'
  {
    if m + 1 < m' {
      MonthsAddUp(y, m, m' - 1);
    }
  }

  lemma DateBeforeNextYear(y: int, m: int, d: int)
    requires 1 <= m <= 12 && 1 <= d <= DaysInMonth(y, m)
    ensures DaysBeforeMonth(y, m) + d <= DaysInYear(y)
  {
    if m < 12 {
      MonthsAddUp(y, m, 12);
    }
    MonthTable(y);
  }

  /** For every second whose year fits an i32, the conversion yields a valid date
      and time, and counting year and month lengths from 1970 gives the second back. */
  lemma EpochToUtcIsExact(secs: nat)
    requires secs < YEAR_OVERFLOW
    ensures Valid(EpochToUtc(secs))
    ensures CountSeconds(EpochToUtc(secs)) == secs
  {
    YearFits(secs);
    var days := secs / SECS_PER_DAY;
    CivilDate(days);
    var c := CivilFromDays(days);
    var t := secs % SECS_PER_DAY;
    TimeOfDay(t);
    AsI32Identity(c.year);
    CountFrom(days, t, Utc(c.year, c.month, c.day, t / 3600, (t % 3600) / 60, t % 60));
  }

  lemma AsI32Identity(y: int)
    requires 0 <= y <= I32_MAX
    ensures AsI32(y) == y
  {
  }

  lemma CountFrom(days: nat, t: nat, u: Utc)
    requires Valid(u)
    requires DaysBeforeYear(u.year) + DaysBeforeMonth(u.year, u.month) + u.day - 1 == days
    requires u.hour * 3600 + u.minute * 60 + u.second == t
    ensures CountSeconds(u) == days * SECS_PER_DAY + t
  {
  }

  lemma TimeOfDay(t: nat)
    requires t < SECS_PER_DAY
    ensures 0 <= t / 3600 < 24 && 0 <= (t % 3600) / 60 < 60
    ensures t / 3600 * 3600 + (t % 3600) / 60 * 60 + t % 60 == t
  {
  }

  /** For every second, the result is the real date and time but for the year, which is the real
      one modulo 2^32, between -2^31 and 2^31. */
  lemma EpochToUtcWraps(secs: nat)
    ensures var (u, c) := (EpochToUtc(secs), CivilFromDays(secs / 86_400));
            && u.month == c.month && u.day == c.day
            && -0x8000_0000 <= u.year < 0x8000_0000 && (c.year - u.year) % 0x1_0000_0000 == 0
            && 0 <= u.hour < 24 && 0 <= u.minute < 60 && 0 <= u.second < 60
            && u.hour * 3600 + u.minute * 60 + u.second == secs % 86_400
  {
    TimeOfDay(secs % SECS_PER_DAY);
    AsI32Wraps(CivilFromDays(secs / SECS_PER_DAY).year);
  }

  lemma AsI32Wraps(x: int)
    ensures -0x8000_0000 <= AsI32(x) < 0x8000_0000 && (x - AsI32(x)) % 0x1_0000_0000 == 0
  {
  }

  /** And from the overflow second on the year comes out wrong. */
  lemma EpochToUtcOverflows(secs: nat)
    requires YEAR_OVERFLOW <= secs < U64_END
    ensures EpochToUtc(secs).year != CivilFromDays(secs / SECS_PER_DAY).year
  {
    YearFits(secs);
  }

  lemma CountIsMonotone(a: Utc, b: Utc)
    requires Valid(a) && Valid(b) && Before(a, b)
    ensures CountSeconds(a) < CountSeconds(b)
  {
    if a.year < b.year {
      DateBeforeNextYear(a.year, a.month, a.day);
      YearsAddUp(a.year + 1, b.year);
    } else if a.month < b.month {
      MonthsAddUp(a.year, a.month, b.month);
    }
  }

  /** Later instants convert to later tuples, and only those. */
  lemma EpochToUtcIsMonotone(s: nat, t: nat)
    requires s < YEAR_OVERFLOW && t < YEAR_OVERFLOW
    ensures s < t <==> Before(EpochToUtc(s), EpochToUtc(t))
    ensures s == t <==> EpochToUtc(s) == EpochToUtc(t)
  {
    EpochToUtcIsExact(s);
    EpochToUtcIsExact(t);
    var (a, b) := (EpochToUtc(s), EpochToUtc(t));
    if Before(a, b) {
      CountIsMonotone(a, b);
    } else if Before(b, a) {
      CountIsMonotone(b, a);
    } else {
      assert a == b;
    }
  }

  lemma CountRange(u: Utc)
    requires Valid(u)
    ensures 0 <= CountSeconds(u) < YEAR_OVERFLOW
  {
    var days := DaysBeforeYear(u.year) + DaysBeforeMonth(u.year, u.month) + u.day - 1;
    DateBeforeNextYear(u.year, u.month, u.day);
    DayNumberFits(days, u.year);
  }

  /** Every valid date and time is reached: the conversion inverts the count. */
  lemma EpochToUtcIsOnto(u: Utc)
    requires Valid(u)
    ensures 0 <= CountSeconds(u) < YEAR_OVERFLOW
    ensures EpochToUtc(CountSeconds(u)) == u
  {
    CountRange(u);
    var secs := CountSeconds(u);
    EpochToUtcIsExact(secs);
    var v := EpochToUtc(secs);
    if Before(u, v) {
      CountIsMonotone(u, v);
    } else if Before(v, u) {
      CountIsMonotone(v, u);
    }
  }
}
