/**
 * UTC calendar arithmetic on integer day counts, as the JavaScript `Date`
 * methods getUTCFullYear, getUTCMonth, getUTCDate and toISOString see an
 * instant: proleptic Gregorian calendar, day 0 = 1970-01-01.
 */
module Civil {

  /** Milliseconds in a day; JavaScript time values ignore leap seconds. */
  const MsPerDay: int := 86_400_000

  /** Largest magnitude of a JavaScript time value (ECMA-262, section 21.4.1.1):
      beyond it a Date holds NaN. */
  const MaxTime: int := 8_640_000_000_000_000

  /** Days from 0000-01-01 to 1970-01-01. */
  const UnixEpochOrdinal: int := 719_528

  /** Days in a 400-year Gregorian cycle. */
  const EraDays: int := 146_097

  predicate ValidTime(ms: int) {
    -MaxTime <= ms <= MaxTime
  }

  /** The UTC calendar day holding the instant ms (floor division). */
  function UtcDayNumber(ms: int): int {
    ms / MsPerDay
  }

  predicate IsLeap(y: int) {
    y % 4 == 0 && (y % 100 != 0 || y % 400 == 0)
  }

  function YearLength(y: int): int {
    if IsLeap(y) then 366 else 365
  }

  /** Days from 0000-01-01 to the first of January of year y: 365 per year plus
      one for each leap year in [0, y). */
  function YearStart(y: int): int {
    365 * y + (y + 3) / 4 - (y + 99) / 100 + (y + 399) / 400
  }

  /** Floor division by d steps up exactly at the multiples of d. */
  lemma DivStep4(y: int)
    ensures (y + 4) / 4 == (y + 3) / 4 + (if y % 4 == 0 then 1 else 0)
  {
  }

  lemma DivStep100(y: int)
    ensures (y + 100) / 100 == (y + 99) / 100 + (if y % 100 == 0 then 1 else 0)
  {
  }

  lemma DivStep400(y: int)
    ensures (y + 400) / 400 == (y + 399) / 400 + (if y % 400 == 0 then 1 else 0)
  {
  }

  lemma YearStartStep(y: int)
    ensures YearStart(y + 1) == YearStart(y) + YearLength(y)
  {
    DivStep4(y);
    DivStep100(y);
    DivStep400(y);
  }

  lemma DivShift4(x: int, c: int)
    ensures (x + 4 * c) / 4 == x / 4 + c
  {
  }

  lemma DivShift100(x: int, c: int)
    ensures (x + 100 * c) / 100 == x / 100 + c
  {
  }

  lemma DivShift400(x: int, c: int)
    ensures (x + 400 * c) / 400 == x / 400 + c
  {
  }

  /** The calendar repeats every 400 years. */
  lemma YearStartEra(y: int, era: int)
    ensures YearStart(y + 400 * era) == YearStart(y) + EraDays * era
  {
    DivShift4(y + 3, 100 * era);
    DivShift100(y + 99, 4 * era);
    DivShift400(y + 399, era);
  }

  /** Later years start later: a year starts at least a year length after an earlier one. */
  lemma {:induction false} YearStartMonotone(a: int, b: int)
    requires a < b
    ensures YearStart(a) + YearLength(a) <= YearStart(b)
    decreases b - a
  {
    YearStartStep(a);
    if a + 1 < b {
      YearStartMonotone(a + 1, b);
    }
  }

  function MonthLength(y: int, m: int): int
    requires 1 <= m <= 12
  {
    if m == 2 then (if IsLeap(y) then 29 else 28)
    else if m == 4 || m == 6 || m == 9 || m == 11 then 30
    else 31
  }

  /** Days of year y before the first of month m; m == 13 gives the whole year. */
  function DaysBeforeMonth(y: int, m: int): int
    requires 1 <= m <= 13
  {
    var cumulative := [0, 31, 59, 90, 120, 151, 181, 212, 243, 273, 304, 334, 365];
    cumulative[m - 1] + (if 2 < m && IsLeap(y) then 1 else 0)
  }

  lemma DaysBeforeMonthStep(y: int, m: int)
    requires 1 <= m <= 12
    ensures DaysBeforeMonth(y, m + 1) == DaysBeforeMonth(y, m) + MonthLength(y, m)
    ensures DaysBeforeMonth(y, 1) == 0 && DaysBeforeMonth(y, 13) == YearLength(y)
  {
  }

  lemma {:induction false} DaysBeforeMonthMonotone(y: int, a: int, b: int)
    requires 1 <= a < b <= 13
    ensures DaysBeforeMonth(y, a) + MonthLength(y, a) <= DaysBeforeMonth(y, b)
    decreases b - a
  {
    DaysBeforeMonthStep(y, a);
    if a + 1 < b {
      DaysBeforeMonthMonotone(y, a + 1, b);
    }
  }

  datatype Date = Date(year: int, month: int, day: int)

  /** A real calendar date: month 1..12, day within that month. */
  predicate Valid(d: Date) {
    1 <= d.month <= 12 && 1 <= d.day <= MonthLength(d.year, d.month)
  }

  /** Days since 1970-01-01 of a calendar date. */
  function DaysFromCivil(d: Date): int
    requires Valid(d)
  {
    YearStart(d.year) - UnixEpochOrdinal + DaysBeforeMonth(d.year, d.month) + d.day - 1
  }

  /** The year of the 400-year cycle whose span holds day rem of the cycle. */
  function YearInEra(rem: int, k: int): (r: int)
    requires 0 <= k < 400 && YearStart(k) <= rem < EraDays
    ensures k <= r < 400
    ensures YearStart(r) <= rem < YearStart(r) + YearLength(r)
    decreases 400 - k
  {
    YearStartStep(k);
    if rem < YearStart(k + 1) then k
    else
      assert YearStart(400) == EraDays;
      YearInEra(rem, k + 1)
  }

  /** The month of year y holding day-of-year doy (0-based). */
  function MonthOfYear(y: int, doy: int, m: int): (r: int)
    requires 1 <= m <= 12 && DaysBeforeMonth(y, m) <= doy < YearLength(y)
    ensures m <= r <= 12
    ensures DaysBeforeMonth(y, r) <= doy < DaysBeforeMonth(y, r) + MonthLength(y, r)
    decreases 12 - m
  {
    DaysBeforeMonthStep(y, m);
    if doy < DaysBeforeMonth(y, m + 1) then m else MonthOfYear(y, doy, m + 1)
  }

  /** A year shifted by whole 400-year cycles spans the same days, shifted. */
  lemma YearSpanEra(k: int, era: int)
    ensures YearStart(k + 400 * era) + YearLength(k + 400 * era)
         == YearStart(k) + YearLength(k) + EraDays * era
  {
    YearStartEra(k + 1, era);
    YearStartStep(k);
    YearStartStep(k + 400 * era);
  }

  lemma EraSplit(z: int)
    ensures z == EraDays * (z / EraDays) + z % EraDays
    ensures 0 <= z % EraDays < EraDays
  {
  }

  /** Day z lies `era` whole cycles and `rem` days after 0000-01-01; if day rem
      falls in year k, day z falls in year k + 400 * era. */
  lemma EraYear(z: int, era: int, rem: int, k: int, y: int)
    requires z == EraDays * era + rem && y == k + 400 * era
    requires YearStart(k) <= rem < YearStart(k) + YearLength(k)
    ensures YearStart(y) <= z < YearStart(y) + YearLength(y)
  {
    YearStartEra(k, era);
    YearSpanEra(k, era);
  }

  /** The year holding day z counted from 0000-01-01: the cycle's year of the
      day's place in its 400-year cycle, plus the whole cycles before it. */
  function YearOfDay(z: int): int {
    EraSplit(z);
    assert YearStart(0) == 0;
    YearInEra(z % EraDays, 0) + 400 * (z / EraDays)
  }

  lemma YearOfDaySpan(z: int)
    ensures YearStart(YearOfDay(z)) <= z < YearStart(YearOfDay(z)) + YearLength(YearOfDay(z))
  {
    var era := z / EraDays;
    var rem := z % EraDays;
    EraSplit(z);
    assert YearStart(0) == 0;
    var k := YearInEra(rem, 0);
    EraYear(z, era, rem, k, YearOfDay(z));
  }

  /** The calendar date of a day count: the only valid date that counts to n. */
  function CivilFromDays(n: int): (d: Date)
    ensures Valid(d)
    ensures DaysFromCivil(d) == n
  {
    var z := n + UnixEpochOrdinal;
    var y := YearOfDay(z);
    YearOfDaySpan(z);
    var doy := z - YearStart(y);
    DaysBeforeMonthStep(y, 1);
    var m := MonthOfYear(y, doy, 1);
    Date(y, m, doy - DaysBeforeMonth(y, m) + 1)
  }

  /** Where a valid date lies inside its year. */
  lemma DateInYear(d: Date)
    requires Valid(d)
    ensures YearStart(d.year) <= DaysFromCivil(d) + UnixEpochOrdinal < YearStart(d.year) + YearLength(d.year)
  {
    if d.month < 12 {
      DaysBeforeMonthMonotone(d.year, d.month, 13);
    }
    DaysBeforeMonthStep(d.year, d.month);
  }

  /** Two valid dates with the same day count are the same date. */
  lemma DaysFromCivilInjective(a: Date, b: Date)
    requires Valid(a) && Valid(b)
    requires DaysFromCivil(a) == DaysFromCivil(b)
    ensures a == b
  {
    DateInYear(a);
    DateInYear(b);
    if a.year < b.year {
      YearStartMonotone(a.year, b.year);
    } else if b.year < a.year {
      YearStartMonotone(b.year, a.year);
    }
    assert a.year == b.year;
    if a.month < b.month {
      DaysBeforeMonthMonotone(a.year, a.month, b.month);
    } else if b.month < a.month {
      DaysBeforeMonthMonotone(a.year, b.month, a.month);
    }
  }

  /** Counting the days of a valid date and converting back returns the date. */
  lemma CivilRoundTrip(d: Date)
    requires Valid(d)
    ensures CivilFromDays(DaysFromCivil(d)) == d
  {
    DaysFromCivilInjective(CivilFromDays(DaysFromCivil(d)), d);
  }

  /** The UTC calendar date of an instant. */
  function UtcDate(ms: int): (d: Date)
    ensures Valid(d)
    ensures DaysFromCivil(d) == UtcDayNumber(ms)
  {
    CivilFromDays(UtcDayNumber(ms))
  }

  /** Two instants fall on the same UTC date exactly when they have the same day number. */
  lemma SameUtcDate(a: int, b: int)
    ensures UtcDate(a) == UtcDate(b) <==> UtcDayNumber(a) == UtcDayNumber(b)
  {
    if UtcDate(a) == UtcDate(b) {
      assert DaysFromCivil(UtcDate(a)) == DaysFromCivil(UtcDate(b));
    }
  }
}
