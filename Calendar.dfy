/**
 * Proleptic-Gregorian calendar arithmetic, as the JavaScript `Date` object
 * performs it.
 *
 * A JavaScript `Date` holds a time value: a count of milliseconds from
 * 1970-01-01.  The holiday code only ever builds dates at midnight and moves
 * them by whole days, so this module models a `Date` by its day number `t`
 * (day 0 is 1970-01-01, a Thursday) and follows the day-level operations of
 * the ECMAScript language specification: `DayFromYear`, `MakeDay` (which lets
 * months and days overflow into the next month or year), `WeekDay`, and the
 * inverse that `getFullYear`, `getMonth` and `getDate` read back.
 *
 * The `{ year, month, day }` objects the code passes around are `Date` values
 * here, with a 1-based month.
 */
module Calendar {

  /** A `{ year, month, day }` object; `ValidDate` says when it names a real day. */
  datatype Date = Date(year: int, month: int, day: int)

  /** The Gregorian leap-year rule (`isLeapYear`).  JavaScript's `%` truncates
      toward zero, but a remainder is zero under truncation exactly when it is
      zero under Dafny's Euclidean `%`, so the test agrees for every year. */
  predicate IsLeapYear(year: int) {
    (year % 4 == 0 && year % 100 != 0) || year % 400 == 0
  }

  /** The length of a month, as `parseAndValidateDate` computes its `maxDays`. */
  function DaysInMonth(year: int, month: int): (n: int)
    requires 1 <= month <= 12
    ensures 28 <= n <= 31
    ensures n == 29 <==> month == 2 && IsLeapYear(year)
  {
    if month == 2 then (if IsLeapYear(year) then 29 else 28)
    else if month == 4 || month == 6 || month == 9 || month == 11 then 30
    else 31
  }

  predicate ValidDate(d: Date) {
    1 <= d.month <= 12 && 1 <= d.day <= DaysInMonth(d.year, d.month)
  }

  function YearLength(year: int): int {
    if IsLeapYear(year) then 366 else 365
  }

  /** The day number of January 1 of `year` (ECMAScript `DayFromYear`). */
  function DayFromYear(year: int): int {
    365 * (year - 1970) + (year - 1969) / 4 - (year - 1901) / 100 + (year - 1601) / 400
  }

  /** Days in the months January .. month-1 of `year`: 30.6 days a month on
      average, less the two days February lacks once it is over, plus the leap day. */
  function DaysBeforeMonth(year: int, month: int): int
    requires 1 <= month <= 12
  {
    (367 * month - 362) / 12 +
    (if month <= 2 then 0 else if IsLeapYear(year) then -1 else -2)
  }

  /** The day number of a `{ year, month, day }` object whose month is in range. */
  function DayNumber(d: Date): int
    requires 1 <= d.month <= 12
  {
    DayFromYear(d.year) + DaysBeforeMonth(d.year, d.month) + d.day - 1
  }

  /** `new Date(year, month, date)` at day resolution (ECMAScript `MakeDay`):
      `month` is 0-based and may lie outside 0..11, carrying into the year,
      and `date` may lie outside the month, carrying into the neighbouring
      months.  Dafny's `/` and `%` floor for a positive divisor, as the
      specification's `floor` and `modulo` do. */
  function MakeDay(year: int, month: int, date: int): int {
    var ym := year + month / 12;
    var mn := month % 12;
    DayFromYear(ym) + DaysBeforeMonth(ym, mn + 1) + date - 1
  }

  /** `getDay()`: 0 = Sunday, 1 = Monday, ..., 6 = Saturday (ECMAScript `WeekDay`). */
  function WeekDay(t: int): (w: int)
    ensures 0 <= w < 7
  {
    (t + 4) % 7
  }

  /** `getFullYear()`, `getMonth() + 1` and `getDate()` of the day numbered `t`. */
  function DateFromDay(t: int): Date {
    FromYearOffset(1970, t)
  }

  /** The date `r` days after January 1 of `year`, stepping a year at a time. */
  function FromYearOffset(year: int, r: int): Date
    decreases if r < 0 then 1 else 0, if r < 0 then -r else r
  {
    if r < 0 then FromYearOffset(year - 1, r + YearLength(year - 1))
    else if r >= YearLength(year) then FromYearOffset(year + 1, r - YearLength(year))
    else MonthSearch(year, 1, r)
  }

  /** The date `r` days after the first of `month` in `year`, stepping a month at a time. */
  function MonthSearch(year: int, month: int, r: int): Date
    requires 1 <= month <= 12
    decreases 12 - month
  {
    if month == 12 || r < DaysInMonth(year, month) then Date(year, month, r + 1)
    else MonthSearch(year, month + 1, r - DaysInMonth(year, month))
  }

  /** Calendar order on `{ year, month, day }` objects. */
  predicate Precedes(a: Date, b: Date) {
    a.year < b.year ||
    (a.year == b.year && (a.month < b.month || (a.month == b.month && a.day < b.day)))
  }

  lemma MonthStep(year: int, month: int)
    requires 1 <= month < 12
    ensures DaysBeforeMonth(year, month + 1) == DaysBeforeMonth(year, month) + DaysInMonth(year, month)
  {
  }

  lemma MonthsFillYear(year: int)
    ensures DaysBeforeMonth(year, 12) + DaysInMonth(year, 12) == YearLength(year)
  {
  }

  /** Consecutive years start `YearLength` days apart: the closed form counts one
      extra day exactly for the leap years. */
  lemma YearStep(year: int)
    ensures DayFromYear(year + 1) == DayFromYear(year) + YearLength(year)
  {
    var n4 := (year - 1968) / 4 - (year - 1969) / 4;
    var n100 := (year - 1900) / 100 - (year - 1901) / 100;
    var n400 := (year - 1600) / 400 - (year - 1601) / 400;
    assert n4 == (if year % 4 == 0 then 1 else 0) by { FloorStep4(year - 1969); ShiftMod4(year); }
    assert n100 == (if year % 100 == 0 then 1 else 0) by { FloorStep100(year - 1901); ShiftMod100(year); }
    assert n400 == (if year % 400 == 0 then 1 else 0) by { FloorStep400(year - 1601); ShiftMod400(year); }
    DivisorsNest(year);
    assert YearLength(year) == 365 + n4 - n100 + n400;
  }

  lemma FloorStep4(a: int)
    ensures (a + 1) / 4 - a / 4 == if (a + 1) % 4 == 0 then 1 else 0
  {
  }

  lemma FloorStep100(a: int)
    ensures (a + 1) / 100 - a / 100 == if (a + 1) % 100 == 0 then 1 else 0
  {
  }

  lemma FloorStep400(a: int)
    ensures (a + 1) / 400 - a / 400 == if (a + 1) % 400 == 0 then 1 else 0
  {
  }

  lemma ShiftMod4(year: int)
    ensures (year - 1968) % 4 == 0 <==> year % 4 == 0
  {
  }

  lemma ShiftMod100(year: int)
    ensures (year - 1900) % 100 == 0 <==> year % 100 == 0
  {
  }

  lemma ShiftMod400(year: int)
    ensures (year - 1600) % 400 == 0 <==> year % 400 == 0
  {
  }

  lemma DivisorsNest(year: int)
    ensures year % 100 == 0 ==> year % 4 == 0
    ensures year % 400 == 0 ==> year % 100 == 0
  {
  }

  /** January 1, 1970 is day 0. */
  lemma EpochIsThursday()
    ensures DayNumber(Date(1970, 1, 1)) == 0 && WeekDay(0) == 4
  {
    assert DayFromYear(1970) == 0;
    assert DaysBeforeMonth(1970, 1) == 0;
  }

  /** Counting months from `month`, the search finds the date `r` days later
      within the same year. */
  lemma {:induction false} MonthSearchSpec(year: int, month: int, r: int)
    requires 1 <= month <= 12 && 0 <= r
    requires DaysBeforeMonth(year, month) + r < YearLength(year)
    ensures var d := MonthSearch(year, month, r);
      d.year == year && ValidDate(d) &&
      DaysBeforeMonth(year, d.month) + d.day - 1 == DaysBeforeMonth(year, month) + r
    decreases 12 - month
  {
    if month == 12 {
      MonthsFillYear(year);
    } else if r >= DaysInMonth(year, month) {
      MonthStep(year, month);
      MonthSearchSpec(year, month + 1, r - DaysInMonth(year, month));
    }
  }

  /** The date `r` days after January 1 of `year` is a real date with that day number. */
  lemma {:induction false} FromYearOffsetSpec(year: int, r: int)
    ensures ValidDate(FromYearOffset(year, r))
    ensures DayNumber(FromYearOffset(year, r)) == DayFromYear(year) + r
    decreases if r < 0 then 1 else 0, if r < 0 then -r else r
  {
    if r < 0 {
      YearStep(year - 1);
      FromYearOffsetSpec(year - 1, r + YearLength(year - 1));
    } else if r >= YearLength(year) {
      YearStep(year);
      FromYearOffsetSpec(year + 1, r - YearLength(year));
    } else {
      MonthSearchSpec(year, 1, r);
    }
  }

  /** Reading a day number back gives a real date with that day number. */
  lemma DateFromDaySpec(t: int)
    ensures ValidDate(DateFromDay(t)) && DayNumber(DateFromDay(t)) == t
  {
    FromYearOffsetSpec(1970, t);
  }

  lemma {:induction false} DayFromYearGrows(y1: int, y2: int)
    requires y1 < y2
    ensures DayFromYear(y1) + YearLength(y1) <= DayFromYear(y2)
    decreases y2 - y1
  {
    YearStep(y1);
    if y1 + 1 < y2 {
      DayFromYearGrows(y1 + 1, y2);
      YearStep(y1 + 1);
    }
  }

  lemma DaysBeforeMonthGrows(year: int, m1: int, m2: int)
    requires 1 <= m1 < m2 <= 12
    ensures DaysBeforeMonth(year, m1) + DaysInMonth(year, m1) <= DaysBeforeMonth(year, m2)
  {
  }

  lemma DayWithinYear(d: Date)
    requires ValidDate(d)
    ensures 0 <= DaysBeforeMonth(d.year, d.month) + d.day - 1 < YearLength(d.year)
  {
    if d.month < 12 {
      DaysBeforeMonthGrows(d.year, d.month, 12);
    }
    MonthsFillYear(d.year);
  }

  /** Day numbers respect calendar order. */
  lemma DayNumberOrder(a: Date, b: Date)
    requires ValidDate(a) && ValidDate(b) && Precedes(a, b)
    ensures DayNumber(a) < DayNumber(b)
  {
    if a.year < b.year {
      DayWithinYear(a);
      DayWithinYear(b);
      DayFromYearGrows(a.year, b.year);
    } else if a.month < b.month {
      DaysBeforeMonthGrows(a.year, a.month, b.month);
    }
  }

  /** Calendar order and day-number order coincide on real dates. */
  lemma PrecedesIffEarlier(a: Date, b: Date)
    requires ValidDate(a) && ValidDate(b)
    ensures Precedes(a, b) <==> DayNumber(a) < DayNumber(b)
  {
    if Precedes(a, b) {
      DayNumberOrder(a, b);
    } else if Precedes(b, a) {
      DayNumberOrder(b, a);
    }
  }

  /** Two real dates with the same day number are the same date. */
  lemma DayNumberInjective(a: Date, b: Date)
    requires ValidDate(a) && ValidDate(b) && DayNumber(a) == DayNumber(b)
    ensures a == b
  {
    if Precedes(a, b) {
      DayNumberOrder(a, b);
    } else if Precedes(b, a) {
      DayNumberOrder(b, a);
    }
  }

  /** Reading back the day number of a real date gives that date. */
  lemma DateFromDayNumber(d: Date)
    requires ValidDate(d)
    ensures DateFromDay(DayNumber(d)) == d
  {
    DateFromDaySpec(DayNumber(d));
    DayNumberInjective(DateFromDay(DayNumber(d)), d);
  }

  /** `new Date(y, m - 1, d)` with `m` in 1..12 is day `d - 1` after the first
      of that month, whether or not `d` lies in the month. */
  lemma MakeDayInYear(year: int, month: int, day: int)
    requires 1 <= month <= 12
    ensures MakeDay(year, month - 1, day) == DayNumber(Date(year, month, day))
  {
    assert (month - 1) / 12 == 0 && (month - 1) % 12 == month - 1;
  }

  /** `new Date(y, m - 1, d)` on a real date denotes that date. */
  lemma MakeDayOfValid(d: Date)
    requires ValidDate(d)
    ensures DateFromDay(MakeDay(d.year, d.month - 1, d.day)) == d
  {
    MakeDayInYear(d.year, d.month, d.day);
    DateFromDayNumber(d);
  }

  /** `new Date(getFullYear(), getMonth(), getDate())` rebuilds the same day. */
  lemma MakeDayOfDay(t: int)
    ensures var f := DateFromDay(t);
      MakeDay(f.year, f.month - 1, f.day) == t
  {
    var f := DateFromDay(t);
    DateFromDaySpec(t);
    MakeDayInYear(f.year, f.month, f.day);
  }

  /** `temp.setDate(temp.getDate() + k)` moves a date by exactly `k` days. */
  lemma SetDateMoves(t: int, k: int)
    ensures var f := DateFromDay(t);
      MakeDay(f.year, f.month - 1, f.day + k) == t + k
  {
    var f := DateFromDay(t);
    DateFromDaySpec(t);
    MakeDayInYear(f.year, f.month, f.day + k);
  }

  /** Weekdays advance by one each day, wrapping after Saturday. */
  lemma WeekDayShift(t: int, n: int)
    ensures WeekDay(t + n) == (WeekDay(t) + n) % 7
  {
    var a := t + 4;
    var x := a % 7 + n;
    assert a == 7 * (a / 7) + a % 7;
    assert x == 7 * (x / 7) + x % 7;
    assert a + n == 7 * (a / 7 + x / 7) + x % 7;
  }
}
