/**
 * The date helpers of the holiday service: parsing a "YYYY/MM/DD" string,
 * the weekday of a date, the "Ley de Puente" shift to the next Monday
 * (article 1 of Colombia's Ley 51 de 1983), Easter Sunday by Gauss's
 * congruences, and the in-memory list of Easter-relative holidays.
 */
module DateUtils {
  import opened Wrappers
  import opened Calendar
  import opened Text

  // ---------------------------------------------------------------------
  // parseAndValidateDate

  /** The three numeric fields of a "YYYY/MM/DD" string, if it has exactly
      three '/'-separated fields and each is a decimal number. */
  function DateFields(dateStr: string): Option<Date> {
    var parts := Split(dateStr, '/');
    if |parts| != 3 then None
    else match (ParseDigits(parts[0]), ParseDigits(parts[1]), ParseDigits(parts[2]))
      case (Some(year), Some(month), Some(day)) => Some(Date(year, month, day))
      case _ => None
  }

  /** `parseAndValidateDate`: the date a "YYYY/MM/DD" string names, or `None`
      when the shape, the month or the day is wrong. */
  function ParseAndValidateDate(dateStr: string): (r: Option<Date>)
    ensures r.Some? <==> DateFields(dateStr).Some? && ValidDate(DateFields(dateStr).value)
    ensures r.Some? ==> r == DateFields(dateStr) && r.value.year >= 0
  {
    var parts := Split(dateStr, '/');
    if |parts| != 3 then None
    else
      var year := ParseDigits(parts[0]);
      var month := ParseDigits(parts[1]);
      var day := ParseDigits(parts[2]);
      if year.None? || month.None? || day.None? then None
      else if month.value < 1 || month.value > 12 then None
      else
        // The month-length table is written out here as `parseAndValidateDate`
        // writes it; the first ensures shows it agrees with `DaysInMonth`.
        var maxDays :=
          if month.value == 2 then (if IsLeapYear(year.value) then 29 else 28)
          else if (month.value == 4 || month.value == 6 || month.value == 9 || month.value == 11) then 30
          else 31;
        if day.value < 1 || day.value > maxDays then None
        else Some(Date(year.value, month.value, day.value))
  }

  /** The "Y/M/D" rendering of three numbers, without zero padding. */
  function FormatFields(year: nat, month: nat, day: nat): string {
    ShowNat(year) + "/" + ShowNat(month) + "/" + ShowNat(day)
  }

  /** Every valid date with a non-negative year is read back from its rendering. */
  lemma ParseFormatDate(d: Date)
    requires d.year >= 0 && ValidDate(d)
    ensures ParseAndValidateDate(FormatFields(d.year, d.month, d.day)) == Some(d)
  {
    FieldsRoundTrip(d.year, d.month, d.day);
  }

  /** A string with other than three '/'-separated fields is rejected. */
  lemma ParseRejectsFieldCount(dateStr: string)
    requires |Split(dateStr, '/')| != 3
    ensures ParseAndValidateDate(dateStr) == None
  {
  }

  /** A month outside 1..12 is rejected whatever the year and day. */
  lemma ParseRejectsMonth(year: nat, month: nat, day: nat)
    requires month < 1 || month > 12
    ensures ParseAndValidateDate(FormatFields(year, month, day)) == None
  {
    FieldsRoundTrip(year, month, day);
  }

  /** February 29 is accepted exactly in leap years. */
  lemma ParseLeapDay(year: nat)
    ensures ParseAndValidateDate(FormatFields(year, 2, 29)).Some? <==> IsLeapYear(year)
  {
    FieldsRoundTrip(year, 2, 29);
  }

  lemma FieldsRoundTrip(year: nat, month: nat, day: nat)
    ensures DateFields(FormatFields(year, month, day)) == Some(Date(year, month, day))
  {
    var parts := [ShowNat(year), ShowNat(month), ShowNat(day)];
    forall i | 0 <= i < 3 ensures '/' !in parts[i] {
      DigitsLackSeparator(parts[i], '/');
    }
    assert Join(parts[2..], '/') == parts[2];
    assert Join(parts[1..], '/') == parts[1] + "/" + parts[2];
    assert Join(parts, '/') == FormatFields(year, month, day);
    SplitJoin(parts, '/');
    ParseShowNat(year);
    ParseShowNat(month);
    ParseShowNat(day);
  }

  // ---------------------------------------------------------------------
  // getDayOfWeek

  /** `getDayOfWeek`: the weekday of `new Date(year, month - 1, day)`,
      0 = Sunday, 1 = Monday, ..., 6 = Saturday. */
  function GetDayOfWeek(year: int, month: int, day: int): (w: int)
    ensures 0 <= w < 7
  {
    WeekDay(MakeDay(year, month - 1, day))
  }

  /** On a real date, `getDayOfWeek` is the weekday of that date's day number. */
  lemma DayOfWeekOfDate(d: Date)
    requires ValidDate(d)
    ensures GetDayOfWeek(d.year, d.month, d.day) == WeekDay(DayNumber(d))
  {
    MakeDayInYear(d.year, d.month, d.day);
  }

  /** Reading a day back into fields and asking `getDayOfWeek` gives that day's weekday. */
  lemma DayOfWeekOfDay(t: int)
    ensures var d := DateFromDay(t);
      GetDayOfWeek(d.year, d.month, d.day) == WeekDay(t)
  {
    DateFromDaySpec(t);
    DayOfWeekOfDate(DateFromDay(t));
  }

  /** Consecutive days of the month have consecutive weekdays, Saturday
      wrapping to Sunday, even where the day overflows the month. */
  lemma DayOfWeekNext(year: int, month: int, day: int)
    ensures GetDayOfWeek(year, month, day + 1) == (GetDayOfWeek(year, month, day) + 1) % 7
  {
    WeekDayShift(MakeDay(year, month - 1, day), 1);
  }

  /** January 1, 1970 was a Thursday. */
  lemma DayOfWeekEpoch()
    ensures GetDayOfWeek(1970, 1, 1) == 4
  {
    EpochIsThursday();
    DayOfWeekOfDate(Date(1970, 1, 1));
  }

  // ---------------------------------------------------------------------
  // shiftToNextMonday

  /** Days from day `t` to the first Monday on or after it. */
  function DaysToMonday(t: int): (n: int)
    ensures 0 <= n <= 6
  {
    (8 - WeekDay(t)) % 7
  }

  /** The first Monday on or after day `t`: where the "Ley de Puente" moves a
      holiday to. */
  function NextMonday(t: int): int {
    t + DaysToMonday(t)
  }

  /** The next Monday is a Monday, at most six days ahead. */
  lemma NextMondayIsMonday(t: int)
    ensures WeekDay(NextMonday(t)) == 1
    ensures t <= NextMonday(t) <= t + 6
  {
    WeekDayShift(t, DaysToMonday(t));
  }

  /** A Monday is its own next Monday. */
  lemma NextMondayOfMonday(t: int)
    requires WeekDay(t) == 1
    ensures NextMonday(t) == t
  {
  }

  /** No Monday lies between `t` and `NextMonday(t)`. */
  lemma NextMondayIsFirst(t: int, m: int)
    requires t <= m && WeekDay(m) == 1
    ensures NextMonday(t) <= m
  {
    WeekDayShift(t, m - t);
    FirstMondayDistance(WeekDay(t), m - t);
  }

  lemma FirstMondayDistance(w: int, k: int)
    requires 0 <= w < 7 && 0 <= k && (w + k) % 7 == 1
    ensures (8 - w) % 7 <= k
  {
  }

  /** Stepping one day from a day that is not a Monday keeps the same next
      Monday, one day closer. */
  lemma NextMondayStep(t: int)
    requires WeekDay(t) != 1
    ensures DaysToMonday(t + 1) == DaysToMonday(t) - 1
    ensures NextMonday(t + 1) == NextMonday(t)
  {
    WeekDayShift(t, 1);
    DaysToMondayStep(WeekDay(t));
  }

  lemma DaysToMondayStep(w: int)
    requires 0 <= w < 7 && w != 1
    ensures (8 - (w + 1) % 7) % 7 == (8 - w) % 7 - 1
  {
  }

  /** `shiftToNextMonday`: starting from `new Date(year, month - 1, day)`,
      advance the date a day at a time with `setDate(getDate() + 1)` until
      its weekday is Monday, and return its fields. */
  method ShiftToNextMonday(year: int, month: int, day: int) returns (r: Date)
    ensures r == ShiftedDate(year, month, day)
  {
    var tempDate := MakeDay(year, month - 1, day);
    while WeekDay(tempDate) != 1
      invariant NextMonday(tempDate) == NextMonday(MakeDay(year, month - 1, day))
      decreases DaysToMonday(tempDate)
    {
      NextMondayStep(tempDate);
      SetDateMoves(tempDate, 1);
      var f := DateFromDay(tempDate);
      tempDate := MakeDay(f.year, f.month - 1, f.day + 1);
    }
    NextMondayOfMonday(tempDate);
    r := DateFromDay(tempDate);
  }

  /** The fields `shiftToNextMonday(year, month, day)` returns. */
  function ShiftedDate(year: int, month: int, day: int): Date {
    DateFromDay(NextMonday(MakeDay(year, month - 1, day)))
  }

  /** For a real date `d`, `shiftToNextMonday` returns a real date that is a
      Monday, no earlier than `d` and at most six days later. */
  lemma ShiftedDateIsMonday(d: Date)
    requires ValidDate(d)
    ensures var r := ShiftedDate(d.year, d.month, d.day);
      ValidDate(r) && GetDayOfWeek(r.year, r.month, r.day) == 1 &&
      DayNumber(d) <= DayNumber(r) <= DayNumber(d) + 6
  {
    var t := DayNumber(d);
    MakeDayInYear(d.year, d.month, d.day);
    DateFromDaySpec(NextMonday(t));
    NextMondayIsMonday(t);
    DayOfWeekOfDay(NextMonday(t));
  }

  /** A real date that is a Monday is returned unchanged. */
  lemma ShiftedDateOfMonday(d: Date)
    requires ValidDate(d) && GetDayOfWeek(d.year, d.month, d.day) == 1
    ensures ShiftedDate(d.year, d.month, d.day) == d
  {
    MakeDayInYear(d.year, d.month, d.day);
    NextMondayOfMonday(DayNumber(d));
    DateFromDayNumber(d);
  }

  /** No Monday lies between a real date `d` and its shifted date. */
  lemma ShiftedDateIsFirst(d: Date, m: Date)
    requires ValidDate(d) && ValidDate(m) && GetDayOfWeek(m.year, m.month, m.day) == 1
    requires DayNumber(d) <= DayNumber(m)
    ensures ValidDate(ShiftedDate(d.year, d.month, d.day))
    ensures DayNumber(ShiftedDate(d.year, d.month, d.day)) <= DayNumber(m)
  {
    var t := DayNumber(d);
    MakeDayInYear(d.year, d.month, d.day);
    DateFromDaySpec(NextMonday(t));
    DayOfWeekOfDate(m);
    NextMondayIsFirst(t, DayNumber(m));
  }

  /** The shifted date of a real date `d` is the one real Monday from `d` to
      six days after it. */
  lemma ShiftedDateWindow(d: Date, m: Date)
    requires ValidDate(d)
    ensures ShiftedDate(d.year, d.month, d.day) == m <==>
      ValidDate(m) && GetDayOfWeek(m.year, m.month, m.day) == 1 &&
      DayNumber(d) <= DayNumber(m) <= DayNumber(d) + 6
  {
    var s := ShiftedDate(d.year, d.month, d.day);
    ShiftedDateIsMonday(d);
    if ValidDate(m) && GetDayOfWeek(m.year, m.month, m.day) == 1 &&
       DayNumber(d) <= DayNumber(m) <= DayNumber(d) + 6 {
      ShiftedDateIsFirst(d, m);
      DayOfWeekOfDate(m);
      DayOfWeekOfDate(s);
      SameWeekDayWithinWeek(DayNumber(s), DayNumber(m));
      DayNumberInjective(s, m);
    }
  }

  /** Two days less than a week apart with the same weekday are the same day. */
  lemma SameWeekDayWithinWeek(a: int, b: int)
    requires a <= b < a + 7 && WeekDay(a) == WeekDay(b)
    ensures a == b
  {
    WeekDayShift(a, b - a);
  }

  // ---------------------------------------------------------------------
  // getEasterSunday

  /** JavaScript's `%`: the remainder of truncating division. */
  function JsRemainder(a: int, b: int): (r: int)
    requires b > 0
    ensures a >= 0 ==> r == a % b
    ensures -b < r < b
  {
    if a >= 0 then a % b else -((-a) % b)
  }

  /** Gauss's `d = (19a + M) mod 30` with M = 24. */
  function GaussD(year: int): int {
    JsRemainder(19 * JsRemainder(year, 19) + 24, 30)
  }

  /** Gauss's `e = (2b + 4c + 6d + N) mod 7` with N = 5. */
  function GaussE(year: int): int {
    JsRemainder(2 * JsRemainder(year, 4) + 4 * JsRemainder(year, 7) + 6 * GaussD(year) + 5, 7)
  }

  /** The day `new Date(year, 2, 15 + (d + e) + 7)` denotes. */
  function EasterDay(year: int): int {
    var daysAfterMarch15 := GaussD(year) + GaussE(year);
    MakeDay(year, 2, 15 + daysAfterMarch15 + 7)
  }

  /** `getEasterSunday`: that day, read back into fields. */
  function GetEasterSunday(year: int): Date {
    DateFromDay(EasterDay(year))
  }

  lemma GaussBounds(year: int)
    requires year >= 0
    ensures 0 <= GaussD(year) <= 29 && 0 <= GaussE(year) <= 6
  {
  }

  /** For every year from 0 on, Easter is March 22 + d + e with d in 0..29 and
      e in 0..6: a real date between March 22 and April 26 of that year. */
  lemma EasterSundayInSpring(year: int)
    requires year >= 0
    ensures GetEasterSunday(year) ==
      (var k := 22 + GaussD(year) + GaussE(year);
       if k <= 31 then Date(year, 3, k) else Date(year, 4, k - 31))
    ensures var r := GetEasterSunday(year);
      ValidDate(r) && r.year == year && ((r.month == 3 && 22 <= r.day) || (r.month == 4 && r.day <= 26))
  {
    GaussBounds(year);
    var k := 22 + GaussD(year) + GaussE(year);
    var c := if k <= 31 then Date(year, 3, k) else Date(year, 4, k - 31);
    assert ValidDate(c);
    MakeDayInYear(year, 3, k);
    if k > 31 {
      MonthStep(year, 3);
    }
    assert MakeDay(year, 2, k) == DayNumber(c);
    DateFromDayNumber(c);
  }

  /** With the constants M = 24 and N = 5, valid for 1900-2099, the formula
      lands on a Sunday. */
  lemma EasterIsSunday(year: int)
    requires 1900 <= year <= 2099
    ensures var r := GetEasterSunday(year);
      ValidDate(r) && GetDayOfWeek(r.year, r.month, r.day) == 0
  {
    EasterDayIsSunday(year);
    DateFromDaySpec(EasterDay(year));
    DayOfWeekOfDay(EasterDay(year));
  }

  lemma EasterDayIsSunday(year: int)
    requires 1900 <= year <= 2099
    ensures WeekDay(EasterDay(year)) == 0
  {
    var d, e := GaussD(year), GaussE(year);
    EasterDayCount(year);
    GaussERemainder(year);
    var b, c := year % 4, year % 7;
    SundayArithmetic(year, year / 4, b, year / 7, c, d, e, (2 * b + 4 * c + 6 * d + 5) / 7, EasterDay(year) + 4);
  }

  /** The day number of Easter in 1900-2099, as a linear form in the year. */
  lemma EasterDayCount(year: int)
    requires 1900 <= year <= 2099
    ensures EasterDay(year) + 4 ==
      365 * year + year / 4 + GaussD(year) + GaussE(year) - 719458
  {
    var leap := if IsLeapYear(year) then 1 else 0;
    MakeDayInYear(year, 3, 22 + GaussD(year) + GaussE(year));
    assert DaysBeforeMonth(year, 3) == 59 + leap;
    LeapDaysSince1970(year, leap);
  }

  lemma GaussERemainder(year: int)
    requires year >= 0
    ensures var n := 2 * (year % 4) + 4 * (year % 7) + 6 * GaussD(year) + 5;
      n == 7 * (n / 7) + GaussE(year)
  {
    GaussBounds(year);
  }

  /** The leap days `DayFromYear` counts for a year of 1900-2099, plus that
      year's own by the end of February, come to a quarter of the year less 492. */
  lemma LeapDaysSince1970(year: int, leap: int)
    requires 1900 <= year <= 2099
    requires leap == if IsLeapYear(year) then 1 else 0
    ensures (year - 1969) / 4 - (year - 1901) / 100 + (year - 1601) / 400 + leap == year / 4 - 492
  {
    if year == 1900 {
    } else if year <= 2000 {
      assert (year - 1901) / 100 == 0 && (year - 1601) / 400 == 0;
      assert IsLeapYear(year) <==> year % 4 == 0;
    } else {
      assert (year - 1901) / 100 == 1 && (year - 1601) / 400 == 1;
      assert IsLeapYear(year) <==> year % 4 == 0;
    }
  }

  /** The congruence behind `EasterIsSunday`: with b, c and e the remainders
      of Gauss's method, four days after March 22 + d + e is a multiple of 7. */
  lemma SundayArithmetic(year: int, q: int, b: int, s: int, c: int, d: int, e: int, t: int, x: int)
    requires year == 4 * q + b && year == 7 * s + c
    requires 2 * b + 4 * c + 6 * d + 5 == 7 * t + e
    requires x == 365 * year + q + d + e - 719458
    ensures x % 7 == 0
  {
    assert x == 7 * (53 * year - q - 4 * s + d - t - 102779);
  }

  // ---------------------------------------------------------------------
  // buildPascuaFestives

  /** One row of the Easter-relative table: a name, a day offset from Easter
      Sunday, and whether the date is then moved to a Monday. */
  datatype PascuaEntry = PascuaEntry(name: string, offset: int, checkMonday: bool)

  /** A holiday occurrence in a given year. */
  datatype Festive = Festive(name: string, date: Date)

  const PascuaTable: seq<PascuaEntry> := [
    PascuaEntry("Domingo de Ramos", -7, false),
    PascuaEntry("Jueves Santo", -3, false),
    PascuaEntry("Viernes Santo", -2, false),
    PascuaEntry("Domingo de Pascua", 0, false),
    PascuaEntry("Ascensión del Señor", 40, true),
    PascuaEntry("Corpus Christi", 61, true),
    PascuaEntry("Sagrado Corazón de Jesús", 68, true)
  ]

  /** `new Date(d.year, d.month - 1, d.day)` moved with `setDate(getDate() + k)`,
      read back into fields. */
  function MovedBy(d: Date, k: int): Date {
    var temp := MakeDay(d.year, d.month - 1, d.day);
    var f := DateFromDay(temp);
    DateFromDay(MakeDay(f.year, f.month - 1, f.day + k))
  }

  /** A flagged date whose weekday is not Monday goes through `shiftToNextMonday`. */
  function MondayIfFlagged(d: Date, checkMonday: bool): Date {
    if checkMonday && GetDayOfWeek(d.year, d.month, d.day) != 1 then ShiftedDate(d.year, d.month, d.day)
    else d
  }

  /** The occurrence of one table row, as one pass of the `forEach` body
      computes it. */
  function PascuaFestive(easter: Date, fest: PascuaEntry): Festive {
    Festive(fest.name, MondayIfFlagged(MovedBy(easter, fest.offset), fest.checkMonday))
  }

  /** The body of the `forEach` in `buildPascuaFestives`. */
  method PascuaOccurrence(easter: Date, fest: PascuaEntry) returns (festive: Festive)
    ensures festive == PascuaFestive(easter, fest)
  {
    var moved := MovedBy(easter, fest.offset);
    var yearF, monthF, dayF := moved.year, moved.month, moved.day;
    if fest.checkMonday {
      var dow := GetDayOfWeek(yearF, monthF, dayF);
      if dow != 1 {
        var shifted := ShiftToNextMonday(yearF, monthF, dayF);
        yearF, monthF, dayF := shifted.year, shifted.month, shifted.day;
      }
    }
    festive := Festive(fest.name, Date(yearF, monthF, dayF));
  }

  /** Moving the fields of day `t` by `k` days gives the fields of day `t + k`. */
  lemma MovedBySpec(t: int, k: int)
    ensures MovedBy(DateFromDay(t), k) == DateFromDay(t + k)
  {
    MakeDayOfDay(t);
    SetDateMoves(t, k);
  }

  /** On the fields of day `t`, the flag moves the date to the next Monday. */
  lemma MondayIfFlaggedSpec(t: int, checkMonday: bool)
    ensures MondayIfFlagged(DateFromDay(t), checkMonday) ==
      DateFromDay(if checkMonday then NextMonday(t) else t)
  {
    MakeDayOfDay(t);
    DayOfWeekOfDay(t);
    if checkMonday && WeekDay(t) == 1 {
      NextMondayOfMonday(t);
    }
  }

  /** One row's occurrence: Easter moved by the row's offset, and for a
      flagged row, the first Monday on or after that day. */
  lemma PascuaFestiveSpec(easter: int, fest: PascuaEntry)
    ensures var t := easter + fest.offset;
      PascuaFestive(DateFromDay(easter), fest) ==
        Festive(fest.name, DateFromDay(if fest.checkMonday then NextMonday(t) else t))
  {
    MovedBySpec(easter, fest.offset);
    MondayIfFlaggedSpec(easter + fest.offset, fest.checkMonday);
  }

  /** The occurrences of the rows of `table`, in table order. */
  function Occurrences(easter: Date, table: seq<PascuaEntry>): (fs: seq<Festive>)
    ensures |fs| == |table|
  {
    if |table| == 0 then []
    else Occurrences(easter, table[..|table| - 1]) + [PascuaFestive(easter, table[|table| - 1])]
  }

  /** The list `buildPascuaFestives(year)` returns. */
  function PascuaFestives(year: int): seq<Festive> {
    Occurrences(GetEasterSunday(year), PascuaTable)
  }

  /** `buildPascuaFestives`: compute Easter, then push one entry per table row. */
  method BuildPascuaFestives(year: int) returns (results: seq<Festive>)
    ensures results == PascuaFestives(year)
  {
    var easter := GetEasterSunday(year);
    results := [];
    for i := 0 to |PascuaTable|
      invariant results == Occurrences(easter, PascuaTable[..i])
    {
      var festive := PascuaOccurrence(easter, PascuaTable[i]);
      assert PascuaTable[..i + 1][..i] == PascuaTable[..i];
      results := results + [festive];
    }
    assert PascuaTable[..|PascuaTable|] == PascuaTable;
  }

  /** Row `i` of the table yields entry `i` of the list. */
  lemma {:induction false} OccurrencesAt(easter: Date, table: seq<PascuaEntry>, i: int)
    requires 0 <= i < |table|
    ensures Occurrences(easter, table)[i] == PascuaFestive(easter, table[i])
    decreases |table|
  {
    if i < |table| - 1 {
      OccurrencesAt(easter, table[..|table| - 1], i);
    }
  }

  /** The list has one entry per row, in table order, each as
      `PascuaFestiveSpec` describes. */
  lemma PascuaFestivesSpec(year: int)
    ensures |PascuaFestives(year)| == |PascuaTable|
    ensures forall i :: 0 <= i < |PascuaTable| ==>
      PascuaFestives(year)[i] == PascuaFestive(GetEasterSunday(year), PascuaTable[i])
  {
    forall i | 0 <= i < |PascuaTable|
      ensures PascuaFestives(year)[i] == PascuaFestive(GetEasterSunday(year), PascuaTable[i])
    {
      OccurrencesAt(GetEasterSunday(year), PascuaTable, i);
    }
  }

  /** Days from Easter Sunday at which each row lands in 1900-2099, and the
      weekday it lands on (0 = Sunday, 1 = Monday, 4 = Thursday, 5 = Friday). */
  const PascuaDays: seq<int> := [-7, -3, -2, 0, 43, 64, 71]
  const PascuaWeekdays: seq<int> := [0, 4, 5, 0, 1, 1, 1]

  /** For 1900-2099 the table gives Palm Sunday, Holy Thursday, Good Friday and
      Easter Sunday on their own weekdays, and moves Ascension, Corpus Christi
      and the Sacred Heart from a Friday to the Monday 43, 64 and 71 days after
      Easter. */
  lemma PascuaFestivesDates(year: int)
    requires 1900 <= year <= 2099
    ensures |PascuaFestives(year)| == 7
    ensures forall i :: 0 <= i < 7 ==>
      PascuaFestives(year)[i].date == DateFromDay(EasterDay(year) + PascuaDays[i])
    ensures forall i :: 0 <= i < 7 ==> WeekDay(EasterDay(year) + PascuaDays[i]) == PascuaWeekdays[i]
  {
    EasterDayIsSunday(year);
    forall i | 0 <= i < 7
      ensures PascuaFestives(year)[i].date == DateFromDay(EasterDay(year) + PascuaDays[i])
      ensures WeekDay(EasterDay(year) + PascuaDays[i]) == PascuaWeekdays[i]
    {
      PascuaDateAt(EasterDay(year), i);
      PascuaWeekdayAt(EasterDay(year), i);
      OccurrencesAt(GetEasterSunday(year), PascuaTable, i);
    }
  }

  /** For 1900-2099 every Easter-relative holiday is a real date from Palm
      Sunday to 71 days after Easter Sunday. */
  lemma PascuaFestivesWindow(year: int)
    requires 1900 <= year <= 2099
    ensures forall f :: f in PascuaFestives(year) ==>
      ValidDate(f.date) && EasterDay(year) - 7 <= DayNumber(f.date) <= EasterDay(year) + 71
  {
    PascuaFestivesDates(year);
    var fs := PascuaFestives(year);
    forall f | f in fs
      ensures ValidDate(f.date) && EasterDay(year) - 7 <= DayNumber(f.date) <= EasterDay(year) + 71
    {
      var i :| 0 <= i < 7 && fs[i] == f;
      assert -7 <= PascuaDays[i] <= 71;
      DateFromDaySpec(EasterDay(year) + PascuaDays[i]);
    }
  }

  /** For 1900-2099 row `i` of the table is in the list with its date. */
  lemma PascuaFestiveListed(year: int, i: int)
    requires 1900 <= year <= 2099 && 0 <= i < 7
    ensures exists f :: f in PascuaFestives(year) && f.date == DateFromDay(EasterDay(year) + PascuaDays[i])
  {
    PascuaFestivesDates(year);
    var fs := PascuaFestives(year);
    assert fs[i] in fs;
  }

  /** Row `i`, counted from an Easter Sunday numbered `easter`, lands on day
      `easter + PascuaDays[i]`. */
  lemma PascuaDateAt(easter: int, i: int)
    requires WeekDay(easter) == 0 && 0 <= i < 7
    ensures PascuaFestive(DateFromDay(easter), PascuaTable[i]).date == DateFromDay(easter + PascuaDays[i])
  {
    var fest := PascuaTable[i];
    PascuaFestiveSpec(easter, fest);
    if fest.checkMonday {
      ShiftedToMonday(easter, fest.offset);
      assert fest.offset + 3 == PascuaDays[i];
    } else {
      assert fest.offset == PascuaDays[i];
    }
  }

  /** Day `easter + PascuaDays[i]` after a Sunday has weekday `PascuaWeekdays[i]`. */
  lemma PascuaWeekdayAt(easter: int, i: int)
    requires WeekDay(easter) == 0 && 0 <= i < 7
    ensures WeekDay(easter + PascuaDays[i]) == PascuaWeekdays[i]
  {
    WeekDayShift(easter, PascuaDays[i]);
  }

  /** A day 40, 61 or 68 days after a Sunday is a Friday, so its next Monday
      is three days later. */
  lemma ShiftedToMonday(sunday: int, offset: int)
    requires WeekDay(sunday) == 0 && (offset == 40 || offset == 61 || offset == 68)
    ensures NextMonday(sunday + offset) == sunday + offset + 3
  {
    WeekDayShift(sunday, offset);
  }
}
