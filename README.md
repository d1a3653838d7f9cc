# festivos-api holiday engine in Dafny

This project models the part of `festivos-api` that decides whether a
`YYYY/MM/DD` date is a Colombian public holiday, and proves what that
decision rests on.

- **Calendar** models a JavaScript `Date` the way the code uses it. A date is
  its day number, with day 0 being 1970-01-01, a Thursday. The module follows
  the day-level operations of the ECMAScript specification:
  - `DayFromYear` and `MakeDay`, which is `new Date(y, m, d)` with months and
    days that overflow into the next month or year;
  - `WeekDay`, which is `getDay()`;
  - `DateFromDay`, which is what `getFullYear()`, `getMonth() + 1` and
    `getDate()` read back.

  It proves that reading back inverts `MakeDay` on real dates, and that
  `setDate(getDate() + k)` moves a date by exactly `k` days.
- **Text** models `String.prototype.split`, with its inverse `join`, and a
  decimal field parser that stands in for `parseInt(part, 10)`.
- **DateUtils** models `dateUtils.js`:
  - `parseAndValidateDate` and `isLeapYear`;
  - `getDayOfWeek`;
  - `shiftToNextMonday`, the "Ley de Puente" transfer of article 1 of
    Colombia's Ley 51 de 1983. It is a method with the source's loop, which
    advances one day at a time until Monday;
  - `getEasterSunday`, Gauss's congruences with M = 24 and N = 5, using
    JavaScript's truncating `%`;
  - `buildPascuaFestives`, a method with the source's loop over its
    seven-row table.
- **HolidayController** models the decision logic of `checkHoliday`:
  1. validate the date; an invalid date gives status 400;
  2. select the type 1 and type 2 records, as `Holiday.find` does;
  3. scan them in order and stop at the first match;
  4. fall back to the Easter-relative list;
  5. answer "Es Festivo" or "No es Festivo". A failed query gives status 500.

  The holiday collection is a parameter, either the records it holds or the
  message of a failed query.
- **Examples** holds the seeded collection and worked answers for 2023 and
  2024.

The proofs show the following:
- The parser accepts exactly the real dates, and reads back every date it
  renders.
- The shifted date is a real Monday, never earlier than the nominal date and
  at most six days later, with no Monday in between. A Monday is left as it
  is.
- Easter falls between March 22 and April 26, and on a Sunday for every year
  from 1900 to 2099. In those years the seven Easter-relative holidays fall
  7, 3 and 2 days before Easter, on Easter itself, and on the Mondays 43, 64
  and 71 days after it.
- The verdict is "Es Festivo" exactly when some record matches or some
  Easter-relative holiday of the year falls on the date. The verdict depends
  only on which records the collection holds, not on their order.
- A type 2 record only ever matches Mondays. A type 2 record in late December
  whose Monday falls in January is never reported: the controller shifts
  within the queried year and then compares the year too.
  `HolidayController.BridgeRuleLostAtYearEnd` proves this as the code is
  written. The seeded collection has no such record.

## Model

| member | source | states |
|---|---|---|
| Calendar.IsLeapYear | festivos-api/utils/dateUtils.js:52-54 | The Gregorian leap rule; `ParseLeapDay` ties it to the February 29 check and `YearStep` to the 365- and 366-day years `DayFromYear` counts |
| Calendar.DayFromYear | festivos-api/utils/dateUtils.js:65-67 | The day number of January 1 of a year, as ECMAScript counts it; `YearStep` shows consecutive years lie one year length apart and `DayFromYearGrows` that later years start later |
| Calendar.DayNumber | festivos-api/utils/dateUtils.js:80 | The day number of a real date; `DateFromDayNumber` and `DayNumberInjective` make it a one-to-one count of real dates |
| Calendar.MakeDay | festivos-api/utils/dateUtils.js:80 | `new Date(year, month, date)` with months and days that overflow; `MakeDayInYear`, `MakeDayOfValid` and `SetDateMoves` give its meaning |
| Calendar.WeekDay | festivos-api/utils/dateUtils.js:66 | `getDay()` lies in 0..6; `EpochIsThursday` anchors it and `WeekDayShift` advances it by one each day |
| Calendar.DateFromDay | festivos-api/utils/dateUtils.js:84-88 | The `getFullYear()`, `getMonth() + 1`, `getDate()` read-back; `DateFromDaySpec` and `DateFromDayNumber` prove it inverts the day count |
| Calendar.DaysInMonth | festivos-api/utils/dateUtils.js:30-36 | A month has 28 to 31 days, and has 29 exactly when it is February of a leap year |
| Calendar.EpochIsThursday | festivos-api/utils/dateUtils.js:65-67 | 1970-01-01 is day 0 and its `getDay()` is 4, Thursday |
| Calendar.DateFromDaySpec | festivos-api/utils/dateUtils.js:84-88 | Reading any day back into year, month and day gives a real date whose day number is that day |
| Calendar.DateFromDayNumber | festivos-api/utils/dateUtils.js:84-88 | Reading back the day number of a real date gives that same date, so the read-back inverts the day count |
| Calendar.MakeDayInYear | festivos-api/utils/dateUtils.js:80 | For a month in 1..12, `new Date(y, m - 1, d)` is `d - 1` days after the first of that month, also when `d` lies outside the month |
| Calendar.MakeDayOfValid | festivos-api/utils/dateUtils.js:155 | `new Date(y, m - 1, d)` on a real date, read back, gives that date |
| Calendar.MakeDayOfDay | festivos-api/utils/dateUtils.js:155 | Rebuilding a date from its own fields gives the same day |
| Calendar.SetDateMoves | festivos-api/utils/dateUtils.js:82 | `setDate(getDate() + k)` moves a date by exactly `k` days, across month and year ends |
| Calendar.WeekDayShift | festivos-api/utils/dateUtils.js:81-82 | Moving `n` days moves the weekday by `n` modulo 7 |
| Calendar.PrecedesIffEarlier | festivos-api/utils/dateUtils.js:84-88 | On real dates, calendar order on year, month and day coincides with the order of day numbers |
| Text.Split | festivos-api/utils/dateUtils.js:13 | `split` yields at least one piece and no piece contains the separator |
| Text.JoinSplit | festivos-api/utils/dateUtils.js:13 | Joining the pieces of a split gives back the string |
| Text.SplitJoin | festivos-api/utils/dateUtils.js:13 | Splitting a join of separator-free pieces gives back the pieces |
| Text.ParseDigits | festivos-api/utils/dateUtils.js:18-24 | A field gives a number exactly when it is non-empty and all decimal digits; otherwise it gives the `NaN` case |
| Text.ParseShowNat | festivos-api/utils/dateUtils.js:18-20 | Parsing the decimal rendering of a number gives the number |
| Text.ParseLeadingZero | festivos-api/utils/dateUtils.js:18-20 | A leading zero does not change a field's value |
| DateUtils.ParseAndValidateDate | festivos-api/utils/dateUtils.js:12-43 | The result is non-null exactly when the string has three '/'-separated numeric fields forming a real date, and then it is those fields |
| DateUtils.ParseRejectsFieldCount | festivos-api/utils/dateUtils.js:13-16 | A string with other than three fields gives null |
| DateUtils.ParseRejectsMonth | festivos-api/utils/dateUtils.js:26-28 | A month outside 1..12 gives null, whatever the year and day |
| DateUtils.ParseLeapDay | festivos-api/utils/dateUtils.js:52-54 | February 29 is accepted exactly in the years `isLeapYear` accepts |
| DateUtils.FieldsRoundTrip | festivos-api/utils/dateUtils.js:13-20 | Splitting and parsing the "Y/M/D" rendering of three numbers gives back those numbers |
| DateUtils.ParseFormatDate | festivos-api/utils/dateUtils.js:12-43 | Every real date with a year from 0 on is parsed back from its "Y/M/D" rendering |
| DateUtils.GetDayOfWeek | festivos-api/utils/dateUtils.js:65-67 | The weekday lies in 0..6 |
| DateUtils.DayOfWeekOfDate | festivos-api/utils/dateUtils.js:65-67 | On a real date, `getDayOfWeek` is the weekday of its day number |
| DateUtils.DayOfWeekOfDay | festivos-api/utils/dateUtils.js:65-67 | `getDayOfWeek` on the read-back fields of a day is that day's weekday |
| DateUtils.DayOfWeekNext | festivos-api/utils/dateUtils.js:65-67 | The next day of the month has the next weekday, with Saturday wrapping to Sunday |
| DateUtils.DayOfWeekEpoch | festivos-api/utils/dateUtils.js:65-67 | January 1, 1970 gives 4, Thursday |
| DateUtils.NextMonday | festivos-api/utils/dateUtils.js:81-83 | The day the loop stops on; `NextMondayIsMonday`, `NextMondayOfMonday` and `NextMondayIsFirst` make it the first Monday on or after the start |
| DateUtils.DaysToMonday | festivos-api/utils/dateUtils.js:81-83 | The loop runs at most 6 times |
| DateUtils.NextMondayIsMonday | festivos-api/utils/dateUtils.js:81-83 | The loop stops on a Monday at most six days ahead |
| DateUtils.NextMondayOfMonday | festivos-api/utils/dateUtils.js:81 | On a Monday the loop does not run |
| DateUtils.NextMondayIsFirst | festivos-api/utils/dateUtils.js:81-83 | No Monday lies between the start and where the loop stops |
| DateUtils.NextMondayStep | festivos-api/utils/dateUtils.js:81-83 | One step from a non-Monday keeps the same target Monday and brings it one day closer |
| DateUtils.ShiftToNextMonday | festivos-api/utils/dateUtils.js:79-89 | The loop returns the fields of the first Monday on or after `new Date(year, month - 1, day)` |
| DateUtils.ShiftedDate | festivos-api/utils/dateUtils.js:79-89 | The fields `shiftToNextMonday` returns; `ShiftedDateWindow` characterises them without the loop |
| DateUtils.ShiftedDateWindow | festivos-api/utils/dateUtils.js:79-89 | For a real date, the result is exactly the one real Monday from that date to six days after it |
| DateUtils.ShiftedDateIsMonday | festivos-api/utils/dateUtils.js:79-89 | For a real date, the result is a real date that is a Monday, no earlier than the input and at most six days later |
| DateUtils.ShiftedDateOfMonday | festivos-api/utils/dateUtils.js:79-89 | A real date that is a Monday is returned unchanged |
| DateUtils.ShiftedDateIsFirst | festivos-api/utils/dateUtils.js:79-89 | No Monday lies strictly between a real date and its result |
| DateUtils.GaussD | festivos-api/utils/dateUtils.js:107-110 | d = (19a + 24) mod 30; `GaussBounds` puts it in 0..29 |
| DateUtils.GaussE | festivos-api/utils/dateUtils.js:108-111 | e = (2b + 4c + 6d + 5) mod 7; `GaussBounds` puts it in 0..6 |
| DateUtils.EasterDay | festivos-api/utils/dateUtils.js:112-114 | The day `new Date(year, 2, 15 + d + e + 7)` denotes; `EasterDayIsSunday` makes it a Sunday for 1900-2099 |
| DateUtils.GetEasterSunday | festivos-api/utils/dateUtils.js:106-120 | The fields of that day; `EasterSundayInSpring` gives them as March 22 + d + e and `EasterIsSunday` a Sunday for 1900-2099 |
| DateUtils.JsRemainder | festivos-api/utils/dateUtils.js:107-111 | The truncating `%` agrees with the mathematical remainder for non-negative operands and stays below the divisor in magnitude |
| DateUtils.GaussBounds | festivos-api/utils/dateUtils.js:110-111 | For a year from 0 on, d lies in 0..29 and e in 0..6 |
| DateUtils.EasterSundayInSpring | festivos-api/utils/dateUtils.js:106-120 | Easter is March 22 + d + e of the same year, a real date between March 22 and April 26 |
| DateUtils.EasterDayIsSunday | festivos-api/utils/dateUtils.js:107-114 | For 1900-2099 the day `new Date(year, 2, 15 + d + e + 7)` denotes is a Sunday |
| DateUtils.EasterIsSunday | festivos-api/utils/dateUtils.js:106-120 | For 1900-2099 `getEasterSunday` returns a real date that `getDayOfWeek` calls Sunday |
| DateUtils.EasterDayCount | festivos-api/utils/dateUtils.js:114 | For 1900-2099 Easter's day number is a linear form in the year, d and e |
| DateUtils.MovedBy | festivos-api/utils/dateUtils.js:155-160 | Rebuilding a date and calling `setDate(getDate() + offset)`; `MovedBySpec` makes it a move by `offset` days |
| DateUtils.MondayIfFlagged | festivos-api/utils/dateUtils.js:164-172 | The `checkMonday` adjustment; `MondayIfFlaggedSpec` gives its meaning |
| DateUtils.PascuaFestive | festivos-api/utils/dateUtils.js:154-179 | One row's entry; `PascuaFestiveSpec` gives its name and date in terms of Easter's day number |
| DateUtils.PascuaFestives | festivos-api/utils/dateUtils.js:135-183 | The list over the table of lines 143-151; `PascuaFestivesSpec`, `PascuaFestivesDates` and `PascuaFestivesWindow` give its contents |
| DateUtils.MovedBySpec | festivos-api/utils/dateUtils.js:155-160 | Building a date from a day's fields and moving it by `offset` gives the fields of the day `offset` days later |
| DateUtils.MondayIfFlaggedSpec | festivos-api/utils/dateUtils.js:164-172 | A flagged date moves to the first Monday on or after it (a Monday stays), and an unflagged one stays |
| DateUtils.PascuaFestiveSpec | festivos-api/utils/dateUtils.js:155-179 | A row's entry keeps the row's name. Its date is Easter plus the offset, or, for a `checkMonday` row, the first Monday on or after that |
| DateUtils.PascuaOccurrence | festivos-api/utils/dateUtils.js:155-179 | One pass of the `forEach` body computes the row's entry |
| DateUtils.Occurrences | festivos-api/utils/dateUtils.js:154-180 | There is one entry per table row |
| DateUtils.OccurrencesAt | festivos-api/utils/dateUtils.js:154-180 | Entry `i` is the entry of row `i` |
| DateUtils.BuildPascuaFestives | festivos-api/utils/dateUtils.js:135-183 | The loop pushes the entries of the table rows in table order |
| DateUtils.PascuaFestivesSpec | festivos-api/utils/dateUtils.js:143-182 | The list has exactly the 7 rows, in table order, each entry computed from its row |
| DateUtils.PascuaFestivesDates | festivos-api/utils/dateUtils.js:143-151 | For 1900-2099 the entries fall 7, 3 and 2 days before Easter, on Easter, and 43, 64 and 71 days after it: Sunday, Thursday, Friday, Sunday and three Mondays |
| DateUtils.PascuaDateAt | festivos-api/utils/dateUtils.js:143-172 | Counted from a Sunday, row `i` lands on the day `PascuaDays[i]` after it |
| DateUtils.PascuaWeekdayAt | festivos-api/utils/dateUtils.js:143-151 | Counted from a Sunday, row `i` falls on weekday `PascuaWeekdays[i]` |
| DateUtils.ShiftedToMonday | festivos-api/utils/dateUtils.js:148-150 | 40, 61 and 68 days after a Sunday is a Friday, which moves three days to a Monday |
| DateUtils.PascuaFestivesWindow | festivos-api/utils/dateUtils.js:143-151 | For 1900-2099 every entry is a real date from Palm Sunday to 71 days after Easter |
| DateUtils.PascuaFestiveListed | festivos-api/utils/dateUtils.js:174-179 | For 1900-2099 each row's date appears in the list |
| HolidayController.CheckHoliday | festivos-api/controllers/holidayController.js:41-115 | The endpoint's answer; `InvalidDateFirst` gives the 400 case, `LookupErrorOnFailure` the 500 case and `VerdictIsHoliday` the verdict otherwise |
| HolidayController.RuleMatches | festivos-api/controllers/holidayController.js:67-87 | Whether one record makes a date a holiday; `FixedRuleEveryYear` and `BridgeRuleMatchesShift` characterise the two types, and other types never match (`ScanFindsMatch`) |
| HolidayController.IsHoliday | festivos-api/controllers/holidayController.js:66-101 | The holiday rule without the query, the scan or its order, which `VerdictIsHoliday` equates with the answer |
| HolidayController.Status | festivos-api/controllers/holidayController.js:49-113 | 400 for an invalid date, 500 for a failed query, 200 for a verdict |
| HolidayController.Message | festivos-api/controllers/holidayController.js:49-113 | The `message` text of each answer |
| HolidayController.SelectRules | festivos-api/controllers/holidayController.js:61-63 | The query returns exactly the records of type 1 or 2 |
| HolidayController.FirstMatch | festivos-api/controllers/holidayController.js:66-88 | The scan stops at a matching record with no match before it, or reports that no record matches |
| HolidayController.SomeOn | festivos-api/controllers/holidayController.js:95-97 | `.some` holds exactly when some Easter-relative entry has the date's year, month and day |
| HolidayController.InvalidDateFirst | festivos-api/controllers/holidayController.js:48-54 | The answer is the 400 error exactly when the parser rejects the string, whatever the collection |
| HolidayController.LookupErrorOnFailure | festivos-api/controllers/holidayController.js:107-113 | The answer is the 500 error carrying the failure's message exactly when the date is valid and the query fails |
| HolidayController.VerdictIsHoliday | festivos-api/controllers/holidayController.js:66-105 | For a valid date and a readable collection, the answer is "Es Festivo" exactly when some record matches or some Easter-relative entry is the date, and "No es Festivo" otherwise |
| HolidayController.ScanFindsMatch | festivos-api/controllers/holidayController.js:61-88 | Scanning the selected records finds a match exactly when some record of the collection matches; other types never match |
| HolidayController.OrderIrrelevant | festivos-api/controllers/holidayController.js:66-88 | Two collections that hold the same records, in any order and with any repetitions, get the same answer |
| HolidayController.FixedRuleEveryYear | festivos-api/controllers/holidayController.js:67-72 | A type 1 record matches its day and month in every year |
| HolidayController.BridgeRuleMatchesShift | festivos-api/controllers/holidayController.js:73-86 | A type 2 record whose date is real in the queried year matches exactly the real Mondays from that date to six days after it |
| HolidayController.BridgeRuleOnlyMondays | festivos-api/controllers/holidayController.js:73-86 | A type 2 record only matches real dates that are Mondays |
| HolidayController.BridgeRuleSkipsNominalDate | festivos-api/controllers/holidayController.js:73-86 | A type 2 record does not match its own date when that date is not a Monday |
| HolidayController.BridgeRuleLostAtYearEnd | festivos-api/controllers/holidayController.js:77-83 | A type 2 record late in December whose Monday falls in January never matches that Monday |
| Examples.EasterExamples | festivos-api/utils/dateUtils.js:106-120 | Easter 2023 is April 9 and Easter 2024 is March 31 |
| Examples.EpiphanyExample | festivos-api/utils/dateUtils.js:79-89 | January 6, 2024 is a Saturday and shifts to Monday, January 8 |
| Examples.CheckMovedEpiphany | festivos-api/controllers/holidayController.js:73-86 | With the seeded collection, January 8, 2024 is "Es Festivo" |
| Examples.CheckNominalEpiphany | festivos-api/controllers/holidayController.js:66-105 | With the seeded collection, January 6, 2024 is "No es Festivo" |
| Examples.CheckGoodFriday | festivos-api/controllers/holidayController.js:93-101 | March 29, 2024 is "Es Festivo" even with an empty collection |
| Examples.CheckImpossibleDate | festivos-api/controllers/holidayController.js:48-54 | "2024/2/30" gets the 400 error even when the collection fails |

## Left out

- HTTP and Express plumbing (`req.query`, `res.status(...).json(...)`) is left out. The answer is a `Response` value, with `Status` and `Message` giving its status code and message text.
- A request without a `date` parameter is left out. There `split` throws outside the `try`. `CheckHoliday` always receives a string.
- The MongoDB connection and schema are left out. The query's type filter is `SelectRules`. Any failure of the query is one `Failing(message)` collection, and nothing else in the computation can throw.
- The seed script and the console listing are left out, except for the seed records, which `Examples.SeedRules` reproduces.
- ParseAndValidateDate: each field is read by a digits-only parser. `parseInt` also accepts leading blanks, a sign and trailing junk such as "12abc", which are rejected here. So negative years and fields such as "+5" are not modelled. `parseInt` also returns a double, which rounds a field above 2^53, while this parser reads it exactly. So for such years the leap test and the answer can differ: "9007199254740993/2/29" is read by `parseInt` as year 2^53, a leap year, and accepted, whereas here 9007199254740993 is not a leap year and the answer is the 400 error.
- GetDayOfWeek: a JavaScript `Date` built with a year in 0..99 means 1900..1999, which is not modelled. Every year is taken as written.
- GetEasterSunday: the years 0..99 are taken as written, as for `GetDayOfWeek`.
- ShiftToNextMonday: the years 0..99 are taken as written, as for `GetDayOfWeek`.
- Time of day, the local time zone and daylight-saving changes are left out. Dates are whole days, as the code only builds dates at midnight and moves them by whole days.
- CheckHoliday: day numbers are unbounded here, while a JavaScript time value ends 100,000,000 days after 1970-01-01, on September 13, 275760. This is a defect of the source. The parser accepts later years, such as "300000/1/2". For such a date the source's `new Date` is invalid and `getDay()` is NaN, so the loop of `shiftToNextMonday` (dateUtils.js:81-83) never ends. It is reached through the first type 2 record, or through `buildPascuaFestives`, whose Easter fields are NaN. The source then sends no response, while the model answers `NoFestivo` or `Festivo`.
- HolidayController.OrderIrrelevant: for those dates a type 1 record that matches before the first type 2 record still gets an answer from the source, so there the source's behaviour depends on record order.
- ShiftToNextMonday: a start or a step past September 13, 275760 makes the source's `Date` invalid and its loop never ends, while the model keeps counting days and returns a Monday.
- EasterIsSunday: the Sunday property is proved only for 1900-2099, the range the constants M = 24 and N = 5 are meant for.
- GetEasterSunday: the formula omits Gauss's April 25/26 exceptions, and the model keeps the omission. It gives April 26, 1981 and April 25, 2049, where the Gregorian Easter is April 19 and April 18.
- PascuaFestivesDates: the fixed day offsets and weekdays are stated for 1900-2099, because they rely on Easter being a Sunday.
- The `offset` field of the records is not used by the controller, and `Rule` only carries it.
- The type 3 and 4 records of the seed are never selected. The Easter-relative holidays come only from the hard-coded table, which also lists Palm Sunday.
