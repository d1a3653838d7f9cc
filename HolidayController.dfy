/**
 * The decision logic of `checkHoliday`: validate the date string, scan the
 * fixed (type 1) and "Ley de Puente" (type 2) records, fall back to the
 * Easter-relative list, and answer with a verdict or an error.
 *
 * The MongoDB collection is a parameter: either the records it holds or the
 * error message of a failed query.
 */
module HolidayController {
  import opened Wrappers
  import opened Calendar
  import opened DateUtils

  /** A `Holiday` document; `kind` is its `type` field. */
  datatype Rule = Rule(day: int, month: int, name: string, kind: int, offset: int)

  /** The holiday collection as a query sees it. */
  datatype HolidayStore = Available(records: seq<Rule>) | Failing(message: string)

  /** The four answers of the endpoint. */
  datatype Response = Festivo | NoFestivo | InvalidDate | LookupError(error: string)

  function Status(r: Response): int {
    match r
    case Festivo => 200
    case NoFestivo => 200
    case InvalidDate => 400
    case LookupError(_) => 500
  }

  function Message(r: Response): string {
    match r
    case Festivo => "Es Festivo"
    case NoFestivo => "No es Festivo"
    case InvalidDate => "Formato de fecha no válido o valores incorrectos"
    case LookupError(_) => "Error al consultar/calcular festivos"
  }

  /** `Holiday.find({ type: { $in: [1, 2] } })`: the type 1 and type 2
      records, in collection order. */
  function SelectRules(records: seq<Rule>): (selected: seq<Rule>)
    ensures forall r :: r in selected <==> r in records && (r.kind == 1 || r.kind == 2)
  {
    if |records| == 0 then []
    else
      var rest := SelectRules(records[1..]);
      assert forall r :: r in records <==> r == records[0] || r in records[1..];
      if records[0].kind == 1 || records[0].kind == 2 then [records[0]] + rest else rest
  }

  /** Whether one record makes `date` a holiday: a type 1 record by day and
      month alone, a type 2 record when `shiftToNextMonday` of its day and
      month in the year of `date` gives exactly `date`.  No other type matches. */
  predicate RuleMatches(rule: Rule, date: Date) {
    if rule.kind == 1 then rule.day == date.day && rule.month == date.month
    else if rule.kind == 2 then ShiftedDate(date.year, rule.month, rule.day) == date
    else false
  }

  /** The `for ... of` over the selected records with its early return: the
      position of the first record that matches, if any. */
  function FirstMatch(rules: seq<Rule>, date: Date): (i: Option<nat>)
    ensures i.Some? ==> i.value < |rules| && RuleMatches(rules[i.value], date)
    ensures i.Some? ==> forall j :: 0 <= j < i.value ==> !RuleMatches(rules[j], date)
    ensures i.None? ==> forall j :: 0 <= j < |rules| ==> !RuleMatches(rules[j], date)
  {
    if |rules| == 0 then None
    else if RuleMatches(rules[0], date) then Some(0)
    else match FirstMatch(rules[1..], date)
      case None => None
      case Some(k) => Some(k + 1)
  }

  /** `pascuaFestives.some(f => f.year === year && f.month === month && f.day === day)`. */
  function SomeOn(festives: seq<Festive>, date: Date): (found: bool)
    ensures found <==> exists i :: 0 <= i < |festives| && festives[i].date == date
  {
    if |festives| == 0 then false
    else festives[0].date == date || SomeOn(festives[1..], date)
  }

  /** `checkHoliday` on the query string's `date` and the holiday collection. */
  function CheckHoliday(dateStr: string, store: HolidayStore): Response {
    var parsedDate := ParseAndValidateDate(dateStr);
    if parsedDate.None? then InvalidDate
    else
      var date := parsedDate.value;
      match store
      case Failing(message) => LookupError(message)
      case Available(records) =>
        var holidays12 := SelectRules(records);
        if FirstMatch(holidays12, date).Some? then Festivo
        else if SomeOn(PascuaFestives(date.year), date) then Festivo
        else NoFestivo
  }

  /** The holiday rule stated without the query, the scan or its order: some
      record matches, or some Easter-relative holiday of the year is `date`. */
  predicate IsHoliday(records: seq<Rule>, date: Date) {
    (exists r :: r in records && RuleMatches(r, date)) ||
    (exists f :: f in PascuaFestives(date.year) && f.date == date)
  }

  /** A string the parser rejects is answered with status 400, whatever the
      collection holds and even when it cannot be queried; every other string
      gets past validation. */
  lemma InvalidDateFirst(dateStr: string, store: HolidayStore)
    ensures CheckHoliday(dateStr, store) == InvalidDate <==> ParseAndValidateDate(dateStr).None?
    ensures CheckHoliday(dateStr, store) == InvalidDate ==> Status(CheckHoliday(dateStr, store)) == 400
  {
  }

  /** A failed query is answered with status 500 and its message, exactly when
      the date was valid. */
  lemma LookupErrorOnFailure(dateStr: string, store: HolidayStore)
    ensures CheckHoliday(dateStr, store).LookupError? <==>
      ParseAndValidateDate(dateStr).Some? && store.Failing?
    ensures CheckHoliday(dateStr, store).LookupError? ==>
      CheckHoliday(dateStr, store) == LookupError(store.message) &&
      Status(CheckHoliday(dateStr, store)) == 500
  {
  }

  /** On a valid date and a readable collection, the answer is "Es Festivo"
      exactly when `IsHoliday` holds, and "No es Festivo" otherwise. */
  lemma VerdictIsHoliday(dateStr: string, records: seq<Rule>)
    requires ParseAndValidateDate(dateStr).Some?
    ensures var date := ParseAndValidateDate(dateStr).value;
      CheckHoliday(dateStr, Available(records)) ==
        if IsHoliday(records, date) then Festivo else NoFestivo
  {
    var date := ParseAndValidateDate(dateStr).value;
    var holidays12 := SelectRules(records);
    ScanFindsMatch(records, date);
    var fs := PascuaFestives(date.year);
    assert SomeOn(fs, date) <==> exists f :: f in fs && f.date == date by {
      if SomeOn(fs, date) {
        var i :| 0 <= i < |fs| && fs[i].date == date;
        assert fs[i] in fs;
      }
    }
  }

  /** The scan of the selected records finds a match exactly when some record
      of the whole collection matches: other types never match. */
  lemma ScanFindsMatch(records: seq<Rule>, date: Date)
    ensures FirstMatch(SelectRules(records), date).Some? <==> exists r :: r in records && RuleMatches(r, date)
  {
    var selected := SelectRules(records);
    if FirstMatch(selected, date).Some? {
      var i := FirstMatch(selected, date).value;
      assert selected[i] in selected;
    } else {
      forall r | r in selected ensures !RuleMatches(r, date) {
        var i :| 0 <= i < |selected| && selected[i] == r;
      }
    }
  }

  /** The answer depends on which records the collection holds, not on their
      order or repetitions: the early return only decides which match is
      found first. */
  lemma OrderIrrelevant(dateStr: string, records1: seq<Rule>, records2: seq<Rule>)
    requires forall r :: r in records1 <==> r in records2
    ensures CheckHoliday(dateStr, Available(records1)) == CheckHoliday(dateStr, Available(records2))
  {
    if ParseAndValidateDate(dateStr).Some? {
      var date := ParseAndValidateDate(dateStr).value;
      VerdictIsHoliday(dateStr, records1);
      VerdictIsHoliday(dateStr, records2);
    }
  }

  /** A type 1 record matches its day and month in every year. */
  lemma FixedRuleEveryYear(rule: Rule, date: Date, year: int)
    requires rule.kind == 1
    ensures RuleMatches(rule, date) <==> RuleMatches(rule, Date(year, date.month, date.day))
  {
  }

  /** A type 2 record only ever matches a real date that is a Monday. */
  lemma BridgeRuleOnlyMondays(rule: Rule, date: Date)
    requires rule.kind == 2 && RuleMatches(rule, date)
    ensures ValidDate(date) && GetDayOfWeek(date.year, date.month, date.day) == 1
  {
    var t := NextMonday(MakeDay(date.year, rule.month - 1, rule.day));
    NextMondayIsMonday(MakeDay(date.year, rule.month - 1, rule.day));
    DateFromDaySpec(t);
    DayOfWeekOfDay(t);
  }

  /** A type 2 record whose date in a year is not a Monday does not match
      that date itself. */
  lemma BridgeRuleSkipsNominalDate(rule: Rule, year: int)
    requires rule.kind == 2
    requires GetDayOfWeek(year, rule.month, rule.day) != 1
    ensures !RuleMatches(rule, Date(year, rule.month, rule.day))
  {
    if RuleMatches(rule, Date(year, rule.month, rule.day)) {
      BridgeRuleOnlyMondays(rule, Date(year, rule.month, rule.day));
    }
  }

  /** A type 2 record whose date is real in the queried year matches exactly
      the real Mondays from that date to six days after it: the first Monday
      on or after it when that Monday is still in the same year, and no other
      date of that year. */
  lemma BridgeRuleMatchesShift(rule: Rule, date: Date)
    requires rule.kind == 2 && ValidDate(Date(date.year, rule.month, rule.day))
    ensures var n := Date(date.year, rule.month, rule.day);
      RuleMatches(rule, date) <==>
        ValidDate(date) && GetDayOfWeek(date.year, date.month, date.day) == 1 &&
        DayNumber(n) <= DayNumber(date) <= DayNumber(n) + 6
  {
    ShiftedDateWindow(Date(date.year, rule.month, rule.day), date);
  }

  /** A type 2 record late in December whose Monday falls in January of the
      next year is never reported: in the record's own year the shifted date
      lies in another year, and in the next year the record shifts to a
      Monday a year later. */
  lemma BridgeRuleLostAtYearEnd(rule: Rule, year: int)
    requires rule.kind == 2 && rule.month == 12 && ValidDate(Date(year, 12, rule.day))
    requires ShiftedDate(year, 12, rule.day).year != year
    ensures !RuleMatches(rule, ShiftedDate(year, 12, rule.day))
  {
    var s := ShiftedDate(year, 12, rule.day);
    var a := MakeDay(year, 11, rule.day);
    if RuleMatches(rule, s) {
      var b := MakeDay(s.year, 11, rule.day);
      DateFromDaySpec(NextMonday(a));
      DateFromDaySpec(NextMonday(b));
      NextMondayIsMonday(a);
      NextMondayIsMonday(b);
      MakeDayInYear(year, 12, rule.day);
      MakeDayInYear(s.year, 12, rule.day);
      if s.year < year {
        DayFromYearGrows(s.year, year);
      } else {
        DayFromYearGrows(year, s.year);
      }
      assert false;
    }
  }
}
