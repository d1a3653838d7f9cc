/**
 * The holiday collection the service is seeded with, and worked answers of
 * `checkHoliday` against it.
 */
module Examples {
  import opened Wrappers
  import opened Calendar
  import opened DateUtils
  import opened HolidayController

  /** The seeded collection: six fixed holidays, seven "Ley de Puente"
      holidays and six Easter-relative records, which the query never
      selects. */
  const SeedRules: seq<Rule> := [
    Rule(1, 1, "Año nuevo", 1, 0),
    Rule(1, 5, "Día del Trabajo", 1, 0),
    Rule(20, 7, "Independencia Colombia", 1, 0),
    Rule(7, 8, "Batalla de Boyacá", 1, 0),
    Rule(8, 12, "Inmaculada Concepción", 1, 0),
    Rule(25, 12, "Navidad", 1, 0),
    SantosReyes,
    Rule(19, 3, "San José", 2, 0),
    Rule(29, 6, "San Pedro y San Pablo", 2, 0),
    Rule(15, 8, "Asunción de la Virgen", 2, 0),
    Rule(12, 10, "Día de la Raza", 2, 0),
    Rule(1, 11, "Todos los santos", 2, 0),
    Rule(11, 11, "Independencia de Cartagena", 2, 0),
    Rule(0, 0, "Jueves Santo", 3, -3),
    Rule(0, 0, "Viernes Santo", 3, -2),
    Rule(0, 0, "Domingo de Pascua", 3, 0),
    Rule(0, 0, "Ascensión del Señor", 4, 40),
    Rule(0, 0, "Corpus Christi", 4, 61),
    Rule(0, 0, "Sagrado Corazón de Jesús", 4, 68)
  ]

  /** Epiphany, a "Ley de Puente" holiday. */
  const SantosReyes := Rule(6, 1, "Santos Reyes", 2, 0)

  // Worked answers for Easter 2023 and 2024, and for Epiphany and Good Friday
  // 2024. Each lemma names the year it is about as a parameter that its
  // `requires` fixes, and derives the answer from the general lemmas of the
  // calendar, the Monday shift and the Easter list.

  /** Easter 2023 was April 9 and Easter 2024 March 31. */
  lemma EasterExamples(y23: int, y24: int)
    requires y23 == 2023 && y24 == 2024
    ensures GetEasterSunday(y23) == Date(2023, 4, 9)
    ensures GetEasterSunday(y24) == Date(2024, 3, 31)
  {
    assert GaussD(y23) == 15 && GaussE(y23) == 3;
    assert GaussD(y24) == 4 && GaussE(y24) == 5;
    EasterSundayInSpring(y23);
    EasterSundayInSpring(y24);
  }

  /** January 6, 2024 was a Saturday, so Epiphany moved to Monday, January 8. */
  lemma EpiphanyExample(year: int)
    requires year == 2024
    ensures GetDayOfWeek(year, 1, 6) == 6
    ensures ShiftedDate(year, 1, 6) == Date(2024, 1, 8)
  {
    var d := Date(year, 1, 6);
    DayOfWeekOfDate(d);
    MakeDayInYear(year, 1, 6);
    assert DayNumber(d) == 19728 && WeekDay(19728) == 6;
    assert NextMonday(DayNumber(d)) == DayNumber(Date(year, 1, 8));
    DateFromDayNumber(Date(year, 1, 8));
  }

  /** January 8, 2024 is a holiday: the Epiphany record matches its Monday. */
  lemma CheckMovedEpiphany(year: nat)
    requires year == 2024
    ensures CheckHoliday(FormatFields(year, 1, 8), Available(SeedRules)) == Festivo
  {
    var d := Date(year, 1, 8);
    ParseFormatDate(d);
    VerdictIsHoliday(FormatFields(year, 1, 8), SeedRules);
    EpiphanyRuleMatches(year);
  }

  lemma EpiphanyRuleMatches(year: int)
    requires year == 2024
    ensures exists r :: r in SeedRules && RuleMatches(r, Date(year, 1, 8))
  {
    EpiphanyExample(year);
    assert SantosReyes in SeedRules;
    assert RuleMatches(SantosReyes, Date(year, 1, 8));
  }

  /** January 6, 2024 is not a holiday: no fixed record falls on January 6,
      the Epiphany record only matches Mondays, and the Easter-relative
      holidays of 2024 all come after it. */
  lemma CheckNominalEpiphany(year: nat)
    requires year == 2024
    ensures CheckHoliday(FormatFields(year, 1, 6), Available(SeedRules)) == NoFestivo
  {
    var d := Date(year, 1, 6);
    ParseFormatDate(d);
    VerdictIsHoliday(FormatFields(year, 1, 6), SeedRules);
    NoRuleOnNominalEpiphany(year);
    NoPascuaOnNominalEpiphany(year);
  }

  lemma NoRuleOnNominalEpiphany(year: int)
    requires year == 2024
    ensures !exists r :: r in SeedRules && RuleMatches(r, Date(year, 1, 6))
  {
    var d := Date(year, 1, 6);
    EpiphanyExample(year);
    forall r | r in SeedRules ensures !RuleMatches(r, d) {
      if r.kind == 2 && RuleMatches(r, d) {
        BridgeRuleOnlyMondays(r, d);
      }
    }
  }

  lemma NoPascuaOnNominalEpiphany(year: int)
    requires year == 2024
    ensures !exists f :: f in PascuaFestives(year) && f.date == Date(year, 1, 6)
  {
    Easter2024(year);
    PascuaFestivesWindow(year);
  }

  lemma Easter2024(year: int)
    requires year == 2024
    ensures EasterDay(year) == DayNumber(Date(year, 3, 31))
  {
    assert GaussD(year) == 4 && GaussE(year) == 5;
  }

  /** March 29, 2024, Good Friday, is a holiday even with no records at all. */
  lemma CheckGoodFriday(year: nat)
    requires year == 2024
    ensures CheckHoliday(FormatFields(year, 3, 29), Available([])) == Festivo
  {
    var d := Date(year, 3, 29);
    ParseFormatDate(d);
    VerdictIsHoliday(FormatFields(year, 3, 29), []);
    GoodFriday2024(year);
  }

  lemma GoodFriday2024(year: int)
    requires year == 2024
    ensures exists f :: f in PascuaFestives(year) && f.date == Date(year, 3, 29)
  {
    var d := Date(year, 3, 29);
    var i :| i == 2;
    Easter2024(year);
    assert EasterDay(year) + PascuaDays[i] == DayNumber(d);
    DateFromDayNumber(d);
    PascuaFestiveListed(year, i);
  }

  /** "2024/2/30" is answered with status 400, even when the collection is down. */
  lemma CheckImpossibleDate(dateStr: string)
    requires dateStr == "2024/2/30"
    ensures CheckHoliday(dateStr, Failing("timeout")) == InvalidDate
  {
    FieldsRoundTrip(2024, 2, 30);
    assert FormatFields(2024, 2, 30) == dateStr;
  }
}
