/**
 * `NextDate` of the current revision (pkg/api/nextDate.go): parse the start
 * date with the `20060102` layout, parse the repeat rule, run the rule's
 * branch and format the date it stops at.
 *
 * `now` is a calendar date: the result is compared with it through `After`
 * on midnight instants, so only its day matters. The monthly branch loops
 * forever when no date satisfies the rule; `Ends` is the condition under
 * which every branch stops.
 */
module Scheduler {
  import opened Outcomes
  import opened GoStrings
  import opened Calendar
  import opened Rules
  import opened Parser
  import opened ParserFacts
  import opened DateFormat
  import opened DailyRule
  import opened YearlyRule
  import opened WeeklyRule
  import opened MonthlyRule

  /** The rule's branch stops: every rule but a monthly one that no date can satisfy. */
  predicate Ends(p: Parsed) {
    p.rType == MONTH ==> Satisfiable(p.days, p.months)
  }

  /** The inputs for which `NextDate` returns at all. */
  predicate Returns(dstart: string, repeat: string) {
    ParseDate(dstart).Some? && Parse(repeat).Ok? ==> Ends(Parse(repeat).value)
  }

  /** The date the rule's branch stops at. */
  function NextOf(start: Date, now: Date, p: Parsed): Date
    requires WellFormed(p)
  {
    if p.rType == DAY then DailyNext(start, p.days[0], now)
    else if p.rType == YEAR then YearlyNext(start, now)
    else if p.rType == WEEKDAY then WeeklyNext(start, now, p.days)
    else MonthlyNext(start, now, p.days, p.months)
  }

  /** What `NextDate(now, dstart, repeat)` returns. */
  function NextDateOf(now: Date, dstart: string, repeat: string): Result<string, Error> {
    match ParseDate(dstart)
    case None => Err(InvalidDate)
    case Some(start) =>
      match Parse(repeat)
      case Err(e) => Err(e)
      case Ok(p) =>
        ParseWellFormed(repeat);
        Ok(Format(NextOf(start, now, p)))
  }

  // ---------------------------------------------------------------------
  // What the result is

  /**
   * The rule's date is a real date, on or after the start and strictly
   * after now; under a daily or yearly rule it is strictly after the start.
   */
  lemma NextOfAfter(start: Date, now: Date, p: Parsed)
    requires Valid(start) && Valid(now) && WellFormed(p) && Ends(p)
    ensures Valid(NextOf(start, now, p)) && After(NextOf(start, now, p), now)
    ensures DayNumber(start) <= DayNumber(NextOf(start, now, p))
    ensures p.rType == DAY || p.rType == YEAR ==> After(NextOf(start, now, p), start)
  {
    if p.rType == DAY {
      DailyNextFirst(start, p.days[0], now);
    } else if p.rType == YEAR {
      var r := YearlyNext(start, now);
      YearlyNextFirst(start, now);
      YearsLaterFields(start, r.year - start.year);
      DayNumberOrder(start, r);
    } else if p.rType == WEEKDAY {
      WeeklyNextMatches(start, now, p.days);
    } else {
      MonthlyNextFirst(start, now, p.days, p.months);
    }
  }

  /**
   * The errors: an unparsable start date wins over a bad rule, a bad rule
   * is reported with the parser's error, and nothing else fails.
   */
  lemma NextDateErrors(now: Date, dstart: string, repeat: string)
    ensures NextDateOf(now, dstart, repeat) == Err(InvalidDate) <==> ParseDate(dstart).None?
    ensures ParseDate(dstart).Some? && Parse(repeat).Err?
            ==> NextDateOf(now, dstart, repeat) == Err(Parse(repeat).error)
    ensures NextDateOf(now, dstart, repeat).Ok? <==> ParseDate(dstart).Some? && Parse(repeat).Ok?
  {
    if ParseDate(dstart).Some? && Parse(repeat).Err? {
      ParseFieldsErrors(Fields(repeat));
    }
  }

  /** The parser never reports a date error. */
  lemma ParseFieldsErrors(params: seq<string>)
    requires ParseFields(params).Err?
    ensures ParseFields(params).error != InvalidDate
  {
    if |params| > 0 {
      var rParams := params[1..];
      if params[0] == WEEKDAY && |rParams| == 1 {
        ItemErrorsAreSpecific(Split(rParams[0], ','), WeekdayItem);
      } else if params[0] == MONTH && 1 <= |rParams| <= 2 {
        ItemErrorsAreSpecific(Split(rParams[0], ','), MonthDayItem);
        if |rParams| == 2 {
          ItemErrorsAreSpecific(Split(rParams[1], ','), MonthItem);
        }
      }
    }
  }

  /**
   * A successful result is the text of a date strictly after now and on or
   * after the start; for four-digit years it is also later than now as text,
   * the comparison the task handlers make.
   */
  lemma NextDateIsLater(now: Date, dstart: string, repeat: string)
    requires Valid(now) && Returns(dstart, repeat) && NextDateOf(now, dstart, repeat).Ok?
    ensures exists d :: Valid(d) && After(d, now) && DayNumber(ParseDate(dstart).value) <= DayNumber(d)
                        && NextDateOf(now, dstart, repeat).value == Format(d)
    ensures now.year < 10000 && ParseDate(NextDateOf(now, dstart, repeat).value).Some?
            ==> StrLess(Format(now), NextDateOf(now, dstart, repeat).value)
  {
    var start := ParseDate(dstart).value;
    var p := Parse(repeat).value;
    FormatParse(dstart);
    ParseWellFormed(repeat);
    var d := NextOf(start, now, p);
    NextOfAfter(start, now, p);
    var text := NextDateOf(now, dstart, repeat).value;
    assert text == Format(d);
    if now.year < 10000 && ParseDate(text).Some? {
      FormatParse(text);
      ParseFormatYear(d);
      FormatLess(now, d);
    }
  }

  /** A date whose text parses has a four-digit year. */
  lemma ParseFormatYear(d: Date)
    requires Valid(d) && ParseDate(Format(d)).Some?
    ensures d.year < 10000
  {
    if d.year >= 10000 {
      assert Pow10(4) == 10000;
      DigitsAtLeast(d.year, 5);
    }
  }

  /** A number of at least 10^(k-1) has at least k digits. */
  lemma {:induction false} DigitsAtLeast(n: nat, k: nat)
    requires k >= 1 && n >= Pow10(k - 1)
    ensures |Digits(n)| >= k
    decreases k
  {
    if k > 1 {
      assert n / 10 >= Pow10(k - 2);
      DigitsAtLeast(n / 10, k - 1);
    }
  }

  // ---------------------------------------------------------------------
  // The source's control flow

  /** `NextDate`: parse, run the rule's branch, format. */
  method NextDate(now: Date, dstart: string, repeat: string) returns (r: Result<string, Error>)
    requires Valid(now) && Returns(dstart, repeat)
    ensures r == NextDateOf(now, dstart, repeat)
  {
    var parsedDate := ParseDate(dstart);
    if parsedDate.None? {
      return Err(InvalidDate);
    }
    var start := parsedDate.value;
    FormatParse(dstart);
    var parsedRepeat := ParseRepeat(repeat);
    if parsedRepeat.Err? {
      return Err(parsedRepeat.error);
    }
    var p := parsedRepeat.value;
    ParseWellFormed(repeat);
    var d := start;
    if p.rType == DAY {
      d := NextDaily(start, p.days[0], now);
    }
    if p.rType == YEAR {
      d := NextYearly(start, now);
    }
    if p.rType == WEEKDAY {
      d := NextWeekly(start, now, p.days);
    }
    if p.rType == MONTH {
      d := NextMonthly(start, now, p.days, p.months);
    }
    return Ok(Format(d));
  }
}
