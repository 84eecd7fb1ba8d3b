/**
 * `NextDate` of the older revision (pkg/api/nextdate.go). Its daily and
 * yearly branches are the current ones. Its weekly and monthly branches
 * step one day before each test, so the start date itself is never the
 * answer. The weekly table is indexed by the listed day 1..7 while
 * `Weekday()` runs 0..6, so a listed 7 (Sunday) is never met. The monthly
 * table is indexed by the listed day itself, so a negative day such as -1
 * is an index-out-of-range panic.
 */
module LegacyScheduler {
  import opened Outcomes
  import opened Calendar
  import opened Rules
  import opened ParserFacts
  import opened DateFormat
  import opened DailyRule
  import opened YearlyRule
  import opened WeeklyRule
  import opened MonthlyRule
  import opened LegacyParser
  import opened LegacyFacts
  import opened Scheduler

  // ---------------------------------------------------------------------
  // The weekly branch

  /** The listed days without 7: the days the older weekly table can meet. */
  function SansSunday(days: seq<int>): (r: seq<int>)
    ensures (forall i :: 0 <= i < |days| ==> 1 <= days[i] <= 7)
            ==> forall i :: 0 <= i < |r| ==> 1 <= r[i] <= 6
  {
    if days == [] then []
    else (if days[0] == 7 then [] else [days[0]]) + SansSunday(days[1..])
  }

  /** A date the older weekly scan stops at: after now, on weekday `Weekday()` listed as such. */
  predicate LegacyWeeklyMatch(d: Date, now: Date, days: seq<int>) {
    After(d, now) && Listed(days, Weekday(d))
  }

  /** Some listed day is a weekday the table can meet, Monday (1) to Saturday (6). */
  predicate LegacyWeeklyEnds(days: seq<int>) {
    exists w :: 1 <= w <= 6 && Listed(days, w)
  }

  /** The date the older weekly scan stops at. */
  function LegacyWeeklyNext(start: Date, now: Date, days: seq<int>): Date {
    WeeklyNext(AddDays(start, 1), now, SansSunday(days))
  }

  lemma ListedCons(xs: seq<int>, v: int)
    requires xs != []
    ensures Listed(xs, v) <==> xs[0] == v || Listed(xs[1..], v)
  {
    if Listed(xs, v) && xs[0] != v {
      var i :| 0 <= i < |xs| && xs[i] == v;
      assert xs[1..][i - 1] == v;
    }
    if Listed(xs[1..], v) {
      var i :| 0 <= i < |xs[1..]| && xs[1..][i] == v;
      assert xs[i + 1] == v;
    }
  }

  lemma WeekdayOnAppend(a: seq<int>, b: seq<int>, w: int)
    ensures WeekdayOn(a + b, w) <==> WeekdayOn(a, w) || WeekdayOn(b, w)
  {
    if WeekdayOn(a + b, w) {
      var i :| 0 <= i < |a + b| && (a + b)[i] % 7 == w;
      if i < |a| {
        assert a[i] % 7 == w;
      } else {
        assert b[i - |a|] % 7 == w;
      }
    }
    if WeekdayOn(a, w) {
      var i :| 0 <= i < |a| && a[i] % 7 == w;
      assert (a + b)[i] == a[i];
    }
    if WeekdayOn(b, w) {
      var i :| 0 <= i < |b| && b[i] % 7 == w;
      assert (a + b)[i + |a|] == b[i];
    }
  }

  /** The older table's entry for weekday `w` is the current table's entry for the days without 7. */
  lemma {:induction false} SansSundayOn(days: seq<int>, w: int)
    requires forall i :: 0 <= i < |days| ==> 1 <= days[i] <= 7
    requires 0 <= w < 7
    ensures WeekdayOn(SansSunday(days), w) <==> Listed(days, w)
    decreases |days|
  {
    if days != [] {
      SansSundayOn(days[1..], w);
      var head := if days[0] == 7 then [] else [days[0]];
      WeekdayOnAppend(head, SansSunday(days[1..]), w);
      ListedCons(days, w);
      if head != [] {
        assert WeekdayOn(head, w) <==> head[0] % 7 == w;
      }
    }
  }

  /** The older weekly scan can end exactly when the days without 7 are not empty. */
  lemma WeeklyEndsSans(days: seq<int>)
    requires WeekdaysInRange(days)
    ensures LegacyWeeklyEnds(days) <==> WeekdaysInRange(SansSunday(days))
  {
    var r := SansSunday(days);
    if LegacyWeeklyEnds(days) {
      var w :| 1 <= w <= 6 && Listed(days, w);
      SansSundayOn(days, w);
    }
    if r != [] {
      SansSundayOn(days, r[0]);
      assert r[0] % 7 == r[0];
    }
  }

  /**
   * The older weekly result is the first date strictly after the start that
   * is after now and falls on a listed weekday 1..6.
   */
  lemma LegacyWeeklyFirst(start: Date, now: Date, days: seq<int>)
    requires Valid(start) && WeekdaysInRange(days) && LegacyWeeklyEnds(days)
    ensures Valid(LegacyWeeklyNext(start, now, days))
    ensures DayNumber(start) < DayNumber(LegacyWeeklyNext(start, now, days))
    ensures LegacyWeeklyMatch(LegacyWeeklyNext(start, now, days), now, days)
    ensures forall e :: Valid(e) && DayNumber(start) < DayNumber(e) < DayNumber(LegacyWeeklyNext(start, now, days))
              ==> !LegacyWeeklyMatch(e, now, days)
  {
    var first := AddDays(start, 1);
    var ds := SansSunday(days);
    var r := LegacyWeeklyNext(start, now, days);
    assert first == NextDay(start);
    NextDayNumber(start);
    WeeklyEndsSans(days);
    WeeklyNextMatches(first, now, ds);
    WeeklyNextFirst(first, now, ds);
    SansSundayOn(days, Weekday(r));
    forall e | Valid(e) && DayNumber(start) < DayNumber(e) < DayNumber(r)
      ensures !LegacyWeeklyMatch(e, now, days)
    {
      SansSundayOn(days, Weekday(e));
    }
  }

  /** A date the older weekly scan stops at needs a listed weekday 1..6: `w 7` never ends. */
  lemma LegacyWeeklyMatchNeedsWorkday(d: Date, now: Date, days: seq<int>)
    requires WeekdaysInRange(days)
    ensures LegacyWeeklyMatch(d, now, days) ==> LegacyWeeklyEnds(days)
  {
    if LegacyWeeklyMatch(d, now, days) {
      var i :| 0 <= i < |days| && days[i] == Weekday(d);
      assert 1 <= Weekday(d) <= 6;
    }
  }

  /**
   * The weekly branch of the older revision: fill the eight-entry
   * `dayOfWeek` table by listed day, then step a day and test, until a date
   * after now has its `Weekday()` entry set.
   */
  method LegacyNextWeekly(start: Date, now: Date, days: seq<int>) returns (d: Date)
    requires Valid(start) && WeekdaysInRange(days) && LegacyWeeklyEnds(days)
    ensures d == LegacyWeeklyNext(start, now, days)
  {
    var dayOfWeek := new bool[8](_ => false);
    var i := 0;
    while i < |days|
      invariant 0 <= i <= |days|
      invariant forall w :: 0 <= w < 8 ==> dayOfWeek[w] == Listed(days[..i], w)
    {
      var day := days[i];
      dayOfWeek[day] := true;
      assert days[..i + 1] == days[..i] + [day];
      forall v | true ensures Listed(days[..i + 1], v) <==> Listed(days[..i], v) || day == v {
        ListedAppend(days[..i], day, v);
      }
      i := i + 1;
    }
    assert days[..i] == days;
    forall w | 0 <= w < 7 ensures dayOfWeek[w] == WeekdayOn(SansSunday(days), w) {
      SansSundayOn(days, w);
    }
    WeeklyEndsSans(days);
    d := AddDays(start, 1);
    assert d == NextDay(start);
    NextDayNumber(start);
    d := ScanWeekly(d, now, SansSunday(days), dayOfWeek);
  }

  // ---------------------------------------------------------------------
  // The monthly branch

  /** A listed day is negative: `dayOfMonth[day]` is out of range. */
  predicate HasNegative(days: seq<int>) {
    exists i :: 0 <= i < |days| && days[i] < 0
  }

  /** The date the older monthly scan stops at. */
  function LegacyMonthlyNext(start: Date, now: Date, days: seq<int>, months: seq<int>): Date {
    MonthlyNext(AddDays(start, 1), now, days, months)
  }

  /**
   * The first loop of the older monthly branch: mark each listed day in
   * the 32-entry `dayOfMonth` table, panicking at the first negative day.
   */
  method LegacyDayTable(days: seq<int>) returns (dayOfMonth: array<bool>, panicked: bool)
    requires forall i :: 0 <= i < |days| ==> -31 <= days[i] <= 31
    ensures fresh(dayOfMonth) && dayOfMonth.Length == 32
    ensures panicked <==> HasNegative(days)
    ensures !panicked ==> forall k :: 1 <= k < 32 ==> dayOfMonth[k] == Listed(days, k)
  {
    dayOfMonth := new bool[32](_ => false);
    var i := 0;
    while i < |days|
      invariant 0 <= i <= |days|
      invariant forall j :: 0 <= j < i ==> days[j] >= 0
      invariant forall k :: 1 <= k < 32 ==> dayOfMonth[k] == Listed(days[..i], k)
    {
      var day := days[i];
      if day < 0 {
        // `dayOfMonth[day]` is out of range
        return dayOfMonth, true;
      }
      dayOfMonth[day] := true;
      assert days[..i + 1] == days[..i] + [day];
      forall v | true ensures Listed(days[..i + 1], v) <==> Listed(days[..i], v) || day == v {
        ListedAppend(days[..i], day, v);
      }
      i := i + 1;
    }
    assert days[..i] == days;
    panicked := false;
  }

  /**
   * The monthly branch of the older revision: fill the tables, then step a
   * day and test, until a date after now has its day of the month and its
   * month marked. Without -1 or -2 the current scan's test on the same
   * tables is that test.
   */
  method LegacyNextMonthly(start: Date, now: Date, days: seq<int>, months: seq<int>)
    returns (panicked: bool, d: Date)
    requires Valid(start) && Valid(now)
    requires (forall i :: 0 <= i < |days| ==> -31 <= days[i] <= 31) && months != [] && MonthsInRange(months)
    requires HasNegative(days) || Satisfiable(days, months)
    ensures panicked <==> HasNegative(days)
    ensures !panicked ==> MonthlyFirst(AddDays(start, 1), now, days, months, d)
    ensures !panicked ==> d == LegacyMonthlyNext(start, now, days, months)
  {
    var dayOfMonth;
    dayOfMonth, panicked := LegacyDayTable(days);
    if panicked {
      return panicked, start;
    }
    var monthTable := BuildMonthTable(months);
    var first := AddDays(start, 1);
    assert first == NextDay(start);
    NextDayNumber(start);
    d := ScanMonthly(first, now, days, months, dayOfMonth, false, false, monthTable);
    MonthlyNextExactly(first, now, days, months, d);
  }

  // ---------------------------------------------------------------------
  // The whole call

  /** The older monthly table panics on this rule. */
  predicate LegacyPanics(p: Parsed) {
    p.rType == MONTH && HasNegative(p.days)
  }

  /** The rule's branch stops (or panics) instead of looping forever. */
  predicate LegacyEnds(start: Date, now: Date, p: Parsed) {
    (p.rType == DAY && |p.days| >= 1 ==> p.days[0] >= 1 || After(start, now))
    && (p.rType == WEEKDAY ==> LegacyWeeklyEnds(p.days))
    && (p.rType == MONTH ==> HasNegative(p.days) || Satisfiable(p.days, p.months))
  }

  /** The inputs for which the older `NextDate` returns or panics at all. */
  predicate LegacyReturns(now: Date, dstart: string, repeat: string) {
    ParseDate(dstart).Some? && LegacyParse(repeat).Returned? && LegacyParse(repeat).result.Ok?
    ==> LegacyEnds(ParseDate(dstart).value, now, LegacyParse(repeat).result.value)
  }

  /** The date the rule's branch stops at. */
  function LegacyNextOf(start: Date, now: Date, p: Parsed): Date
    requires LegacyWellFormed(p)
  {
    if p.rType == DAY then DailyNext(start, p.days[0], now)
    else if p.rType == YEAR then YearlyNext(start, now)
    else if p.rType == WEEKDAY then LegacyWeeklyNext(start, now, p.days)
    else LegacyMonthlyNext(start, now, p.days, p.months)
  }

  /** What the older `NextDate(now, dstart, repeat)` does. */
  function LegacyNextDateOf(now: Date, dstart: string, repeat: string): Outcome<string> {
    match ParseDate(dstart)
    case None => Returned(Err(InvalidDate))
    case Some(start) =>
      match LegacyParse(repeat)
      case Panicked => Panicked
      case Returned(Err(e)) => Returned(Err(e))
      case Returned(Ok(p)) =>
        LegacyParseWellFormed(repeat);
        if LegacyPanics(p) then Panicked else Returned(Ok(Format(LegacyNextOf(start, now, p))))
  }

  /**
   * The older rule's date is a real date after now and on or after the
   * start; it is the start itself only for `d 0` on a start after now, and
   * strictly after the start otherwise.
   */
  lemma LegacyNextOfAfter(start: Date, now: Date, p: Parsed)
    requires Valid(start) && Valid(now) && LegacyWellFormed(p) && LegacyEnds(start, now, p) && !LegacyPanics(p)
    ensures Valid(LegacyNextOf(start, now, p)) && After(LegacyNextOf(start, now, p), now)
    ensures p.rType == DAY && p.days[0] == 0 ==> LegacyNextOf(start, now, p) == start
    ensures !(p.rType == DAY && p.days[0] == 0) ==> After(LegacyNextOf(start, now, p), start)
  {
    if p.rType == DAY {
      if p.days[0] >= 1 {
        DailyNextFirst(start, p.days[0], now);
      }
    } else if p.rType == YEAR {
      var r := YearlyNext(start, now);
      YearlyNextFirst(start, now);
      YearsLaterFields(start, r.year - start.year);
      DayNumberOrder(start, r);
    } else if p.rType == WEEKDAY {
      LegacyWeeklyFirst(start, now, p.days);
    } else {
      var first := AddDays(start, 1);
      assert first == NextDay(start);
      NextDayNumber(start);
      MonthlyNextFirst(first, now, p.days, p.months);
    }
  }

  /**
   * The errors and panics: an unparsable start date is the date error, the
   * parser's errors are returned as they are, and the call panics exactly
   * when the parser does or a monthly rule lists a negative day.
   */
  lemma LegacyNextDateErrors(now: Date, dstart: string, repeat: string)
    ensures LegacyNextDateOf(now, dstart, repeat) == Returned(Err(InvalidDate)) <==> ParseDate(dstart).None?
    ensures LegacyNextDateOf(now, dstart, repeat) == Panicked
            <==> ParseDate(dstart).Some?
                 && (LegacyParse(repeat) == Panicked
                     || (LegacyParse(repeat).Returned? && LegacyParse(repeat).result.Ok?
                         && LegacyPanics(LegacyParse(repeat).result.value)))
    ensures ParseDate(dstart).Some? && LegacyParse(repeat).Returned? && LegacyParse(repeat).result.Err?
            ==> LegacyNextDateOf(now, dstart, repeat) == Returned(Err(LegacyParse(repeat).result.error))
  {
    LegacyParseErrors(repeat);
  }

  // ---------------------------------------------------------------------
  // The source's control flow

  /** The older `NextDate`: parse, run the rule's branch, format. */
  method LegacyNextDate(now: Date, dstart: string, repeat: string) returns (r: Outcome<string>)
    requires Valid(now) && LegacyReturns(now, dstart, repeat)
    ensures r == LegacyNextDateOf(now, dstart, repeat)
  {
    var parsedDate := ParseDate(dstart);
    if parsedDate.None? {
      return Returned(Err(InvalidDate));
    }
    var start := parsedDate.value;
    FormatParse(dstart);
    var parsedRepeat := LegacyParseRepeat(repeat);
    if parsedRepeat.Panicked? {
      return Panicked;
    }
    if parsedRepeat.result.Err? {
      return Returned(Err(parsedRepeat.result.error));
    }
    var p := parsedRepeat.result.value;
    LegacyParseWellFormed(repeat);
    var d := start;
    if p.rType == DAY {
      d := NextDaily(start, p.days[0], now);
    }
    if p.rType == YEAR {
      d := NextYearly(start, now);
    }
    if p.rType == WEEKDAY {
      d := LegacyNextWeekly(start, now, p.days);
    }
    if p.rType == MONTH {
      var panicked;
      panicked, d := LegacyNextMonthly(start, now, p.days, p.months);
      if panicked {
        return Panicked;
      }
    }
    return Returned(Ok(Format(d)));
  }

  // ---------------------------------------------------------------------
  // Where the revisions disagree

  /** On a daily or yearly rule written by the current grammar, the revisions agree. */
  lemma RevisionsAgree(now: Date, dstart: string, p: Parsed)
    requires WellFormed(p) && (p.rType == DAY || p.rType == YEAR)
    ensures LegacyNextDateOf(now, dstart, Render(p)) == Returned(NextDateOf(now, dstart, Render(p)))
  {
    LegacyReadsRender(p);
    ParseRender(p);
  }

  /**
   * A monthly rule written by the current grammar: the current revision
   * returns a date, the older one panics exactly when the rule has no
   * month list or lists -1 or -2.
   */
  lemma MonthlyContrast(now: Date, dstart: string, p: Parsed)
    requires WellFormed(p) && p.rType == MONTH && ParseDate(dstart).Some?
    ensures NextDateOf(now, dstart, Render(p)).Ok?
    ensures LegacyNextDateOf(now, dstart, Render(p)) == Panicked
            <==> p.months == [] || Listed(p.days, -1) || Listed(p.days, -2)
  {
    LegacyReadsRender(p);
    ParseRender(p);
    if HasNegative(p.days) {
      var i :| 0 <= i < |p.days| && p.days[i] < 0;
      assert p.days[i] == -1 || p.days[i] == -2;
    }
  }

  /**
   * `w 7`: the current revision finds the next Sunday after now; the older
   * revision's table entry 7 is never met, so no date stops its scan.
   */
  lemma SundayContrast(start: Date, now: Date, d: Date)
    requires Valid(start)
    ensures WeeklyMatch(WeeklyNext(start, now, [7]), now, [7]) && Weekday(WeeklyNext(start, now, [7])) == 0
    ensures !LegacyWeeklyMatch(d, now, [7])
  {
    WeeklyNextMatches(start, now, [7]);
    LegacyWeeklyMatchNeedsWorkday(d, now, [7]);
  }
}
