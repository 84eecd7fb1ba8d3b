/**
 * The four examples in the comment above `NextDate` (pkg/api/nextDate.go),
 * each with a `now` that makes it hold.
 */
module Scenarios {
  import opened Outcomes
  import opened Calendar
  import opened Rules
  import opened ParserFacts
  import opened DateFormat
  import opened MonthlyRule
  import opened Scheduler

  /** A start date written in the layout and a rule written in the mini-language. */
  lemma Written(now: Date, dstart: string, repeat: string, start: Date, p: Parsed)
    requires Valid(start) && start.year < 10000 && Format(start) == dstart
    requires WellFormed(p) && Render(p) == repeat
    ensures NextDateOf(now, dstart, repeat) == Ok(Format(NextOf(start, now, p)))
  {
    ParseFormat(start);
    ParseRender(p);
  }

  /** A monthly rule whose first match is known returns that match's text. */
  lemma MonthlyWritten(now: Date, dstart: string, repeat: string, start: Date, p: Parsed, d: Date, text: string)
    requires Valid(now) && Valid(start) && start.year < 10000 && Format(start) == dstart
    requires WellFormed(p) && p.rType == MONTH && Render(p) == repeat
    requires MonthlyFirst(start, now, p.days, p.months, d) && Format(d) == text
    ensures NextDateOf(now, dstart, repeat) == Ok(text)
  {
    MonthlyNextExactly(start, now, p.days, p.months, d);
    Written(now, dstart, repeat, start, p);
  }

  /** Two digits of a number below 100. */
  lemma TwoDigits(n: nat)
    requires n < 100
    ensures Pad(n, 2) == [DigitChar(n / 10), DigitChar(n % 10)]
  {
    var t := n / 10;
    assert t < 10 && t % 10 == t;
    assert Pad(t, 1) == Pad(t / 10, 0) + [DigitChar(t % 10)];
    assert Pad(n, 2) == Pad(t, 1) + [DigitChar(n % 10)];
  }

  lemma YearTexts()
    ensures YearText(2024) == "2024" && YearText(2025) == "2025"
  {
  }

  /** The text of a date in 2024 or 2025, digit by digit. */
  lemma DateText(y: nat, m: nat, d: nat)
    requires y == 2024 || y == 2025
    requires m < 100 && d < 100
    ensures Format(Date(y, m, d))
            == YearText(y) + [DigitChar(m / 10), DigitChar(m % 10), DigitChar(d / 10), DigitChar(d % 10)]
  {
    TwoDigits(m);
    TwoDigits(d);
  }

  lemma LeapDayText()
    ensures Format(Date(2024, 2, 29)) == "20240229"
  {
    YearTexts();
    DateText(2024, 2, 29);
  }

  lemma MarchFirstText()
    ensures Format(Date(2025, 3, 1)) == "20250301"
  {
    YearTexts();
    DateText(2025, 3, 1);
  }

  /** `y` from 2024-02-29: March 1st of the next year. */
  lemma YearlyFromLeapDay()
    ensures NextDateOf(Date(2025, 1, 1), "20240229", "y") == Ok("20250301")
  {
    var now, start, p := Date(2025, 1, 1), Date(2024, 2, 29), Parsed(YEAR, [], []);
    LeapDayText();
    MarchFirstText();
    assert Render(p) == "y";
    assert NextOf(start, now, p) == Date(2025, 3, 1);
    Written(now, "20240229", "y", start, p);
  }

  lemma WeekStartText()
    ensures Format(Date(2024, 1, 13)) == "20240113"
  {
    YearTexts();
    DateText(2024, 1, 13);
  }

  lemma WeekOnText()
    ensures Format(Date(2024, 1, 20)) == "20240120"
  {
    YearTexts();
    DateText(2024, 1, 20);
  }

  /** `d 7` from 2024-01-13: a week later. */
  lemma DailyWeek()
    ensures NextDateOf(Date(2024, 1, 15), "20240113", "d 7") == Ok("20240120")
  {
    var now, start, p := Date(2024, 1, 15), Date(2024, 1, 13), Parsed(DAY, [7], []);
    WeekStartText();
    WeekOnText();
    assert Render(p) == "d 7";
    assert NextOf(start, now, p) == Date(2024, 1, 20);
    Written(now, "20240113", "d 7", start, p);
  }

  lemma ListedPair(a: int, b: int, v: int)
    ensures Listed([a, b], v) <==> v == a || v == b
  {
    if v == a {
      assert [a, b][0] == v;
    }
    if v == b {
      assert [a, b][1] == v;
    }
  }

  lemma SixteenthFormat()
    ensures Format(Date(2024, 1, 16)) == "20240116"
  {
    YearTexts();
    DateText(2024, 1, 16);
  }

  lemma SixteenthRule()
    ensures Render(Parsed(MONTH, [16, 5], [])) == "m 16,5"
  {
  }

  /**
   * `m 16,5` from 2024-01-16 with now = 2024-01-01: the start date itself,
   * which is after now and a 16th.
   */
  lemma MonthlyStartItself()
    ensures NextDateOf(Date(2024, 1, 1), "20240116", "m 16,5") == Ok("20240116")
  {
    var now, start, p := Date(2024, 1, 1), Date(2024, 1, 16), Parsed(MONTH, [16, 5], []);
    assert Valid(now) && Valid(start) && WellFormed(p);
    SixteenthFormat();
    SixteenthRule();
    ListedPair(16, 5, 16);
    assert MonthlyFirst(start, now, [16, 5], [], start);
    MonthlyWritten(now, "20240116", "m 16,5", start, p, start, "20240116");
  }

  lemma FebruaryFifthText()
    ensures Format(Date(2024, 2, 5)) == "20240205"
  {
    YearTexts();
    DateText(2024, 2, 5);
  }

  /** No day from 2024-01-27 to 2024-02-04 is a 16th or a 5th. */
  lemma NoSixteenthOrFifth(now: Date, e: Date)
    requires now == Date(2024, 1, 26) && Valid(e)
    requires After(e, now) && DayNumber(e) < DayNumber(Date(2024, 2, 5))
    ensures !MonthlyMatch(e, now, [16, 5], [])
  {
    DayNumberOrder(e, now);
    DayNumberOrder(e, Date(2024, 2, 5));
    ListedPair(16, 5, e.day);
  }

  /** From 2024-01-16 with now = 2024-01-26, February 5th is the first match of `m 16,5`. */
  lemma FifthIsFirst(start: Date, now: Date, d: Date)
    requires start == Date(2024, 1, 16) && now == Date(2024, 1, 26) && d == Date(2024, 2, 5)
    ensures MonthlyFirst(start, now, [16, 5], [], d)
  {
    ListedPair(16, 5, 5);
    forall e | Valid(e) && DayNumber(start) <= DayNumber(e) < DayNumber(d)
      ensures !MonthlyMatch(e, now, [16, 5], [])
    {
      if After(e, now) {
        NoSixteenthOrFifth(now, e);
      }
    }
  }

  /**
   * `m 16,5` from 2024-01-16 with now = 2024-01-26: the 16th is past, so
   * the next listed day is February 5th.
   */
  lemma MonthlyNextFifth()
    ensures NextDateOf(Date(2024, 1, 26), "20240116", "m 16,5") == Ok("20240205")
  {
    var now, start, p := Date(2024, 1, 26), Date(2024, 1, 16), Parsed(MONTH, [16, 5], []);
    var d := Date(2024, 2, 5);
    assert Valid(now) && Valid(start) && WellFormed(p);
    SixteenthFormat();
    SixteenthRule();
    FebruaryFifthText();
    FifthIsFirst(start, now, d);
    MonthlyWritten(now, "20240116", "m 16,5", start, p, d, "20240205");
  }

  lemma FebruaryFirstText()
    ensures Format(Date(2024, 2, 1)) == "20240201"
  {
    YearTexts();
    DateText(2024, 2, 1);
  }

  lemma EighteenthText()
    ensures Format(Date(2024, 2, 18)) == "20240218"
  {
    YearTexts();
    DateText(2024, 2, 18);
  }

  lemma EighteenthRule()
    ensures Render(Parsed(MONTH, [-1, 18], [])) == "m -1,18"
  {
  }

  /** No day from 2024-02-11 to 2024-02-17 is an 18th or the last of its month. */
  lemma NoEighteenthOrLast(now: Date, e: Date)
    requires now == Date(2024, 2, 10) && Valid(e)
    requires After(e, now) && DayNumber(e) < DayNumber(Date(2024, 2, 18))
    ensures !MonthlyMatch(e, now, [-1, 18], [])
  {
    DayNumberOrder(e, now);
    DayNumberOrder(e, Date(2024, 2, 18));
    ListedPair(-1, 18, e.day);
    ListedPair(-1, 18, -2);
    LastDayExactly(e);
  }

  /** From 2024-02-01 with now = 2024-02-10, February 18th is the first match of `m -1,18`. */
  lemma EighteenthIsFirst(start: Date, now: Date, d: Date)
    requires start == Date(2024, 2, 1) && now == Date(2024, 2, 10) && d == Date(2024, 2, 18)
    ensures MonthlyFirst(start, now, [-1, 18], [], d)
  {
    ListedPair(-1, 18, 18);
    forall e | Valid(e) && DayNumber(start) <= DayNumber(e) < DayNumber(d)
      ensures !MonthlyMatch(e, now, [-1, 18], [])
    {
      if After(e, now) {
        NoEighteenthOrLast(now, e);
      }
    }
  }

  /** `m -1,18` from 2024-02-01 with now = 2024-02-10: the 18th comes before the last day. */
  lemma MonthlyEighteenth()
    ensures NextDateOf(Date(2024, 2, 10), "20240201", "m -1,18") == Ok("20240218")
  {
    var now, start, p := Date(2024, 2, 10), Date(2024, 2, 1), Parsed(MONTH, [-1, 18], []);
    var d := Date(2024, 2, 18);
    assert Valid(now) && Valid(start) && WellFormed(p);
    FebruaryFirstText();
    EighteenthText();
    EighteenthRule();
    EighteenthIsFirst(start, now, d);
    MonthlyWritten(now, "20240201", "m -1,18", start, p, d, "20240218");
  }

  lemma JanuaryFirstText()
    ensures Format(Date(2024, 1, 1)) == "20240101"
  {
    YearTexts();
    DateText(2024, 1, 1);
  }

  lemma JanuaryLastText()
    ensures Format(Date(2024, 1, 31)) == "20240131"
  {
    YearTexts();
    DateText(2024, 1, 31);
  }

  lemma SecondLastRule()
    ensures Render(Parsed(MONTH, [-2], [])) == "m -2"
  {
  }

  /**
   * `isSecondLastDayOfMonth` also holds on the last day, so `m -2` stops at
   * January 31st when January 30th is not after now.
   */
  lemma SecondLastOnLastDay()
    ensures NextDateOf(Date(2024, 1, 30), "20240101", "m -2") == Ok("20240131")
  {
    var now, start, p := Date(2024, 1, 30), Date(2024, 1, 1), Parsed(MONTH, [-2], []);
    var d := Date(2024, 1, 31);
    assert Valid(now) && Valid(start) && WellFormed(p);
    assert NextDay(now) == d;
    NextDayNumber(now);
    DayNumberOrder(start, now);
    SecondLastDayExactly(d);
    assert Listed([-2], -2) by { assert [-2][0] == -2; }
    assert MonthlyMatch(d, now, [-2], []);
    assert MonthlyFirst(start, now, [-2], [], d);
    JanuaryFirstText();
    JanuaryLastText();
    SecondLastRule();
    MonthlyWritten(now, "20240101", "m -2", start, p, d, "20240131");
  }
}
