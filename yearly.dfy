/**
 * The `y` branch of `NextDate` (current revision): the start date is moved
 * forward one year at a time with `AddDate(1, 0, 0)`, at least once, until
 * it is strictly after now. A February 29th start becomes March 1st on the
 * first step and stays there.
 */
module YearlyRule {
  import opened Calendar

  /** The date after `k` passes of the yearly loop; every pass yields a real calendar date. */
  function YearsLater(d: Date, k: nat): (r: Date)
    requires Valid(d)
    ensures Valid(r)
  {
    if k == 0 then d
    else
      var prev := YearsLater(d, k - 1);
      AddYearFields(prev);
      AddYear(prev)
  }

  /** The month every occurrence after the start has. */
  function AnniversaryMonth(d: Date): nat {
    if d.month == 2 && d.day == 29 then 3 else d.month
  }

  /** The day of the month every occurrence after the start has. */
  function AnniversaryDay(d: Date): nat {
    if d.month == 2 && d.day == 29 then 1 else d.day
  }

  /** The first year whose (month, day) anniversary is strictly after now. */
  function FirstYearAfter(month: nat, day: nat, now: Date): nat {
    if now.month < month || (now.month == month && now.day < day) then now.year else now.year + 1
  }

  /**
   * The date the yearly loop stops at: the start's anniversary in the first
   * year after the start's own year in which it is strictly after now.
   */
  function YearlyNext(start: Date, now: Date): Date {
    var m, day := AnniversaryMonth(start), AnniversaryDay(start);
    var y := FirstYearAfter(m, day, now);
    Date(if y > start.year + 1 then y else start.year + 1, m, day)
  }

  /** After k >= 1 passes the date is the anniversary k years on. */
  lemma {:induction false} YearsLaterFields(d: Date, k: nat)
    requires Valid(d) && k >= 1
    ensures YearsLater(d, k) == Date(d.year + k, AnniversaryMonth(d), AnniversaryDay(d))
    ensures Valid(YearsLater(d, k))
  {
    AddYearFields(YearsLater(d, k - 1));
    if k == 1 {
      if d.month == 2 && d.day == 29 {
        assert !IsLeap(d.year + 1);
      }
    } else {
      YearsLaterFields(d, k - 1);
    }
  }

  /** An anniversary is after now exactly from `FirstYearAfter` on. */
  lemma AnniversaryAfter(y: nat, month: nat, day: nat, now: Date)
    requires Valid(Date(y, month, day)) && Valid(now)
    ensures After(Date(y, month, day), now) <==> y >= FirstYearAfter(month, day, now)
  {
    DayNumberOrder(now, Date(y, month, day));
  }

  /** Pass k >= 1 is after now exactly when its year reaches `FirstYearAfter`. */
  lemma PassAfter(start: Date, now: Date, k: nat)
    requires Valid(start) && Valid(now) && k >= 1
    ensures After(YearsLater(start, k), now)
            <==> start.year + k >= FirstYearAfter(AnniversaryMonth(start), AnniversaryDay(start), now)
  {
    var a := Date(start.year + k, AnniversaryMonth(start), AnniversaryDay(start));
    YearsLaterFields(start, k);
    assert YearsLater(start, k) == a;
    AnniversaryAfter(a.year, a.month, a.day, now);
  }

  /** Passes before the reference year's are not after now. */
  lemma YearlyEarlierPass(start: Date, now: Date, j: nat)
    requires Valid(start) && Valid(now)
    requires 1 <= j < YearlyNext(start, now).year - start.year
    ensures !After(YearsLater(start, j), now)
  {
    PassAfter(start, now, j);
  }

  /** The reference date is the date after some pass of the loop. */
  lemma YearlyNextReached(start: Date, now: Date)
    requires Valid(start)
    ensures YearlyNext(start, now).year > start.year
    ensures YearlyNext(start, now) == YearsLater(start, YearlyNext(start, now).year - start.year)
  {
    var r := YearlyNext(start, now);
    assert r.year >= start.year + 1;
    var k: nat := r.year - start.year;
    YearsLaterFields(start, k);
    assert r == Date(start.year + k, AnniversaryMonth(start), AnniversaryDay(start));
  }

  /** The reference date is after now. */
  lemma YearlyNextAfter(start: Date, now: Date)
    requires Valid(start) && Valid(now)
    ensures After(YearlyNext(start, now), now)
  {
    var r := YearlyNext(start, now);
    YearlyNextReached(start, now);
    AnniversaryAfter(r.year, r.month, r.day, now);
  }

  /**
   * The reference date is reached by the loop, is after now, and no earlier
   * pass of the loop is after now.
   */
  lemma YearlyNextFirst(start: Date, now: Date)
    requires Valid(start) && Valid(now)
    ensures YearlyNext(start, now).year > start.year
    ensures YearlyNext(start, now) == YearsLater(start, YearlyNext(start, now).year - start.year)
    ensures After(YearlyNext(start, now), now)
    ensures forall j :: 1 <= j < YearlyNext(start, now).year - start.year
              ==> !After(YearsLater(start, j), now)
  {
    YearlyNextReached(start, now);
    YearlyNextAfter(start, now);
    forall j | 1 <= j < YearlyNext(start, now).year - start.year ensures !After(YearsLater(start, j), now) {
      YearlyEarlierPass(start, now, j);
    }
  }

  /** The first pass count that gets past now, in years: where `FirstYearAfter` lands. */
  lemma ExitYear(start: Date, now: Date, k: nat)
    requires Valid(start) && Valid(now) && k >= 1
    requires After(YearsLater(start, k), now)
    requires k == 1 || !After(YearsLater(start, k - 1), now)
    ensures start.year + k >= FirstYearAfter(AnniversaryMonth(start), AnniversaryDay(start), now)
    ensures k == 1 || start.year + k - 1 < FirstYearAfter(AnniversaryMonth(start), AnniversaryDay(start), now)
  {
    PassAfter(start, now, k);
    if k > 1 {
      PassAfter(start, now, k - 1);
    }
  }

  /** A pass count that is the first to get past now is the reference date's. */
  lemma YearlyExit(start: Date, now: Date, k: nat)
    requires Valid(start) && Valid(now) && k >= 1
    requires After(YearsLater(start, k), now)
    requires k == 1 || !After(YearsLater(start, k - 1), now)
    ensures YearsLater(start, k) == YearlyNext(start, now)
  {
    ExitYear(start, now, k);
    YearsLaterFields(start, k);
  }

  /** The `for` loop of the yearly branch: add a year, stop once after now. */
  method NextYearly(start: Date, now: Date) returns (d: Date)
    requires Valid(start) && Valid(now)
    ensures d == YearlyNext(start, now)
  {
    ghost var k: nat := 0;
    d := start;
    while true
      invariant Valid(d) && d == YearsLater(start, k)
      invariant k >= 1 ==> !After(d, now)
      decreases DayNumber(now) - DayNumber(d)
    {
      AddYearNumber(d);
      AddYearFields(d);
      d := AddYear(d);
      k := k + 1;
      if After(d, now) {
        break;
      }
    }
    YearlyExit(start, now, k);
  }
}
