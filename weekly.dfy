/**
 * The `w` branch of `NextDate` (current revision): a seven-entry table marks
 * the selected weekdays (7, Sunday, goes to entry 0 as `day % 7`), then the
 * scan tests the current date before moving on, so the start date itself
 * can be the answer.
 */
module WeeklyRule {
  import opened Calendar

  /** Weekday `w` (0 = Sunday) is selected by one of the listed days 1..7. */
  predicate WeekdayOn(days: seq<int>, w: int) {
    exists i :: 0 <= i < |days| && days[i] % 7 == w
  }

  /** A date the weekly scan stops at. */
  predicate WeeklyMatch(d: Date, now: Date, days: seq<int>) {
    After(d, now) && WeekdayOn(days, Weekday(d))
  }

  /** The first date that is both on or after the start and strictly after now. */
  function ScanBase(start: Date, now: Date): Date {
    if After(start, now) then start
    else AddDays(start, DayNumber(now) + 1 - DayNumber(start))
  }

  /** The weekday `i` days after weekday `w` is selected. */
  predicate SelectedAfter(days: seq<int>, w: nat, i: nat) {
    WeekdayOn(days, (w + i) % 7)
  }

  /** The number of days from weekday `w` to the first selected weekday, counting from `j`. */
  function DaysToSelected(days: seq<int>, w: nat, j: nat): (g: nat)
    requires j <= 6
    ensures j <= g <= 6
    decreases 6 - j
  {
    if j == 6 || SelectedAfter(days, w, j) then j else DaysToSelected(days, w, j + 1)
  }

  /**
   * The date the weekly scan stops at: from the scan base, on to the first
   * selected weekday.
   */
  function WeeklyNext(start: Date, now: Date, days: seq<int>): Date {
    var base := ScanBase(start, now);
    AddDays(base, DaysToSelected(days, Weekday(base), 0))
  }

  predicate WeekdaysInRange(days: seq<int>) {
    |days| >= 1 && forall i :: 0 <= i < |days| ==> 1 <= days[i] <= 7
  }

  /** With a day listed, some weekday within the next seven is selected. */
  lemma {:induction false} DaysToSelectedFinds(days: seq<int>, w: nat, j: nat)
    requires WeekdaysInRange(days) && w < 7 && j <= 6
    requires forall i: nat :: i < j ==> !SelectedAfter(days, w, i)
    ensures SelectedAfter(days, w, DaysToSelected(days, w, j))
    ensures forall i: nat :: i < DaysToSelected(days, w, j) ==> !SelectedAfter(days, w, i)
    decreases 6 - j
  {
    if j < 6 && !SelectedAfter(days, w, j) {
      DaysToSelectedFinds(days, w, j + 1);
    } else if j == 6 {
      var t := days[0] % 7;
      var i: nat := (t - w + 7) % 7;
      assert (w + i) % 7 == t;
      assert SelectedAfter(days, w, i);
    }
  }

  lemma ScanBaseFacts(start: Date, now: Date)
    requires Valid(start)
    ensures Valid(ScanBase(start, now)) && After(ScanBase(start, now), now)
    ensures DayNumber(ScanBase(start, now)) == Max(DayNumber(start), DayNumber(now) + 1)
    ensures forall e :: Valid(e) && DayNumber(start) <= DayNumber(e) < DayNumber(ScanBase(start, now))
              ==> !After(e, now)
  {
    if !After(start, now) {
      AddDaysNumber(start, DayNumber(now) + 1 - DayNumber(start));
    }
  }

  /** The date `i` days past a valid date, with its day number and weekday. */
  lemma DaysLater(base: Date, i: nat)
    requires Valid(base)
    ensures Valid(AddDays(base, i))
    ensures DayNumber(AddDays(base, i)) == DayNumber(base) + i
    ensures Weekday(AddDays(base, i)) == (Weekday(base) + i) % 7
  {
    AddDaysNumber(base, i);
    WeekdayAddDays(base, i);
  }

  /** From the scan base up to the reference date no date falls on a selected weekday. */
  lemma WeeklySkipped(base: Date, days: seq<int>, e: Date)
    requires Valid(base) && WeekdaysInRange(days) && Valid(e)
    requires DayNumber(base) <= DayNumber(e)
    requires DayNumber(e) < DayNumber(base) + DaysToSelected(days, Weekday(base), 0)
    ensures !WeekdayOn(days, Weekday(e))
  {
    var w := Weekday(base);
    var i: nat := DayNumber(e) - DayNumber(base);
    var a := AddDays(base, i);
    DaysLater(base, i);
    DayNumberInjective(e, a);
    DaysToSelectedFinds(days, w, 0);
    assert !SelectedAfter(days, w, i);
  }

  /** Between the start and the reference date no date is a match. */
  lemma WeeklyNoEarlierMatch(start: Date, now: Date, days: seq<int>, e: Date)
    requires Valid(start) && WeekdaysInRange(days) && Valid(e)
    requires DayNumber(start) <= DayNumber(e) < DayNumber(WeeklyNext(start, now, days))
    ensures !WeeklyMatch(e, now, days)
  {
    var base := ScanBase(start, now);
    var g := DaysToSelected(days, Weekday(base), 0);
    ScanBaseFacts(start, now);
    DaysLater(base, g);
    assert WeeklyNext(start, now, days) == AddDays(base, g);
    if DayNumber(e) >= DayNumber(base) {
      WeeklySkipped(base, days, e);
    }
  }

  /**
   * The reference date is on or after the start, strictly after now, on a
   * selected weekday, and at most six days past the later of the start and
   * the day after now.
   */
  lemma WeeklyNextMatches(start: Date, now: Date, days: seq<int>)
    requires Valid(start) && WeekdaysInRange(days)
    ensures Valid(WeeklyNext(start, now, days))
    ensures DayNumber(start) <= DayNumber(WeeklyNext(start, now, days))
            <= Max(DayNumber(start), DayNumber(now) + 1) + 6
    ensures WeeklyMatch(WeeklyNext(start, now, days), now, days)
  {
    var base := ScanBase(start, now);
    var w := Weekday(base);
    var g := DaysToSelected(days, w, 0);
    ScanBaseFacts(start, now);
    DaysToSelectedFinds(days, w, 0);
    DaysLater(base, g);
    var d := AddDays(base, g);
    assert WeeklyNext(start, now, days) == d;
    assert SelectedAfter(days, w, g) && Weekday(d) == (w + g) % 7;
    assert After(d, now);
  }

  /** No date from the start up to the reference date is a match. */
  lemma WeeklyNextFirst(start: Date, now: Date, days: seq<int>)
    requires Valid(start) && WeekdaysInRange(days)
    ensures forall e :: Valid(e) && DayNumber(start) <= DayNumber(e) < DayNumber(WeeklyNext(start, now, days))
              ==> !WeeklyMatch(e, now, days)
  {
    forall e | Valid(e) && DayNumber(start) <= DayNumber(e) < DayNumber(WeeklyNext(start, now, days))
      ensures !WeeklyMatch(e, now, days)
    {
      WeeklyNoEarlierMatch(start, now, days, e);
    }
  }

  /** A matching start date stops the scan at once. */
  lemma WeeklyStartMatches(start: Date, now: Date, days: seq<int>)
    requires Valid(start) && WeekdaysInRange(days) && WeeklyMatch(start, now, days)
    ensures WeeklyNext(start, now, days) == start
  {
    var w := Weekday(start);
    assert ScanBase(start, now) == start;
    assert (w + 0) % 7 == w;
    assert SelectedAfter(days, w, 0);
    assert DaysToSelected(days, w, 0) == 0;
  }

  /** The start date is its own result exactly when it is after now and on a selected weekday. */
  lemma WeeklyStartItself(start: Date, now: Date, days: seq<int>)
    requires Valid(start) && WeekdaysInRange(days)
    ensures WeeklyNext(start, now, days) == start <==> WeeklyMatch(start, now, days)
  {
    if WeeklyMatch(start, now, days) {
      WeeklyStartMatches(start, now, days);
    } else {
      WeeklyNextMatches(start, now, days);
    }
  }

  function Max(a: int, b: int): int {
    if a < b then b else a
  }

  /**
   * The weekly branch: fill the `dayOfWeek` table, then scan forward one day
   * at a time until a date after now falls on a selected weekday.
   */
  method NextWeekly(start: Date, now: Date, days: seq<int>) returns (d: Date)
    requires Valid(start) && WeekdaysInRange(days)
    ensures d == WeeklyNext(start, now, days)
  {
    var dayOfWeek := new bool[7](_ => false);
    var i := 0;
    while i < |days|
      invariant 0 <= i <= |days|
      invariant forall w :: 0 <= w < 7 ==> dayOfWeek[w] == WeekdayOn(days[..i], w)
    {
      var idx := days[i] % 7;
      dayOfWeek[idx] := true;
      i := i + 1;
      assert days[..i] == days[..i - 1] + [days[i - 1]];
      forall w | 0 <= w < 7 ensures dayOfWeek[w] == WeekdayOn(days[..i], w) {
        if WeekdayOn(days[..i - 1], w) {
          var j :| 0 <= j < i - 1 && days[..i - 1][j] % 7 == w;
          assert days[..i][j] % 7 == w;
        }
      }
    }
    assert days[..i] == days;
    d := ScanWeekly(start, now, days, dayOfWeek);
  }

  /**
   * The scan of the weekly branch: from the start, checked before each step,
   * one day at a time until a date after now falls on a weekday the table
   * marks.
   */
  method ScanWeekly(start: Date, now: Date, days: seq<int>, dayOfWeek: array<bool>) returns (d: Date)
    requires Valid(start) && WeekdaysInRange(days)
    requires dayOfWeek.Length >= 7 && forall w :: 0 <= w < 7 ==> dayOfWeek[w] == WeekdayOn(days, w)
    ensures d == WeeklyNext(start, now, days)
  {
    ghost var target := WeeklyNext(start, now, days);
    WeeklyNextMatches(start, now, days);
    WeeklyNextFirst(start, now, days);
    d := start;
    while !(After(d, now) && dayOfWeek[Weekday(d)])
      invariant Valid(d) && DayNumber(start) <= DayNumber(d) <= DayNumber(target)
      invariant forall e :: Valid(e) && DayNumber(start) <= DayNumber(e) < DayNumber(d)
                  ==> !WeeklyMatch(e, now, days)
      decreases DayNumber(target) - DayNumber(d)
    {
      DayNumberOrder(d, target);
      NextDayNumber(d);
      forall e | Valid(e) && DayNumber(start) <= DayNumber(e) <= DayNumber(d)
        ensures !WeeklyMatch(e, now, days)
      {
        DayNumberOrder(e, d);
      }
      d := AddDays(d, 1);
    }
    DayNumberOrder(d, target);
  }
}
