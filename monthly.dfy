/**
 * The `m` branch of `NextDate` (current revision): tables of the listed days
 * of the month and of the selected months (all twelve when none are listed),
 * flags for -1 (last day) and -2 (second-to-last day), then a day-by-day scan
 * from the start date, checked before each step, for the first date after now
 * that the tables accept. The loop has no bound: for rules that no date can
 * satisfy, such as `m 31 2`, it never ends, so the scan is modelled for the
 * rules that `Satisfiable` admits.
 */
module MonthlyRule {
  import opened Calendar

  predicate Listed(xs: seq<int>, v: int) {
    exists i :: 0 <= i < |xs| && xs[i] == v
  }

  /** Month `m` is selected: listed, or no months were listed at all. */
  predicate MonthSelected(months: seq<int>, m: int) {
    months == [] || Listed(months, m)
  }

  /** `isLastDayOfMonth`: the next day is in another month. */
  predicate IsLastDayOfMonth(d: Date) {
    AddDays(d, 1).month != d.month
  }

  /** `isSecondLastDayOfMonth`: the day after next is in another month. */
  predicate IsSecondLastDayOfMonth(d: Date) {
    AddDays(d, 2).month != d.month
  }

  /** `validMonthlyDate`, on the `dayOfMonth` table and the two flags. */
  predicate ValidMonthlyDate(d: Date, dayOfMonth: array<bool>, lastDay: bool, secondLastDay: bool)
    reads dayOfMonth
    requires d.day < dayOfMonth.Length
  {
    dayOfMonth[d.day] || (lastDay && IsLastDayOfMonth(d)) || (secondLastDay && IsSecondLastDayOfMonth(d))
  }

  /** What `validMonthlyDate` accepts, in terms of the listed days. */
  predicate DayAccepted(d: Date, days: seq<int>) {
    Listed(days, d.day)
    || (Listed(days, -1) && IsLastDayOfMonth(d))
    || (Listed(days, -2) && IsSecondLastDayOfMonth(d))
  }

  /** A date the monthly scan stops at. */
  predicate MonthlyMatch(d: Date, now: Date, days: seq<int>, months: seq<int>) {
    After(d, now) && MonthSelected(months, d.month) && DayAccepted(d, days)
  }

  /** `d` is the first match on or after the start. */
  ghost predicate MonthlyFirst(start: Date, now: Date, days: seq<int>, months: seq<int>, d: Date) {
    Valid(d) && DayNumber(start) <= DayNumber(d) && MonthlyMatch(d, now, days, months)
    && forall e :: Valid(e) && DayNumber(start) <= DayNumber(e) < DayNumber(d)
         ==> !MonthlyMatch(e, now, days, months)
  }

  /** The day items the parser accepts for a monthly rule. */
  predicate MonthDaysInRange(days: seq<int>) {
    forall i :: 0 <= i < |days| ==> 1 <= days[i] <= 31 || days[i] == -1 || days[i] == -2
  }

  predicate MonthsInRange(months: seq<int>) {
    forall i :: 0 <= i < |months| ==> 1 <= months[i] <= 12
  }

  /**
   * Some selected month has a day the rule accepts in some year: a -1 or -2,
   * or a listed day that the month can have.
   */
  predicate Satisfiable(days: seq<int>, months: seq<int>) {
    exists m :: 1 <= m <= 12 && MonthSelected(months, m)
      && (Listed(days, -1) || Listed(days, -2)
          || exists k :: 1 <= k <= MaxDaysInMonth(m) && Listed(days, k))
  }

  // ---------------------------------------------------------------------
  // The last-day tests

  /** `isLastDayOfMonth` holds exactly on the month's last day. */
  lemma LastDayExactly(d: Date)
    requires Valid(d)
    ensures IsLastDayOfMonth(d) <==> d.day == DaysInMonth(d.year, d.month)
  {
    assert AddDays(d, 1) == NextDay(d);
  }

  /**
   * `isSecondLastDayOfMonth` holds on the second-to-last day and also on the
   * last day, whose day after next is the 2nd of the following month.
   */
  lemma SecondLastDayExactly(d: Date)
    requires Valid(d)
    ensures IsSecondLastDayOfMonth(d) <==> d.day >= DaysInMonth(d.year, d.month) - 1
  {
    assert AddDays(d, 2) == NextDay(NextDay(d));
  }

  // ---------------------------------------------------------------------
  // When the scan ends

  /** Among eight consecutive years there is a leap year. */
  lemma LeapWithin(y: nat) returns (z: nat)
    ensures y <= z < y + 8 && IsLeap(z)
  {
    z := y + (4 - y % 4) % 4;
    if !IsLeap(z) {
      z := z + 4;
    }
  }

  /** A date in a year after both the start's and now's is after both. */
  lemma LaterYear(start: Date, now: Date, d: Date)
    requires Valid(start) && Valid(now) && Valid(d)
    requires d.year > start.year && d.year > now.year
    ensures After(d, now) && DayNumber(start) <= DayNumber(d)
  {
    DayNumberOrder(now, d);
    DayNumberOrder(start, d);
  }

  /** A satisfiable rule has a match on or after any start. */
  lemma SatisfiableWitness(start: Date, now: Date, days: seq<int>, months: seq<int>) returns (w: Date)
    requires Valid(start) && Valid(now) && Satisfiable(days, months)
    ensures Valid(w) && DayNumber(start) <= DayNumber(w) && MonthlyMatch(w, now, days, months)
    ensures w.year <= LaterYearOf(start, now) + 8
  {
    var y := LaterYearOf(start, now) + 1;
    var m :| 1 <= m <= 12 && MonthSelected(months, m)
      && (Listed(days, -1) || Listed(days, -2)
          || exists k :: 1 <= k <= MaxDaysInMonth(m) && Listed(days, k));
    if Listed(days, -1) || Listed(days, -2) {
      w := Date(y, m, DaysInMonth(y, m));
      LastDayExactly(w);
      SecondLastDayExactly(w);
    } else {
      var k :| 1 <= k <= MaxDaysInMonth(m) && Listed(days, k);
      if k <= DaysInMonth(y, m) {
        w := Date(y, m, k);
      } else {
        var z := LeapWithin(y);
        w := Date(z, m, k);
      }
    }
    LaterYear(start, now, w);
  }

  /** Every match proves the rule satisfiable: `Satisfiable` is exactly "the scan can end". */
  lemma MatchSatisfiable(d: Date, now: Date, days: seq<int>, months: seq<int>)
    requires Valid(d) && MonthlyMatch(d, now, days, months)
    ensures Satisfiable(days, months)
  {
    var m := d.month;
    assert Listed(days, -1) || Listed(days, -2) || (1 <= d.day <= MaxDaysInMonth(m) && Listed(days, d.day));
  }

  /** `m 31 2`: February never has a 31st, so the scan for it never ends. */
  lemma FebruaryThirtyFirstNeverMatches(d: Date, now: Date)
    requires Valid(d)
    ensures !Satisfiable([31], [2])
    ensures !MonthlyMatch(d, now, [31], [2])
  {
    forall m | 1 <= m <= 12 && MonthSelected([2], m)
      ensures !(Listed([31], -1) || Listed([31], -2)
                || exists k :: 1 <= k <= MaxDaysInMonth(m) && Listed([31], k))
    {
      assert m == 2;
    }
    if MonthlyMatch(d, now, [31], [2]) {
      MatchSatisfiable(d, now, [31], [2]);
    }
  }

  /** There is at most one first match. */
  lemma MonthlyFirstUnique(start: Date, now: Date, days: seq<int>, months: seq<int>, d1: Date, d2: Date)
    requires MonthlyFirst(start, now, days, months, d1) && MonthlyFirst(start, now, days, months, d2)
    ensures d1 == d2
  {
    DayNumberOrder(d1, d2);
  }

  // ---------------------------------------------------------------------
  // A reference scan

  /** The later of the two dates' years. */
  function LaterYearOf(start: Date, now: Date): nat {
    if start.year < now.year then now.year else start.year
  }

  /**
   * The scan as a function: from `d`, checked before each step, at most `n`
   * steps forward to the first match.
   */
  function ScanDays(d: Date, now: Date, days: seq<int>, months: seq<int>, n: nat): Date
    decreases n
  {
    if MonthlyMatch(d, now, days, months) || n == 0 then d
    else ScanDays(AddDays(d, 1), now, days, months, n - 1)
  }

  /** How far the scan has to look: to the end of the eighth year after the later of start and now. */
  function Horizon(start: Date, now: Date): nat {
    var h := DayNumber(Date(LaterYearOf(start, now) + 9, 1, 1)) - DayNumber(start);
    if h < 0 then 0 else h
  }

  /** The date the monthly scan stops at. */
  function MonthlyNext(start: Date, now: Date, days: seq<int>, months: seq<int>): Date {
    ScanDays(start, now, days, months, Horizon(start, now))
  }

  /** With a match within `n` days, the reference scan stops at the first match. */
  lemma {:induction false} ScanDaysFirst(d: Date, now: Date, days: seq<int>, months: seq<int>, n: nat, w: Date)
    requires Valid(d) && Valid(w) && MonthlyMatch(w, now, days, months)
    requires DayNumber(d) <= DayNumber(w) <= DayNumber(d) + n
    ensures MonthlyFirst(d, now, days, months, ScanDays(d, now, days, months, n))
    decreases n
  {
    if !MonthlyMatch(d, now, days, months) {
      DayNumberOrder(d, w);
      assert DayNumber(d) < DayNumber(w);
      var next := AddDays(d, 1);
      assert next == NextDay(d);
      NextDayNumber(d);
      ScanDaysFirst(next, now, days, months, n - 1, w);
      var r := ScanDays(next, now, days, months, n - 1);
      assert ScanDays(d, now, days, months, n) == r;
      forall e | Valid(e) && DayNumber(d) <= DayNumber(e) < DayNumber(r)
        ensures !MonthlyMatch(e, now, days, months)
      {
        DayNumberOrder(e, d);
      }
    }
  }

  /** A date before the horizon year is within the horizon. */
  lemma WithinHorizon(start: Date, now: Date, w: Date)
    requires Valid(start) && Valid(w) && DayNumber(start) <= DayNumber(w)
    requires w.year <= LaterYearOf(start, now) + 8
    ensures DayNumber(w) <= DayNumber(start) + Horizon(start, now)
  {
    DayNumberOrder(w, Date(LaterYearOf(start, now) + 9, 1, 1));
  }

  /** For a satisfiable rule the reference scan stops at the first match. */
  lemma MonthlyNextFirst(start: Date, now: Date, days: seq<int>, months: seq<int>)
    requires Valid(start) && Valid(now) && Satisfiable(days, months)
    ensures MonthlyFirst(start, now, days, months, MonthlyNext(start, now, days, months))
  {
    var w := SatisfiableWitness(start, now, days, months);
    WithinHorizon(start, now, w);
    ScanDaysFirst(start, now, days, months, Horizon(start, now), w);
  }

  /** The first match is what the reference scan returns. */
  lemma MonthlyNextExactly(start: Date, now: Date, days: seq<int>, months: seq<int>, d: Date)
    requires Valid(start) && Valid(now) && MonthlyFirst(start, now, days, months, d)
    ensures MonthlyNext(start, now, days, months) == d
  {
    MatchSatisfiable(d, now, days, months);
    MonthlyNextFirst(start, now, days, months);
    MonthlyFirstUnique(start, now, days, months, d, MonthlyNext(start, now, days, months));
  }

  // ---------------------------------------------------------------------
  // The branch of `NextDate`

  lemma ListedAppend(xs: seq<int>, x: int, v: int)
    ensures Listed(xs + [x], v) <==> Listed(xs, v) || x == v
  {
    if Listed(xs, v) {
      var i :| 0 <= i < |xs| && xs[i] == v;
      assert (xs + [x])[i] == v;
    }
    if x == v {
      assert (xs + [x])[|xs|] == v;
    }
  }

  /** The first loop of the monthly branch: the `dayOfMonth` table and the two flags. */
  method BuildDayTable(days: seq<int>) returns (dayOfMonth: array<bool>, lastDay: bool, secondLastDay: bool)
    requires MonthDaysInRange(days)
    ensures fresh(dayOfMonth) && dayOfMonth.Length == 32
    ensures forall k :: 1 <= k < 32 ==> dayOfMonth[k] == Listed(days, k)
    ensures lastDay == Listed(days, -1) && secondLastDay == Listed(days, -2)
  {
    dayOfMonth := new bool[32](_ => false);
    lastDay := false;
    secondLastDay := false;
    var i := 0;
    while i < |days|
      invariant 0 <= i <= |days|
      invariant forall k :: 1 <= k < 32 ==> dayOfMonth[k] == Listed(days[..i], k)
      invariant lastDay == Listed(days[..i], -1) && secondLastDay == Listed(days[..i], -2)
    {
      var day := days[i];
      if day > 0 {
        dayOfMonth[day] := true;
      } else if day == -1 {
        lastDay := true;
      } else if day == -2 {
        secondLastDay := true;
      }
      assert days[..i + 1] == days[..i] + [day];
      forall v | true ensures Listed(days[..i + 1], v) <==> Listed(days[..i], v) || day == v {
        ListedAppend(days[..i], day, v);
      }
      i := i + 1;
    }
    assert days[..i] == days;
  }

  /** The `months` table: every month when none are listed, else the listed ones. */
  method BuildMonthTable(months: seq<int>) returns (monthTable: array<bool>)
    requires MonthsInRange(months)
    ensures fresh(monthTable) && monthTable.Length == 13
    ensures forall k :: 1 <= k < 13 ==> monthTable[k] == MonthSelected(months, k)
  {
    monthTable := new bool[13](_ => false);
    var allMonths := |months| == 0;
    if allMonths {
      var m := 1;
      while m <= 12
        invariant 1 <= m <= 13
        invariant forall k :: 1 <= k < 13 ==> monthTable[k] == (k < m)
      {
        monthTable[m] := true;
        m := m + 1;
      }
    } else {
      var j := 0;
      while j < |months|
        invariant 0 <= j <= |months|
        invariant forall k :: 1 <= k < 13 ==> monthTable[k] == Listed(months[..j], k)
      {
        var month := months[j];
        monthTable[month] := true;
        assert months[..j + 1] == months[..j] + [month];
        forall v | true ensures Listed(months[..j + 1], v) <==> Listed(months[..j], v) || month == v {
          ListedAppend(months[..j], month, v);
        }
        j := j + 1;
      }
      assert months[..j] == months;
    }
  }

  /** The tables hold exactly what the rule lists. */
  ghost predicate Tables(days: seq<int>, months: seq<int>, dayOfMonth: array<bool>, lastDay: bool,
                         secondLastDay: bool, monthTable: array<bool>)
    reads dayOfMonth, monthTable
  {
    dayOfMonth.Length == 32 && monthTable.Length == 13
    && (forall k :: 1 <= k < 32 ==> dayOfMonth[k] == Listed(days, k))
    && lastDay == Listed(days, -1) && secondLastDay == Listed(days, -2)
    && (forall k :: 1 <= k < 13 ==> monthTable[k] == MonthSelected(months, k))
  }

  /** The scan's test on the tables is exactly `MonthlyMatch`. */
  lemma TableTest(d: Date, now: Date, days: seq<int>, months: seq<int>, dayOfMonth: array<bool>,
                  lastDay: bool, secondLastDay: bool, monthTable: array<bool>)
    requires Valid(d) && Tables(days, months, dayOfMonth, lastDay, secondLastDay, monthTable)
    ensures (After(d, now) && monthTable[d.month] && ValidMonthlyDate(d, dayOfMonth, lastDay, secondLastDay))
            <==> MonthlyMatch(d, now, days, months)
  {
  }

  /**
   * The scan of the monthly branch: from the start, checked before each step,
   * one day at a time until a date after now passes the tables.
   */
  method ScanMonthly(start: Date, now: Date, days: seq<int>, months: seq<int>, dayOfMonth: array<bool>,
                     lastDay: bool, secondLastDay: bool, monthTable: array<bool>) returns (d: Date)
    requires Valid(start) && Valid(now) && Satisfiable(days, months)
    requires Tables(days, months, dayOfMonth, lastDay, secondLastDay, monthTable)
    ensures MonthlyFirst(start, now, days, months, d)
  {
    ghost var target := SatisfiableWitness(start, now, days, months);
    d := start;
    TableTest(d, now, days, months, dayOfMonth, lastDay, secondLastDay, monthTable);
    while !(After(d, now) && monthTable[d.month] && ValidMonthlyDate(d, dayOfMonth, lastDay, secondLastDay))
      invariant Valid(d) && DayNumber(start) <= DayNumber(d) <= DayNumber(target)
      invariant (After(d, now) && monthTable[d.month] && ValidMonthlyDate(d, dayOfMonth, lastDay, secondLastDay))
                <==> MonthlyMatch(d, now, days, months)
      invariant forall e :: Valid(e) && DayNumber(start) <= DayNumber(e) < DayNumber(d)
                  ==> !MonthlyMatch(e, now, days, months)
      decreases DayNumber(target) - DayNumber(d)
    {
      DayNumberOrder(d, target);
      NextDayNumber(d);
      forall e | Valid(e) && DayNumber(start) <= DayNumber(e) <= DayNumber(d)
        ensures !MonthlyMatch(e, now, days, months)
      {
        DayNumberOrder(e, d);
      }
      d := AddDays(d, 1);
      TableTest(d, now, days, months, dayOfMonth, lastDay, secondLastDay, monthTable);
    }
  }

  /**
   * The monthly branch: fill the tables, then scan forward one day at a
   * time until a date after now is in a selected month and accepted by
   * `validMonthlyDate`.
   */
  method NextMonthly(start: Date, now: Date, days: seq<int>, months: seq<int>) returns (d: Date)
    requires Valid(start) && Valid(now)
    requires MonthDaysInRange(days) && MonthsInRange(months)
    requires Satisfiable(days, months)
    ensures MonthlyFirst(start, now, days, months, d)
    ensures d == MonthlyNext(start, now, days, months)
  {
    var dayOfMonth, lastDay, secondLastDay := BuildDayTable(days);
    var monthTable := BuildMonthTable(months);
    d := ScanMonthly(start, now, days, months, dayOfMonth, lastDay, secondLastDay, monthTable);
    MonthlyNextFirst(start, now, days, months);
    MonthlyFirstUnique(start, now, days, months, d, MonthlyNext(start, now, days, months));
  }
}
