/**
 * Calendar dates in the proleptic Gregorian calendar: the part of Go's `time`
 * package that the scheduler relies on (day arithmetic with `AddDate`,
 * `Weekday`, `Month`, `Day` and `After` on midnight instants).
 *
 * A date is a (year, month, day) triple; `DayNumber` counts the days since
 * 0000-01-01 and is the bridge between calendar fields and day arithmetic.
 */
module Calendar {

  datatype Date = Date(year: nat, month: nat, day: nat)

  predicate IsLeap(y: nat) {
    y % 4 == 0 && (y % 100 != 0 || y % 400 == 0)
  }

  function DaysInMonth(y: nat, m: nat): nat {
    if m == 2 then (if IsLeap(y) then 29 else 28)
    else if m == 4 || m == 6 || m == 9 || m == 11 then 30
    else 31
  }

  /** The largest day a month ever has, in any year. */
  function MaxDaysInMonth(m: nat): (n: nat)
    ensures forall y: nat :: DaysInMonth(y, m) <= n
    ensures DaysInMonth(0, m) == n
  {
    if m == 2 then 29 else DaysInMonth(0, m)
  }

  predicate Valid(d: Date) {
    1 <= d.month <= 12 && 1 <= d.day <= DaysInMonth(d.year, d.month)
  }

  function YearLength(y: nat): nat {
    if IsLeap(y) then 366 else 365
  }

  /** Days from 0000-01-01 to January 1st of year `y` (year 0 is a leap year). */
  function DaysBeforeYear(y: nat): int {
    365 * y + (y + 3) / 4 - (y + 99) / 100 + (y + 399) / 400
  }

  /** Days from January 1st of year `y` to the first day of month `m`. */
  function DaysBeforeMonth(y: nat, m: nat): nat
  {
    if m <= 1 then 0 else DaysBeforeMonth(y, m - 1) + DaysInMonth(y, m - 1)
  }

  /** Days since 0000-01-01; 0000-01-01 itself is day 0. */
  function DayNumber(d: Date): int {
    DaysBeforeYear(d.year) + DaysBeforeMonth(d.year, d.month) + d.day - 1
  }

  /** `a.After(b)` for the midnight instants of two dates. */
  predicate After(a: Date, b: Date) {
    DayNumber(a) > DayNumber(b)
  }

  /** Field-by-field (year, then month, then day) order of dates. */
  predicate LexLess(a: Date, b: Date) {
    a.year < b.year
    || (a.year == b.year && a.month < b.month)
    || (a.year == b.year && a.month == b.month && a.day < b.day)
  }

  /** The following day, with month and year roll-over. */
  function NextDay(d: Date): Date {
    if d.day < DaysInMonth(d.year, d.month) then Date(d.year, d.month, d.day + 1)
    else if d.month < 12 then Date(d.year, d.month + 1, 1)
    else Date(d.year + 1, 1, 1)
  }

  /** `d.AddDate(0, 0, n)` for n >= 0: n single-day steps. */
  function AddDays(d: Date, n: nat): Date
    decreases n
  {
    if n == 0 then d else AddDays(NextDay(d), n - 1)
  }

  /**
   * `d.AddDate(1, 0, 0)`: Go builds (year + 1, month, day) and normalises an
   * overflowing day by counting on from the first of that month.
   */
  function AddYear(d: Date): Date
    requires d.day >= 1
  {
    AddDays(Date(d.year + 1, d.month, 1), d.day - 1)
  }

  /** `d.Weekday()`: Sunday is 0, Monday 1, ..., Saturday 6. */
  function Weekday(d: Date): (w: nat)
    ensures w < 7
  {
    (DayNumber(d) + 6) % 7
  }

  // ---------------------------------------------------------------------
  // Lemmas about day numbers

  /** The rounded-up quarter grows by one exactly at multiples of 4. */
  lemma StepFour(y: nat)
    ensures (y + 4) / 4 - (y + 3) / 4 == if y % 4 == 0 then 1 else 0
  {
    var q, r := y / 4, y % 4;
    assert (y + 4) / 4 == q + 1;
    assert (y + 3) / 4 == if r == 0 then q else q + 1;
  }

  lemma StepHundred(y: nat)
    ensures (y + 100) / 100 - (y + 99) / 100 == if y % 100 == 0 then 1 else 0
  {
    var q, r := y / 100, y % 100;
    assert (y + 100) / 100 == q + 1;
    assert (y + 99) / 100 == if r == 0 then q else q + 1;
  }

  lemma StepFourHundred(y: nat)
    ensures (y + 400) / 400 - (y + 399) / 400 == if y % 400 == 0 then 1 else 0
  {
    var q, r := y / 400, y % 400;
    assert (y + 400) / 400 == q + 1;
    assert (y + 399) / 400 == if r == 0 then q else q + 1;
  }

  lemma DivisorChain(y: nat)
    ensures y % 400 == 0 ==> y % 100 == 0
    ensures y % 100 == 0 ==> y % 4 == 0
  {
    if y % 400 == 0 {
      var q := y / 400;
      assert y == 100 * (4 * q);
    }
    if y % 100 == 0 {
      var q := y / 100;
      assert y == 4 * (25 * q);
    }
  }

  lemma YearStep(y: nat)
    ensures DaysBeforeYear(y + 1) == DaysBeforeYear(y) + YearLength(y)
  {
    StepFour(y);
    StepHundred(y);
    StepFourHundred(y);
    DivisorChain(y);
  }

  lemma DaysBeforeMonthFull(y: nat)
    ensures DaysBeforeMonth(y, 13) == YearLength(y)
  {
    var feb := DaysInMonth(y, 2);
    assert DaysBeforeMonth(y, 2) == 31;
    assert DaysBeforeMonth(y, 3) == 31 + feb;
    assert DaysBeforeMonth(y, 4) == 62 + feb;
    assert DaysBeforeMonth(y, 5) == 92 + feb;
    assert DaysBeforeMonth(y, 6) == 123 + feb;
    assert DaysBeforeMonth(y, 7) == 153 + feb;
    assert DaysBeforeMonth(y, 8) == 184 + feb;
    assert DaysBeforeMonth(y, 9) == 215 + feb;
    assert DaysBeforeMonth(y, 10) == 245 + feb;
    assert DaysBeforeMonth(y, 11) == 276 + feb;
    assert DaysBeforeMonth(y, 12) == 306 + feb;
    assert DaysBeforeMonth(y, 13) == 337 + feb;
  }

  lemma {:induction false} DaysBeforeMonthMono(y: nat, m: nat, k: nat)
    requires 1 <= m <= k <= 13
    ensures DaysBeforeMonth(y, m) + 28 * (k - m) <= DaysBeforeMonth(y, k)
    decreases k - m
  {
    if m < k {
      DaysBeforeMonthMono(y, m + 1, k);
    }
  }

  lemma {:induction false} DaysBeforeYearMono(y: nat, z: nat)
    requires y <= z
    ensures DaysBeforeYear(y) + 365 * (z - y) <= DaysBeforeYear(z)
    decreases z - y
  {
    if y < z {
      YearStep(y);
      DaysBeforeYearMono(y + 1, z);
    }
  }

  /** A valid date's day number lies within its year and its month. */
  lemma DayNumberBounds(d: Date)
    requires Valid(d)
    ensures DaysBeforeYear(d.year) <= DayNumber(d) < DaysBeforeYear(d.year + 1)
    ensures DayNumber(d) - d.day + 1 + DaysInMonth(d.year, d.month)
            == DaysBeforeYear(d.year) + DaysBeforeMonth(d.year, d.month + 1)
  {
    YearStep(d.year);
    DaysBeforeMonthFull(d.year);
    DaysBeforeMonthMono(d.year, d.month + 1, 13);
  }

  lemma NextDayNumber(d: Date)
    requires Valid(d)
    ensures Valid(NextDay(d))
    ensures DayNumber(NextDay(d)) == DayNumber(d) + 1
  {
    if d.day < DaysInMonth(d.year, d.month) {
    } else if d.month < 12 {
    } else {
      YearStep(d.year);
      DaysBeforeMonthFull(d.year);
    }
  }

  lemma {:induction false} AddDaysNumber(d: Date, n: nat)
    requires Valid(d)
    ensures Valid(AddDays(d, n))
    ensures DayNumber(AddDays(d, n)) == DayNumber(d) + n
    decreases n
  {
    if n > 0 {
      NextDayNumber(d);
      AddDaysNumber(NextDay(d), n - 1);
    }
  }

  lemma {:induction false} AddDaysAdd(d: Date, m: nat, n: nat)
    ensures AddDays(AddDays(d, m), n) == AddDays(d, m + n)
    decreases m
  {
    if m > 0 {
      AddDaysAdd(NextDay(d), m - 1, n);
    }
  }

  /** A valid date of an earlier year has a smaller day number. */
  lemma YearsOrder(a: Date, b: Date)
    requires Valid(a) && Valid(b) && a.year < b.year
    ensures DayNumber(a) < DayNumber(b)
  {
    DayNumberBounds(a);
    DayNumberBounds(b);
    DaysBeforeYearMono(a.year + 1, b.year);
  }

  /** A valid date of an earlier month of the same year has a smaller day number. */
  lemma MonthsOrder(a: Date, b: Date)
    requires Valid(a) && Valid(b) && a.year == b.year && a.month < b.month
    ensures DayNumber(a) < DayNumber(b)
  {
    DayNumberBounds(a);
    DaysBeforeMonthMono(a.year, a.month + 1, b.month);
  }

  /** Day numbers order valid dates exactly as their fields do. */
  lemma DayNumberOrder(a: Date, b: Date)
    requires Valid(a) && Valid(b)
    ensures LexLess(a, b) <==> DayNumber(a) < DayNumber(b)
    ensures a == b <==> DayNumber(a) == DayNumber(b)
  {
    if a.year < b.year {
      YearsOrder(a, b);
    } else if b.year < a.year {
      YearsOrder(b, a);
    } else if a.month < b.month {
      MonthsOrder(a, b);
    } else if b.month < a.month {
      MonthsOrder(b, a);
    }
  }

  /** Two valid dates with the same day number are the same date. */
  lemma DayNumberInjective(a: Date, b: Date)
    requires Valid(a) && Valid(b)
    requires DayNumber(a) == DayNumber(b)
    ensures a == b
  {
    DayNumberOrder(a, b);
  }

  /** Within a month, adding days only moves the day field. */
  lemma {:induction false} AddDaysWithinMonth(d: Date, n: nat)
    requires Valid(d)
    requires d.day + n <= DaysInMonth(d.year, d.month)
    ensures AddDays(d, n) == Date(d.year, d.month, d.day + n)
    decreases n
  {
    if n > 0 {
      AddDaysWithinMonth(NextDay(d), n - 1);
    }
  }

  lemma WeekdayAddDays(d: Date, n: nat)
    requires Valid(d)
    ensures Weekday(AddDays(d, n)) == (Weekday(d) + n) % 7
  {
    var k := DayNumber(d) + 6;
    var e := AddDays(d, n);
    AddDaysNumber(d, n);
    assert DayNumber(e) + 6 == k + n;
    assert Weekday(d) == k % 7;
    ModSeven(k, n);
  }

  lemma ModSeven(k: int, n: nat)
    ensures (k + n) % 7 == (k % 7 + n) % 7
  {
    var q := k / 7;
    assert k == 7 * q + k % 7;
  }

  /**
   * Adding a year keeps month and day, except that February 29th becomes
   * March 1st when the following year is not a leap year.
   */
  lemma AddYearFields(d: Date)
    requires Valid(d)
    ensures Valid(AddYear(d))
    ensures AddYear(d) == if d.month == 2 && d.day == 29 && !IsLeap(d.year + 1)
                          then Date(d.year + 1, 3, 1)
                          else Date(d.year + 1, d.month, d.day)
  {
    var first := Date(d.year + 1, d.month, 1);
    if d.month == 2 && d.day == 29 && !IsLeap(d.year + 1) {
      AddDaysWithinMonth(first, 27);
      assert AddDays(first, 28) == AddDays(NextDay(first), 27);
      AddDaysAdd(first, 27, 1);
      assert AddDays(first, 27) == Date(d.year + 1, 2, 28);
      assert AddDays(Date(d.year + 1, 2, 28), 1) == Date(d.year + 1, 3, 1);
    } else {
      AddDaysWithinMonth(first, d.day - 1);
    }
  }

  /** The year always moves on by exactly one. */
  lemma AddYearNumber(d: Date)
    requires Valid(d)
    ensures AddYear(d).year == d.year + 1
    ensures DayNumber(AddYear(d)) > DayNumber(d)
  {
    AddYearFields(d);
    DayNumberOrder(d, AddYear(d));
  }
}
