/**
 * The `d N` branch of `NextDate`, the same loop in both revisions: the start
 * date is moved forward N days at a time, at least once, until it is
 * strictly after now. The current parser only lets 1..400 through; the older
 * one also lets 0 through, and then the loop ends only when the start itself
 * is after now.
 */
module DailyRule {
  import opened Calendar

  /** The k-th date of the series start, start + n, start + 2n, ... */
  function Occurrence(start: Date, n: nat, k: nat): Date {
    AddDays(start, k * n)
  }

  /**
   * The number of n-day steps the loop takes when the start lies `gap` days
   * before now: the least k >= 1 that carries it past now.
   */
  function DailySteps(gap: int, n: nat): (k: nat)
    requires n >= 1
    ensures k >= 1 && gap < k * n
    ensures k == 1 || (k - 1) * n <= gap
  {
    if gap < n then 1
    else
      var q := gap / n;
      assert gap == q * n + gap % n;
      q + 1
  }

  /** The date the daily loop stops at. */
  function DailyNext(start: Date, n: nat, now: Date): Date {
    if n == 0 then start
    else Occurrence(start, n, DailySteps(DayNumber(now) - DayNumber(start), n))
  }

  lemma MulMono(a: nat, b: nat, n: nat)
    requires a <= b
    ensures a * n <= b * n
  {
    assert b * n == a * n + (b - a) * n;
  }

  /** The step count is the only k >= 1 that passes now while its predecessor does not. */
  lemma StepsUnique(gap: int, n: nat, k: nat)
    requires n >= 1 && k >= 1 && gap < k * n
    requires k == 1 || (k - 1) * n <= gap
    ensures k == DailySteps(gap, n)
  {
    var s := DailySteps(gap, n);
    if k < s {
      MulMono(k, s - 1, n);
    } else if s < k {
      MulMono(s, k - 1, n);
    }
  }

  lemma OccurrenceNumber(start: Date, n: nat, k: nat)
    requires Valid(start)
    ensures Valid(Occurrence(start, n, k))
    ensures DayNumber(Occurrence(start, n, k)) == DayNumber(start) + k * n
  {
    AddDaysNumber(start, k * n);
  }

  /**
   * The daily result is the first date of start + n, start + 2n, ... that
   * is strictly after now; in particular it is after now and after start.
   */
  lemma DailyNextFirst(start: Date, n: nat, now: Date)
    requires Valid(start) && n >= 1
    ensures Valid(DailyNext(start, n, now))
    ensures After(DailyNext(start, n, now), now) && After(DailyNext(start, n, now), start)
    ensures forall j: nat :: 1 <= j && After(Occurrence(start, n, j), now)
              ==> DayNumber(DailyNext(start, n, now)) <= DayNumber(Occurrence(start, n, j))
  {
    var gap := DayNumber(now) - DayNumber(start);
    var k := DailySteps(gap, n);
    OccurrenceNumber(start, n, k);
    MulMono(1, k, n);
    assert DailyNext(start, n, now) == Occurrence(start, n, k);
    forall j: nat | 1 <= j && After(Occurrence(start, n, j), now)
      ensures DayNumber(DailyNext(start, n, now)) <= DayNumber(Occurrence(start, n, j))
    {
      OccurrenceLater(start, n, now, k, j);
    }
  }

  /** Moving one more step along the series. */
  lemma OccurrenceNext(start: Date, n: nat, k: nat)
    requires Valid(start)
    ensures Occurrence(start, n, k + 1) == AddDays(Occurrence(start, n, k), n)
    ensures Valid(Occurrence(start, n, k + 1))
    ensures DayNumber(Occurrence(start, n, k + 1)) == DayNumber(Occurrence(start, n, k)) + n
  {
    AddDaysAdd(start, k * n, n);
    assert k * n + n == (k + 1) * n;
    OccurrenceNumber(start, n, k);
    OccurrenceNumber(start, n, k + 1);
  }

  /** No later step of the series can pass now before the k-th one when step k - 1 did not. */
  lemma OccurrenceLater(start: Date, n: nat, now: Date, k: nat, j: nat)
    requires Valid(start) && n >= 1 && k >= 1
    requires k == 1 || (k - 1) * n <= DayNumber(now) - DayNumber(start)
    requires After(Occurrence(start, n, j), now) && 1 <= j
    ensures DayNumber(Occurrence(start, n, k)) <= DayNumber(Occurrence(start, n, j))
  {
    OccurrenceNumber(start, n, k);
    OccurrenceNumber(start, n, j);
    if j < k {
      MulMono(j, k - 1, n);
    } else {
      MulMono(k, j, n);
    }
  }

  /**
   * With N = 0 and a start that is not after now, every step of the series
   * is the start again: the daily loop never ends.
   */
  lemma DailyZeroStuck(start: Date, now: Date, k: nat)
    requires !After(start, now)
    ensures !After(Occurrence(start, 0, k), now)
  {
  }

  /** The first step count that passes now gives the reference date. */
  lemma PreviousMultiple(k: nat, n: nat)
    requires k >= 1
    ensures (k - 1) * n == k * n - n
  {
  }

  lemma DailyExit(start: Date, n: nat, now: Date, k: nat)
    requires k >= 1 && After(Occurrence(start, n, k), now)
    requires k * n <= DayNumber(now) - DayNumber(start) + n || k == 1
    requires n == 0 ==> After(start, now)
    requires DayNumber(Occurrence(start, n, k)) == DayNumber(start) + k * n
    ensures Occurrence(start, n, k) == DailyNext(start, n, now)
  {
    if n >= 1 {
      PreviousMultiple(k, n);
      StepsUnique(DayNumber(now) - DayNumber(start), n, k);
    }
  }

  /**
   * The `for` loop of the daily branch: add n days, stop once after now.
   * It ends exactly when n >= 1 or the start is already after now.
   */
  method NextDaily(start: Date, n: nat, now: Date) returns (d: Date)
    requires Valid(start) && (n >= 1 || After(start, now))
    ensures d == DailyNext(start, n, now)
  {
    ghost var gap := DayNumber(now) - DayNumber(start);
    ghost var k: nat := 0;
    ghost var passed: int := 0;
    d := start;
    while true
      invariant d == Occurrence(start, n, k) && Valid(d)
      invariant passed == k * n && DayNumber(d) == DayNumber(start) + passed
      invariant k >= 1 ==> passed <= gap
      invariant n == 0 ==> d == start
      decreases DayNumber(now) - DayNumber(d)
    {
      OccurrenceNext(start, n, k);
      d := AddDays(d, n);
      k := k + 1;
      passed := passed + n;
      if After(d, now) {
        break;
      }
    }
    DailyExit(start, n, now, k);
  }
}
