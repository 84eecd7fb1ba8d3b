/**
 * `parseRepeat` of the older revision (pkg/api/nextdate.go). It splits the
 * rule on single spaces instead of white-space runs, reads list items
 * without trimming them, lets `d 0` through, reads only the first weekly
 * parameter, checks monthly days only against -31..31, and reads a second
 * monthly parameter that may not exist, which is a Go index-out-of-range
 * panic.
 */
module LegacyParser {
  import opened Outcomes
  import opened GoStrings
  import opened Rules
  import opened Parser

  /** What a call of the older revision does: return normally, or panic. */
  datatype Outcome<+T> = Returned(result: Result<T, Error>) | Panicked

  /** The three lists of the older grammar, each with its own range check. */
  datatype LegacyKind = WeekdayList | MonthDayList | MonthList

  function LegacyKindError(kind: LegacyKind): Error {
    match kind
    case WeekdayList => InvalidWeekdayParams
    case MonthDayList => InvalidMonthParams
    case MonthList => InvalidMonthParams
  }

  /** The range checks, written as the older revision tests them. */
  predicate LegacyInRange(kind: LegacyKind, v: int) {
    match kind
    case WeekdayList => !(v < 1 || v > 7)
    case MonthDayList => !(v < -31 || v > 31)
    case MonthList => !(v < 1 || v > 12)
  }

  /** One list item, untrimmed: an integer, in range. */
  function LegacyItem(item: string, kind: LegacyKind): (r: Result<int, Error>)
    ensures r.Ok? ==> LegacyInRange(kind, r.value)
  {
    match Atoi(item)
    case None => Err(SyntaxError(item))
    case Some(v) => if LegacyInRange(kind, v) then Ok(v) else Err(LegacyKindError(kind))
  }

  function LegacyItemResults(items: seq<string>, kind: LegacyKind): (rs: seq<Result<int, Error>>)
    ensures |rs| == |items|
  {
    if items == [] then [] else [LegacyItem(items[0], kind)] + LegacyItemResults(items[1..], kind)
  }

  lemma {:induction false} LegacyItemResultAt(items: seq<string>, kind: LegacyKind, i: nat)
    requires i < |items|
    ensures LegacyItemResults(items, kind)[i] == LegacyItem(items[i], kind)
  {
    if i > 0 {
      LegacyItemResultAt(items[1..], kind, i - 1);
    }
  }

  /** A whole comma-separated list: all values, or the first item's error. */
  function LegacyItems(items: seq<string>, kind: LegacyKind): Result<seq<int>, Error> {
    Collect(LegacyItemResults(items, kind))
  }

  function LegacyDaily(rParams: seq<string>): Result<Parsed, Error> {
    if |rParams| == 0 || |rParams| > 1 then Err(InvalidDayParams)
    else match Atoi(rParams[0])
      case None => Err(SyntaxError(rParams[0]))
      case Some(n) => if n < 0 || n > 400 then Err(InvalidDayParams) else Ok(Parsed(DAY, [n], []))
  }

  function LegacyWeekly(rParams: seq<string>): Result<Parsed, Error> {
    if |rParams| == 0 then Err(InvalidWeekdayParams)
    else
      var daysArr := Split(rParams[0], ',');
      if |daysArr| == 0 || |daysArr| > 7 then Err(InvalidWeekdayParams)
      else match LegacyItems(daysArr, WeekdayList)
        case Err(e) => Err(e)
        case Ok(days) => Ok(Parsed(WEEKDAY, days, []))
  }

  function LegacyMonthly(rParams: seq<string>): Outcome<Parsed> {
    if |rParams| == 0 || |rParams| > 2 then Returned(Err(InvalidMonthParams))
    else if |rParams| == 1 then Panicked
    else
      match LegacyItems(Split(rParams[0], ','), MonthDayList)
      case Err(e) => Returned(Err(e))
      case Ok(days) =>
        match LegacyItems(Split(rParams[1], ','), MonthList)
        case Err(e) => Returned(Err(e))
        case Ok(months) => Returned(Ok(Parsed(MONTH, days, months)))
  }

  /** What the older `parseRepeat` does with a repeat string. */
  function LegacyParse(repeat: string): Outcome<Parsed> {
    if repeat == "" then Returned(Err(RepeatEmpty))
    else
      var params := Split(repeat, ' ');
      var rType := params[0];
      var rParams := params[1..];
      if rType == "" || rType !in RepeatTypes then Returned(Err(InvalidRepeatType))
      else if rType == DAY then Returned(LegacyDaily(rParams))
      else if rType == YEAR then
        Returned(if |rParams| > 0 then Err(InvalidYearParams) else Ok(Parsed(YEAR, [], [])))
      else if rType == WEEKDAY then Returned(LegacyWeekly(rParams))
      else LegacyMonthly(rParams)
  }

  // ---------------------------------------------------------------------
  // The source's imperative parser

  /** One `for _, item := range items` loop of the older `parseRepeat`. */
  method LegacyParseList(items: seq<string>, kind: LegacyKind) returns (r: Result<seq<int>, Error>)
    ensures r == LegacyItems(items, kind)
  {
    ghost var rs := LegacyItemResults(items, kind);
    var vals: seq<int> := [];
    var i := 0;
    while i < |items|
      invariant 0 <= i <= |items| && |vals| == i
      invariant forall j :: 0 <= j < i ==> rs[j] == Ok(vals[j])
    {
      LegacyItemResultAt(items, kind, i);
      var count := Atoi(items[i]);
      if count.None? {
        CollectFirstError(rs, i);
        return Err(SyntaxError(items[i]));
      }
      if !LegacyInRange(kind, count.value) {
        CollectFirstError(rs, i);
        return Err(LegacyKindError(kind));
      }
      vals := vals + [count.value];
      i := i + 1;
    }
    CollectOk(rs);
    assert Collect(rs).value == vals;
    return Ok(vals);
  }

  /** The older `parseRepeat(repeat)`. */
  method LegacyParseRepeat(repeat: string) returns (r: Outcome<Parsed>)
    ensures r == LegacyParse(repeat)
  {
    if repeat == "" {
      return Returned(Err(RepeatEmpty));
    }
    var params := Split(repeat, ' ');
    var rType := params[0];
    var rParams := params[1..];
    if rType == "" || rType !in RepeatTypes {
      return Returned(Err(InvalidRepeatType));
    }
    var days: seq<int> := [];
    var months: seq<int> := [];
    if rType == DAY {
      if |rParams| == 0 || |rParams| > 1 {
        return Returned(Err(InvalidDayParams));
      }
      var n := Atoi(rParams[0]);
      if n.None? {
        return Returned(Err(SyntaxError(rParams[0])));
      }
      if n.value < 0 || n.value > 400 {
        return Returned(Err(InvalidDayParams));
      }
      days := [n.value];
    }
    if rType == YEAR {
      if |rParams| > 0 {
        return Returned(Err(InvalidYearParams));
      }
    }
    if rType == WEEKDAY {
      if |rParams| == 0 {
        return Returned(Err(InvalidWeekdayParams));
      }
      var daysArr := Split(rParams[0], ',');
      if |daysArr| == 0 || |daysArr| > 7 {
        return Returned(Err(InvalidWeekdayParams));
      }
      var parsedDays := LegacyParseList(daysArr, WeekdayList);
      if parsedDays.Err? {
        return Returned(Err(parsedDays.error));
      }
      days := parsedDays.value;
    }
    if rType == MONTH {
      if |rParams| == 0 || |rParams| > 2 {
        return Returned(Err(InvalidMonthParams));
      }
      if |rParams| == 1 {
        // `rParams[1]` is out of range
        return Panicked;
      }
      var daysArr := Split(rParams[0], ',');
      var monthsArr := Split(rParams[1], ',');
      var parsedDays := LegacyParseList(daysArr, MonthDayList);
      if parsedDays.Err? {
        return Returned(Err(parsedDays.error));
      }
      var parsedMonths := LegacyParseList(monthsArr, MonthList);
      if parsedMonths.Err? {
        return Returned(Err(parsedMonths.error));
      }
      days, months := parsedDays.value, parsedMonths.value;
    }
    return Returned(Ok(Parsed(rType, days, months)));
  }
}
