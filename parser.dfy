/**
 * The rule parser of the current revision (`parseRepeat` in
 * pkg/api/nextDate.go). `Parse` states what it accepts and returns; the method
 * `ParseRepeat` does it the source's way, filling the day and month lists in
 * loops, and is proved to compute `Parse`.
 */
module Parser {
  import opened Outcomes
  import opened GoStrings
  import opened Rules

  /** The three comma-separated lists the grammar has, each with its own range check. */
  datatype ItemKind = WeekdayItem | MonthDayItem | MonthItem

  /** The error a list reports for an empty or out-of-range item. */
  function KindError(kind: ItemKind): Error {
    match kind
    case WeekdayItem => InvalidWeekdayParams
    case MonthDayItem => InvalidMonthParams
    case MonthItem => InvalidMonthParams
  }

  /** The range checks, written as the source tests them. */
  predicate InRange(kind: ItemKind, v: int) {
    match kind
    case WeekdayItem => !(v < 1 || v > 7)
    case MonthDayItem => !(v == 0 || v > 31) && !(v < 0 && v != -1 && v != -2)
    case MonthItem => !(v < 1 || v > 12)
  }

  /** One list item: trimmed, non-empty, an integer, in range. */
  function ParseItem(item: string, kind: ItemKind): (r: Result<int, Error>)
    ensures r.Ok? ==> InRange(kind, r.value)
  {
    var t := TrimSpace(item);
    if t == "" then Err(KindError(kind))
    else match Atoi(t)
      case None => Err(SyntaxError(t))
      case Some(v) => if InRange(kind, v) then Ok(v) else Err(KindError(kind))
  }

  /**
   * Item results combined the way the source's loops combine them: the
   * values of all items when every item is good, otherwise the error of the
   * first bad item.
   */
  function Collect(rs: seq<Result<int, Error>>): (r: Result<seq<int>, Error>)
    ensures r.Ok? ==> |r.value| == |rs| && forall i :: 0 <= i < |rs| ==> rs[i] == Ok(r.value[i])
  {
    if rs == [] then Ok([])
    else if rs[0].Err? then Err(rs[0].error)
    else match Collect(rs[1..])
      case Err(e) => Err(e)
      case Ok(vs) =>
        assert forall i :: 1 <= i < |rs| ==> rs[i] == rs[1..][i - 1];
        Ok([rs[0].value] + vs)
  }

  /** A combination succeeds exactly when every item does. */
  lemma {:induction false} CollectOk(rs: seq<Result<int, Error>>)
    ensures Collect(rs).Ok? <==> forall i :: 0 <= i < |rs| ==> rs[i].Ok?
  {
    if rs != [] {
      CollectOk(rs[1..]);
      if rs[0].Ok? && !Collect(rs[1..]).Ok? {
        var k :| 0 <= k < |rs[1..]| && !rs[1..][k].Ok?;
        assert rs[k + 1] == rs[1..][k];
      }
    }
  }

  /** A combination that fails reports the error of its first bad item. */
  lemma {:induction false} CollectFirstError(rs: seq<Result<int, Error>>, i: nat)
    requires i < |rs| && rs[i].Err?
    requires forall j :: 0 <= j < i ==> rs[j].Ok?
    ensures Collect(rs) == Err(rs[i].error)
  {
    if i > 0 {
      CollectFirstError(rs[1..], i - 1);
    }
  }

  /** The result of each item of a list, in order. */
  function ItemResults(items: seq<string>, kind: ItemKind): (rs: seq<Result<int, Error>>)
    ensures |rs| == |items|
  {
    if items == [] then [] else [ParseItem(items[0], kind)] + ItemResults(items[1..], kind)
  }

  lemma {:induction false} ItemResultAt(items: seq<string>, kind: ItemKind, i: nat)
    requires i < |items|
    ensures ItemResults(items, kind)[i] == ParseItem(items[i], kind)
  {
    if i > 0 {
      ItemResultAt(items[1..], kind, i - 1);
    }
  }

  /** A whole comma-separated list. */
  function ParseItems(items: seq<string>, kind: ItemKind): Result<seq<int>, Error> {
    Collect(ItemResults(items, kind))
  }

  function ParseDaily(rParams: seq<string>): Result<Parsed, Error> {
    if |rParams| != 1 then Err(InvalidDayParams)
    else match Atoi(rParams[0])
      case None => Err(SyntaxError(rParams[0]))
      case Some(n) => if n <= 0 || n > 400 then Err(InvalidDayParams) else Ok(Parsed(DAY, [n], []))
  }

  function ParseYearly(rParams: seq<string>): Result<Parsed, Error> {
    if |rParams| > 0 then Err(InvalidYearParams) else Ok(Parsed(YEAR, [], []))
  }

  function ParseWeekly(rParams: seq<string>): Result<Parsed, Error> {
    if |rParams| != 1 then Err(InvalidWeekdayParams)
    else
      var daysArr := Split(rParams[0], ',');
      if |daysArr| == 0 || |daysArr| > 7 then Err(InvalidWeekdayParams)
      else match ParseItems(daysArr, WeekdayItem)
        case Err(e) => Err(e)
        case Ok(days) => Ok(Parsed(WEEKDAY, days, []))
  }

  function ParseMonthly(rParams: seq<string>): Result<Parsed, Error> {
    if |rParams| == 0 || |rParams| > 2 then Err(InvalidMonthParams)
    else
      var daysArr := Split(rParams[0], ',');
      var monthsArr := if |rParams| == 2 then Split(rParams[1], ',') else [];
      match ParseItems(daysArr, MonthDayItem)
      case Err(e) => Err(e)
      case Ok(days) =>
        match (if |monthsArr| != 0 then ParseItems(monthsArr, MonthItem) else Ok([]))
        case Err(e) => Err(e)
        case Ok(months) => Ok(Parsed(MONTH, days, months))
  }

  /**
   * What `parseRepeat` returns for the white-space separated fields of a
   * repeat string: the first is the rule letter and the rest are its
   * parameters, checked by the rule's own grammar.
   */
  function ParseFields(params: seq<string>): Result<Parsed, Error> {
    if |params| == 0 then Err(RepeatEmpty)
    else
      var rType := params[0];
      var rParams := params[1..];
      if rType == "" || rType !in RepeatTypes then Err(InvalidRepeatType)
      else if rType == DAY then ParseDaily(rParams)
      else if rType == YEAR then ParseYearly(rParams)
      else if rType == WEEKDAY then ParseWeekly(rParams)
      else ParseMonthly(rParams)
  }

  /** What `parseRepeat` returns for a repeat string. */
  function Parse(repeat: string): Result<Parsed, Error> {
    if repeat == "" then Err(RepeatEmpty) else ParseFields(Fields(repeat))
  }

  // ---------------------------------------------------------------------
  // The source's imperative parser

  /** One `for _, item := range items` loop of `parseRepeat`, appending to a slice. */
  method ParseList(items: seq<string>, kind: ItemKind) returns (r: Result<seq<int>, Error>)
    ensures r == ParseItems(items, kind)
  {
    ghost var rs := ItemResults(items, kind);
    var vals: seq<int> := [];
    var i := 0;
    while i < |items|
      invariant 0 <= i <= |items| && |vals| == i
      invariant forall j :: 0 <= j < i ==> rs[j] == Ok(vals[j])
    {
      ItemResultAt(items, kind, i);
      var t := TrimSpace(items[i]);
      if t == "" {
        CollectFirstError(rs, i);
        return Err(KindError(kind));
      }
      var count := Atoi(t);
      if count.None? {
        CollectFirstError(rs, i);
        return Err(SyntaxError(t));
      }
      if !InRange(kind, count.value) {
        CollectFirstError(rs, i);
        return Err(KindError(kind));
      }
      vals := vals + [count.value];
      i := i + 1;
    }
    CollectOk(rs);
    assert Collect(rs).value == vals;
    return Ok(vals);
  }

  /** `parseRepeat(repeat)`. */
  method ParseRepeat(repeat: string) returns (r: Result<Parsed, Error>)
    ensures r == Parse(repeat)
  {
    if repeat == "" {
      return Err(RepeatEmpty);
    }
    var params := Fields(repeat);
    if |params| == 0 {
      return Err(RepeatEmpty);
    }
    var rType := params[0];
    var rParams := params[1..];
    if rType == "" || rType !in RepeatTypes {
      return Err(InvalidRepeatType);
    }
    var days: seq<int> := [];
    var months: seq<int> := [];
    if rType == DAY {
      if |rParams| != 1 {
        return Err(InvalidDayParams);
      }
      var n := Atoi(rParams[0]);
      if n.None? {
        return Err(SyntaxError(rParams[0]));
      }
      if n.value <= 0 || n.value > 400 {
        return Err(InvalidDayParams);
      }
      days := [n.value];
    }
    if rType == YEAR {
      if |rParams| > 0 {
        return Err(InvalidYearParams);
      }
    }
    if rType == WEEKDAY {
      if |rParams| != 1 {
        return Err(InvalidWeekdayParams);
      }
      var daysArr := Split(rParams[0], ',');
      if |daysArr| == 0 || |daysArr| > 7 {
        return Err(InvalidWeekdayParams);
      }
      var parsedDays := ParseList(daysArr, WeekdayItem);
      if parsedDays.Err? {
        return Err(parsedDays.error);
      }
      days := parsedDays.value;
    }
    if rType == MONTH {
      if |rParams| == 0 || |rParams| > 2 {
        return Err(InvalidMonthParams);
      }
      var daysArr := Split(rParams[0], ',');
      var monthsArr: seq<string> := [];
      if |rParams| == 2 {
        monthsArr := Split(rParams[1], ',');
      }
      var parsedDays := ParseList(daysArr, MonthDayItem);
      if parsedDays.Err? {
        return Err(parsedDays.error);
      }
      if |monthsArr| != 0 {
        var parsedMonths := ParseList(monthsArr, MonthItem);
        if parsedMonths.Err? {
          return Err(parsedMonths.error);
        }
        months := parsedMonths.value;
      }
      days := parsedDays.value;
    }
    return Ok(Parsed(rType, days, months));
  }
}
