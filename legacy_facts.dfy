/**
 * What the older `parseRepeat` accepts, where it panics, and rules on which
 * the two revisions' parsers disagree.
 */
module LegacyFacts {
  import opened Outcomes
  import opened GoStrings
  import opened Rules
  import opened Parser
  import opened ParserFacts
  import opened LegacyParser

  /** The invariants of a rule that the older `parseRepeat` accepted. */
  predicate LegacyWellFormed(p: Parsed) {
    if p.rType == DAY then
      |p.days| == 1 && 0 <= p.days[0] <= 400 && p.months == []
    else if p.rType == YEAR then
      p.days == [] && p.months == []
    else if p.rType == WEEKDAY then
      1 <= |p.days| <= 7 && p.months == []
      && forall i :: 0 <= i < |p.days| ==> 1 <= p.days[i] <= 7
    else
      p.rType == MONTH && |p.days| >= 1 && |p.months| >= 1
      && (forall i :: 0 <= i < |p.days| ==> -31 <= p.days[i] <= 31)
      && (forall i :: 0 <= i < |p.months| ==> 1 <= p.months[i] <= 12)
  }

  /** A list that parses has one in-range value per item. */
  lemma LegacyItemsInRange(items: seq<string>, kind: LegacyKind)
    requires LegacyItems(items, kind).Ok?
    ensures |LegacyItems(items, kind).value| == |items|
    ensures forall i :: 0 <= i < |items| ==> LegacyInRange(kind, LegacyItems(items, kind).value[i])
  {
    forall i | 0 <= i < |items| ensures LegacyInRange(kind, LegacyItems(items, kind).value[i]) {
      LegacyItemResultAt(items, kind, i);
    }
  }

  /** A failing list reports its own range error or the item Atoi could not read. */
  lemma LegacyItemErrors(items: seq<string>, kind: LegacyKind)
    ensures LegacyItems(items, kind).Err?
            ==> LegacyItems(items, kind).error == LegacyKindError(kind) || LegacyItems(items, kind).error.SyntaxError?
  {
    if LegacyItems(items, kind).Err? {
      var rs := LegacyItemResults(items, kind);
      CollectOk(rs);
      var i :| 0 <= i < |rs| && !rs[i].Ok?;
      var k := FirstErrorIndex(rs, i);
      CollectFirstError(rs, k);
      LegacyItemResultAt(items, kind, k);
    }
  }

  /** The older parser never reports a date error. */
  lemma LegacyParseErrors(repeat: string)
    ensures LegacyParse(repeat).Returned? && LegacyParse(repeat).result.Err?
            ==> LegacyParse(repeat).result.error != InvalidDate
  {
    if repeat != "" {
      var params := Split(repeat, ' ');
      var rParams := params[1..];
      if params[0] == WEEKDAY && |rParams| > 0 {
        LegacyItemErrors(Split(rParams[0], ','), WeekdayList);
      } else if params[0] == MONTH && |rParams| == 2 {
        LegacyItemErrors(Split(rParams[0], ','), MonthDayList);
        LegacyItemErrors(Split(rParams[1], ','), MonthList);
      }
    }
  }

  /** Every rule the older parser returns satisfies the older rule invariants. */
  lemma LegacyParseWellFormed(repeat: string)
    requires LegacyParse(repeat).Returned? && LegacyParse(repeat).result.Ok?
    ensures LegacyWellFormed(LegacyParse(repeat).result.value)
  {
    var params := Split(repeat, ' ');
    var rParams := params[1..];
    if params[0] == WEEKDAY {
      LegacyItemsInRange(Split(rParams[0], ','), WeekdayList);
    } else if params[0] == MONTH {
      LegacyItemsInRange(Split(rParams[0], ','), MonthDayList);
      LegacyItemsInRange(Split(rParams[1], ','), MonthList);
    }
  }

  /** The older parser panics exactly on a monthly rule with one parameter. */
  lemma LegacyPanicsExactly(repeat: string)
    ensures LegacyParse(repeat) == Panicked
            <==> |Split(repeat, ' ')| == 2 && Split(repeat, ' ')[0] == MONTH
  {
  }

  /** A daily rule is accepted exactly for `d N` with 0 <= N <= 400, split on single spaces. */
  lemma LegacyDailyExactly(repeat: string, n: int)
    ensures LegacyParse(repeat) == Returned(Ok(Parsed(DAY, [n], [])))
            <==> |Split(repeat, ' ')| == 2 && Split(repeat, ' ')[0] == DAY
                 && Atoi(Split(repeat, ' ')[1]) == Some(n) && 0 <= n <= 400
  {
  }

  /**
   * A weekly rule is accepted exactly when the first parameter lists at
   * most seven weekdays 1..7; any further parameters are ignored.
   */
  lemma LegacyWeeklyExactly(repeat: string, days: seq<int>)
    ensures LegacyParse(repeat) == Returned(Ok(Parsed(WEEKDAY, days, [])))
            <==> |Split(repeat, ' ')| >= 2 && Split(repeat, ' ')[0] == WEEKDAY
                 && |Split(Split(repeat, ' ')[1], ',')| <= 7
                 && LegacyItems(Split(Split(repeat, ' ')[1], ','), WeekdayList) == Ok(days)
  {
  }

  // ---------------------------------------------------------------------
  // Where the revisions disagree

  /** Splitting two separator-free pieces joined by the separator. */
  lemma SplitTwo(a: string, b: string, sep: char)
    requires sep !in a && sep !in b
    ensures Split(a + [sep] + b, sep) == [a, b]
  {
    SplitAfterPiece(a, b, sep);
    SplitOfPiece(b, sep);
  }

  /** `d 0` passes the older parser only. */
  lemma DailyZeroContrast()
    ensures LegacyParse("d 0") == Returned(Ok(Parsed(DAY, [0], [])))
    ensures Parse("d 0") == Err(InvalidDayParams)
  {
    assert "d 0" == "d" + [' '] + "0" == "d" + " " + "0";
    SplitTwo("d", "0", ' ');
    LegacyDailyExactly("d 0", 0);
    FieldsOfTwo("d", "0");
  }

  /** A word without white space has no single space in it. */
  lemma NoSpaceNoBlank(w: string)
    requires NoSpace(w)
    ensures ' ' !in w
  {
  }

  /** The older parser sees an empty third parameter after a trailing space. */
  lemma LegacyTrailingSpace(n: int)
    ensures LegacyParse("d " + Itoa(n) + " ") == Returned(Err(InvalidDayParams))
  {
    var t := Itoa(n);
    ItoaWord(n);
    NoSpaceNoBlank(t);
    var rest := t + [' '] + "";
    assert "d " + t + " " == "d" + [' '] + rest;
    SplitAfterPiece("d", rest, ' ');
    SplitTwo(t, "", ' ');
    assert Split("d " + t + " ", ' ') == ["d", t, ""];
  }

  /** The current parser ignores a trailing space. */
  lemma CurrentTrailingSpace(n: int)
    requires 1 <= n <= 400
    ensures Parse("d " + Itoa(n) + " ") == Ok(Parsed(DAY, [n], []))
  {
    var t := Itoa(n);
    ItoaWord(n);
    var rest := t + " " + "";
    assert "d " + t + " " == "d" + " " + rest;
    FieldsAfterWord(t, "");
    FieldsAfterWord("d", rest);
    assert Fields("d " + t + " ") == ["d", t];
    AtoiItoa(n);
    ParseDailyExactly(["d", t], n);
  }

  /** A trailing space leaves an empty parameter in the older parser only. */
  lemma TrailingSpaceContrast(n: int)
    requires 1 <= n <= 400
    ensures LegacyParse("d " + Itoa(n) + " ") == Returned(Err(InvalidDayParams))
    ensures Parse("d " + Itoa(n) + " ") == Ok(Parsed(DAY, [n], []))
  {
    LegacyTrailingSpace(n);
    CurrentTrailingSpace(n);
  }

  /** A doubled space gives the older parser an empty weekly list item, which Atoi rejects. */
  lemma LegacyDoubleSpace(w: int)
    ensures LegacyParse("w  " + Itoa(w)) == Returned(Err(SyntaxError("")))
  {
    var t := Itoa(w);
    ItoaWord(w);
    NoSpaceNoBlank(t);
    var rest := "" + [' '] + t;
    assert "w  " + t == "w" + [' '] + rest;
    SplitAfterPiece("w", rest, ' ');
    SplitTwo("", t, ' ');
    assert Split("w  " + t, ' ') == ["w", "", t];
    assert Split("", ',') == [""];
    assert LegacyItemResults([""], WeekdayList) == [Err(SyntaxError(""))];
  }

  /** The current parser reads a doubled space as one separator. */
  lemma CurrentDoubleSpace(w: int)
    requires 1 <= w <= 7
    ensures Parse("w  " + Itoa(w)) == Ok(Parsed(WEEKDAY, [w], []))
  {
    var t := Itoa(w);
    ItoaWord(w);
    var p := Parsed(WEEKDAY, [w], []);
    assert Render(p) == "w " + t;
    ParseRender(p);
    var rest := " " + t;
    assert "w  " + t == "w" + " " + rest;
    assert "w " + t == "w" + " " + t;
    FieldsAfterWord("w", rest);
    FieldsAfterWord("w", t);
    assert Fields(rest) == Fields(t);
  }

  /** The older parser reads only the first weekly parameter. */
  lemma LegacyExtraWeekday(w: int, extra: string)
    requires 1 <= w <= 7 && NoSpace(extra)
    ensures LegacyParse("w " + Itoa(w) + " " + extra) == Returned(Ok(Parsed(WEEKDAY, [w], [])))
  {
    var t := Itoa(w);
    ItoaWord(w);
    NoSpaceNoBlank(t);
    NoSpaceNoBlank(extra);
    var s := "w " + t + " " + extra;
    assert s == "w" + [' '] + (t + [' '] + extra);
    SplitAfterPiece("w", t + " " + extra, ' ');
    SplitTwo(t, extra, ' ');
    SplitOfPiece(t, ',');
    AtoiItoa(w);
    var rs := LegacyItemResults([t], WeekdayList);
    assert rs == [Ok(w)];
    CollectOk(rs);
    assert Collect(rs).value == [w];
    LegacyWeeklyExactly(s, [w]);
  }

  /** The current parser rejects a second weekly parameter. */
  lemma CurrentExtraWeekday(w: int, extra: string)
    requires 1 <= w <= 7 && extra != [] && NoSpace(extra)
    ensures Parse("w " + Itoa(w) + " " + extra) == Err(InvalidWeekdayParams)
  {
    var t := Itoa(w);
    ItoaWord(w);
    FieldsOfThree("w", t, extra);
    assert "w " + t + " " + extra == "w" + " " + t + " " + extra;
  }

  /** A second weekly parameter is ignored by the older parser and rejected by the current one. */
  lemma ExtraWeekdayContrast(w: int, extra: string)
    requires 1 <= w <= 7 && extra != [] && NoSpace(extra)
    ensures LegacyParse("w " + Itoa(w) + " " + extra) == Returned(Ok(Parsed(WEEKDAY, [w], [])))
    ensures Parse("w " + Itoa(w) + " " + extra) == Err(InvalidWeekdayParams)
  {
    LegacyExtraWeekday(w, extra);
    CurrentExtraWeekday(w, extra);
  }

  /** `m D` panics in the older parser and is day D of every month in the current one. */
  lemma MonthOneParamContrast(d: int)
    requires 1 <= d <= 31
    ensures LegacyParse("m " + Itoa(d)) == Panicked
    ensures Parse("m " + Itoa(d)) == Ok(Parsed(MONTH, [d], []))
  {
    var t := Itoa(d);
    ItoaWord(d);
    NoSpaceNoBlank(t);
    assert "m " + t == "m" + [' '] + t;
    SplitTwo("m", t, ' ');
    LegacyPanicsExactly("m " + t);
    var p := Parsed(MONTH, [d], []);
    assert Render(p) == "m " + t;
    ParseRender(p);
  }

  // ---------------------------------------------------------------------
  // Rules written by the current grammar, read by the older parser

  /** The texts of in-range integers parse back to the integers, without trimming. */
  lemma {:induction false} LegacyIntTexts(vs: seq<int>, kind: LegacyKind)
    requires forall i :: 0 <= i < |vs| ==> LegacyInRange(kind, vs[i])
    ensures LegacyItems(IntTexts(vs), kind) == Ok(vs)
    decreases |vs|
  {
    if vs != [] {
      var ts := IntTexts(vs);
      var rs := LegacyItemResults(ts, kind);
      LegacyIntTexts(vs[1..], kind);
      AtoiItoa(vs[0]);
      assert ts[0] == Itoa(vs[0]) && ts[1..] == IntTexts(vs[1..]);
      assert rs[0] == Ok(vs[0]);
      assert rs[1..] == LegacyItemResults(IntTexts(vs[1..]), kind);
      assert Collect(rs[1..]) == Ok(vs[1..]);
      assert [vs[0]] + vs[1..] == vs;
    }
  }

  lemma LegacyReadsDaily(p: Parsed)
    requires WellFormed(p) && p.rType == DAY
    ensures LegacyParse(Render(p)) == Returned(Ok(p))
  {
    var t := Itoa(p.days[0]);
    ItoaWord(p.days[0]);
    NoSpaceNoBlank(t);
    assert Render(p) == "d" + [' '] + t;
    SplitTwo("d", t, ' ');
    AtoiItoa(p.days[0]);
    LegacyDailyExactly(Render(p), p.days[0]);
    assert p == Parsed(DAY, [p.days[0]], []);
  }

  lemma LegacyReadsWeekly(p: Parsed)
    requires WellFormed(p) && p.rType == WEEKDAY
    ensures LegacyParse(Render(p)) == Returned(Ok(p))
  {
    var list := CommaList(p.days);
    CommaListWord(p.days);
    NoSpaceNoBlank(list);
    assert Render(p) == "w" + [' '] + list;
    SplitTwo("w", list, ' ');
    SplitCommaList(p.days);
    LegacyIntTexts(p.days, WeekdayList);
    LegacyWeeklyExactly(Render(p), p.days);
  }

  lemma LegacyReadsMonthDays(p: Parsed)
    requires WellFormed(p) && p.rType == MONTH && p.months == []
    ensures LegacyParse(Render(p)) == Panicked
  {
    var list := CommaList(p.days);
    CommaListWord(p.days);
    NoSpaceNoBlank(list);
    assert Render(p) == "m" + [' '] + list;
    SplitTwo("m", list, ' ');
    LegacyPanicsExactly(Render(p));
  }

  /** A monthly rule with a day list and a month list that both parse. */
  lemma LegacyMonthlyRead(repeat: string, a: string, b: string, days: seq<int>, months: seq<int>)
    requires repeat != [] && Split(repeat, ' ') == [MONTH, a, b]
    requires LegacyItems(Split(a, ','), MonthDayList) == Ok(days)
    requires LegacyItems(Split(b, ','), MonthList) == Ok(months)
    ensures LegacyParse(repeat) == Returned(Ok(Parsed(MONTH, days, months)))
  {
    var rParams := Split(repeat, ' ')[1..];
    assert rParams == [a, b];
    assert LegacyMonthly(rParams) == Returned(Ok(Parsed(MONTH, days, months)));
  }

  /** Splitting `m DAYS MONTHS` on single spaces. */
  lemma SplitMonthly(days: string, months: string)
    requires days != [] && NoSpace(days) && months != [] && NoSpace(months)
    ensures Split("m " + days + " " + months, ' ') == [MONTH, days, months]
  {
    NoSpaceNoBlank(days);
    NoSpaceNoBlank(months);
    var rest := days + [' '] + months;
    assert "m " + days + " " + months == "m" + [' '] + rest;
    SplitAfterPiece("m", rest, ' ');
    SplitTwo(days, months, ' ');
  }

  lemma LegacyReadsMonthDaysMonths(p: Parsed)
    requires WellFormed(p) && p.rType == MONTH && p.months != []
    ensures LegacyParse(Render(p)) == Returned(Ok(p))
  {
    var days := CommaList(p.days);
    var months := CommaList(p.months);
    CommaListWord(p.days);
    CommaListWord(p.months);
    SplitMonthly(days, months);
    SplitCommaList(p.days);
    SplitCommaList(p.months);
    LegacyIntTexts(p.days, MonthDayList);
    LegacyIntTexts(p.months, MonthList);
    LegacyMonthlyRead(Render(p), days, months, p.days, p.months);
  }

  /**
   * The older parser reads every rule the current grammar writes as the
   * same rule, except a monthly rule without a month list, on which it
   * panics.
   */
  lemma LegacyReadsRender(p: Parsed)
    requires WellFormed(p)
    ensures LegacyParse(Render(p))
            == if p.rType == MONTH && p.months == [] then Panicked else Returned(Ok(p))
  {
    if p.rType == DAY {
      LegacyReadsDaily(p);
    } else if p.rType == YEAR {
      SplitOfPiece("y", ' ');
    } else if p.rType == WEEKDAY {
      LegacyReadsWeekly(p);
    } else if p.months == [] {
      LegacyReadsMonthDays(p);
    } else {
      LegacyReadsMonthDaysMonths(p);
    }
  }
}
