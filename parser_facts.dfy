/**
 * What the current revision's `parseRepeat` guarantees: the shape of every
 * rule it accepts, the inputs it rejects, and that a rule written back in
 * the recurrence mini-language parses to itself.
 */
module ParserFacts {
  import opened Outcomes
  import opened GoStrings
  import opened Rules
  import opened Parser

  /** The invariants of a rule that `parseRepeat` accepted. */
  predicate WellFormed(p: Parsed) {
    if p.rType == DAY then
      |p.days| == 1 && 1 <= p.days[0] <= 400 && p.months == []
    else if p.rType == YEAR then
      p.days == [] && p.months == []
    else if p.rType == WEEKDAY then
      1 <= |p.days| <= 7 && p.months == []
      && forall i :: 0 <= i < |p.days| ==> 1 <= p.days[i] <= 7
    else
      p.rType == MONTH && |p.days| >= 1
      && (forall i :: 0 <= i < |p.days| ==> 1 <= p.days[i] <= 31 || p.days[i] == -1 || p.days[i] == -2)
      && (forall i :: 0 <= i < |p.months| ==> 1 <= p.months[i] <= 12)
  }

  /** A list that parses has one in-range value per item. */
  lemma ParseItemsInRange(items: seq<string>, kind: ItemKind)
    requires ParseItems(items, kind).Ok?
    ensures |ParseItems(items, kind).value| == |items|
    ensures forall i :: 0 <= i < |items| ==> InRange(kind, ParseItems(items, kind).value[i])
  {
    forall i | 0 <= i < |items| ensures InRange(kind, ParseItems(items, kind).value[i]) {
      ItemResultAt(items, kind, i);
    }
  }

  lemma ParseWeeklyWellFormed(rParams: seq<string>)
    requires ParseWeekly(rParams).Ok?
    ensures WellFormed(ParseWeekly(rParams).value)
  {
    ParseItemsInRange(Split(rParams[0], ','), WeekdayItem);
  }

  lemma ParseMonthlyWellFormed(rParams: seq<string>)
    requires ParseMonthly(rParams).Ok?
    ensures WellFormed(ParseMonthly(rParams).value)
  {
    ParseItemsInRange(Split(rParams[0], ','), MonthDayItem);
    if |rParams| == 2 {
      ParseItemsInRange(Split(rParams[1], ','), MonthItem);
    }
  }

  lemma ParseFieldsWellFormed(params: seq<string>)
    requires ParseFields(params).Ok?
    ensures WellFormed(ParseFields(params).value)
  {
    var rParams := params[1..];
    if params[0] == WEEKDAY {
      assert ParseFields(params) == ParseWeekly(rParams);
      ParseWeeklyWellFormed(rParams);
    } else if params[0] == MONTH {
      assert ParseFields(params) == ParseMonthly(rParams);
      ParseMonthlyWellFormed(rParams);
    }
  }

  lemma ParseWellFormed(repeat: string)
    requires Parse(repeat).Ok?
    ensures WellFormed(Parse(repeat).value)
  {
    ParseFieldsWellFormed(Fields(repeat));
  }

  /** A failing list reports its own range error or the item Atoi could not read. */
  lemma ItemErrorsAreSpecific(items: seq<string>, kind: ItemKind)
    ensures ParseItems(items, kind).Err?
            ==> ParseItems(items, kind).error == KindError(kind) || ParseItems(items, kind).error.SyntaxError?
  {
    if ParseItems(items, kind).Err? {
      var rs := ItemResults(items, kind);
      CollectOk(rs);
      var i :| 0 <= i < |rs| && !rs[i].Ok?;
      var k := FirstErrorIndex(rs, i);
      CollectFirstError(rs, k);
      ItemResultAt(items, kind, k);
      ItemErrorIsSpecific(items[k], kind);
      assert ParseItems(items, kind) == Err(rs[k].error);
    }
  }

  lemma ItemErrorIsSpecific(item: string, kind: ItemKind)
    ensures ParseItem(item, kind).Err?
            ==> ParseItem(item, kind).error == KindError(kind) || ParseItem(item, kind).error.SyntaxError?
  {
  }

  /** The position of the first failed result, at or before a known failure. */
  lemma FirstErrorIndex(rs: seq<Result<int, Error>>, i: nat) returns (k: nat)
    requires i < |rs| && rs[i].Err?
    ensures k <= i && rs[k].Err? && forall j :: 0 <= j < k ==> rs[j].Ok?
  {
    k := i;
    while exists j :: 0 <= j < k && rs[j].Err?
      invariant k <= i && rs[k].Err?
      decreases k
    {
      var j :| 0 <= j < k && rs[j].Err?;
      k := j;
    }
  }

  /** "repeat is empty" is reported exactly when there are no fields. */
  lemma ParseFieldsEmpty(params: seq<string>)
    ensures ParseFields(params) == Err(RepeatEmpty) <==> params == []
  {
    if params != [] {
      var rParams := params[1..];
      if params[0] == MONTH && 1 <= |rParams| <= 2 {
        ItemErrorsAreSpecific(Split(rParams[0], ','), MonthDayItem);
        if |rParams| == 2 {
          ItemErrorsAreSpecific(Split(rParams[1], ','), MonthItem);
        }
      } else if params[0] == WEEKDAY && |rParams| == 1 {
        ItemErrorsAreSpecific(Split(rParams[0], ','), WeekdayItem);
      }
    }
  }

  /** An empty or all-white-space repeat string, and only that, is "repeat is empty". */
  lemma ParseBlank(repeat: string)
    ensures Parse(repeat) == Err(RepeatEmpty) <==> AllSpace(repeat)
  {
    FieldsEmpty(repeat);
    ParseFieldsEmpty(Fields(repeat));
  }

  /** A first field that is not one of `w`, `d`, `m`, `y` is "invalid repeat type". */
  lemma ParseUnknownType(repeat: string)
    requires Fields(repeat) != [] && Fields(repeat)[0] !in RepeatTypes
    ensures Parse(repeat) == Err(InvalidRepeatType)
  {
    FieldsEmpty(repeat);
  }

  /** A daily rule is accepted exactly for the fields `d N` with 1 <= N <= 400. */
  lemma ParseDailyExactly(params: seq<string>, n: int)
    ensures ParseFields(params) == Ok(Parsed(DAY, [n], []))
            <==> |params| == 2 && params[0] == DAY && Atoi(params[1]) == Some(n) && 1 <= n <= 400
  {
  }

  /** A yearly rule is accepted exactly for the single field `y`. */
  lemma ParseYearlyExactly(params: seq<string>)
    ensures ParseFields(params) == Ok(Parsed(YEAR, [], [])) <==> params == [YEAR]
  {
    if params == [YEAR] {
      assert params[1..] == [];
    }
  }

  /**
   * A weekly rule is accepted exactly for the fields `w LIST` where LIST
   * has at most seven comma-separated items, each a weekday 1..7.
   */
  lemma ParseWeeklyExactly(params: seq<string>, days: seq<int>)
    ensures ParseFields(params) == Ok(Parsed(WEEKDAY, days, []))
            <==> |params| == 2 && params[0] == WEEKDAY && |Split(params[1], ',')| <= 7
                 && ParseItems(Split(params[1], ','), WeekdayItem) == Ok(days)
  {
  }

  /**
   * A monthly rule is accepted exactly for `m DAYS` or `m DAYS MONTHS`
   * whose lists parse; without the month list the rule has no months.
   */
  lemma ParseMonthlyExactly(params: seq<string>, days: seq<int>, months: seq<int>)
    ensures ParseFields(params) == Ok(Parsed(MONTH, days, months))
            <==> (|params| == 2 || |params| == 3) && params[0] == MONTH
                 && ParseItems(Split(params[1], ','), MonthDayItem) == Ok(days)
                 && (if |params| == 3 then ParseItems(Split(params[2], ','), MonthItem) == Ok(months)
                     else months == [])
  {
  }

  // ---------------------------------------------------------------------
  // Writing a rule back as text

  /** The decimal texts of a list of integers. */
  function IntTexts(vs: seq<int>): (ts: seq<string>)
    ensures |ts| == |vs|
  {
    if vs == [] then [] else [Itoa(vs[0])] + IntTexts(vs[1..])
  }

  /** A non-empty list of integers with commas between them, as the grammar writes it. */
  function CommaList(vs: seq<int>): string
    requires |vs| >= 1
  {
    Join(IntTexts(vs), ',')
  }

  /** A well-formed rule written in the recurrence mini-language. */
  function Render(p: Parsed): string
    requires WellFormed(p)
  {
    if p.rType == DAY then "d " + Itoa(p.days[0])
    else if p.rType == YEAR then "y"
    else if p.rType == WEEKDAY then "w " + CommaList(p.days)
    else if p.months == [] then "m " + CommaList(p.days)
    else "m " + CommaList(p.days) + " " + CommaList(p.months)
  }

  lemma ItoaWord(n: int)
    ensures Itoa(n) != [] && NoSpace(Itoa(n)) && ',' !in Itoa(n)
  {
    var ds := if n < 0 then Digits(-n) else Digits(n);
    assert AllDigits(ds);
    if n < 0 {
      assert forall i :: 1 <= i < |Itoa(n)| ==> Itoa(n)[i] == ds[i - 1];
    }
  }

  lemma {:induction false} CommaListWord(vs: seq<int>)
    requires |vs| >= 1
    ensures CommaList(vs) != [] && NoSpace(CommaList(vs))
    decreases |vs|
  {
    ItoaWord(vs[0]);
    if |vs| > 1 {
      CommaListWord(vs[1..]);
      assert IntTexts(vs)[1..] == IntTexts(vs[1..]);
      var a, b := Itoa(vs[0]), CommaList(vs[1..]);
      assert CommaList(vs) == a + [','] + b;
      forall i | 0 <= i < |a + [','] + b| ensures !IsSpace((a + [','] + b)[i]) {
        if i < |a| {
          assert (a + [','] + b)[i] == a[i];
        } else if i > |a| {
          assert (a + [','] + b)[i] == b[i - |a| - 1];
        }
      }
    }
  }

  /** A word followed by a space and more text: the word is the first field. */
  lemma FieldsAfterWord(w: string, rest: string)
    requires w != [] && NoSpace(w)
    ensures Fields(w + " " + rest) == [w] + Fields(rest)
  {
    var s := w + " " + rest;
    WordLengthOfWord(w, " " + rest);
    assert s == w + (" " + rest);
    assert s[..|w|] == w;
    assert s[|w|..][1..] == rest;
  }

  lemma FieldsOfWord(w: string)
    requires w != [] && NoSpace(w)
    ensures Fields(w) == [w]
  {
    WordLengthOfWord(w, "");
    assert w + "" == w;
  }

  /** The first word of `w + rest` is `w` when `rest` starts with a space. */
  lemma {:induction false} WordLengthOfWord(w: string, rest: string)
    requires NoSpace(w)
    requires rest == [] || IsSpace(rest[0])
    ensures WordLength(w + rest) == |w|
    decreases |w|
  {
    if w != [] {
      assert (w + rest)[1..] == w[1..] + rest;
      WordLengthOfWord(w[1..], rest);
    } else {
      assert w + rest == rest;
    }
  }

  /** Splitting at a separator that follows a separator-free piece. */
  lemma {:induction false} SplitAfterPiece(a: string, b: string, sep: char)
    requires sep !in a
    ensures Split(a + [sep] + b, sep) == [a] + Split(b, sep)
    decreases |a|
  {
    if a == [] {
      assert a + [sep] + b == [sep] + b;
      assert ([sep] + b)[1..] == b;
    } else {
      assert (a + [sep] + b)[1..] == a[1..] + [sep] + b;
      SplitAfterPiece(a[1..], b, sep);
      assert [a[0]] + a[1..] == a;
    }
  }

  lemma {:induction false} SplitOfPiece(a: string, sep: char)
    requires sep !in a
    ensures Split(a, sep) == [a]
    decreases |a|
  {
    if a != [] {
      SplitOfPiece(a[1..], sep);
      assert [a[0]] + a[1..] == a;
    }
  }

  /** Splitting a comma list gives back the texts it was joined from. */
  lemma {:induction false} SplitCommaList(vs: seq<int>)
    requires |vs| >= 1
    ensures Split(CommaList(vs), ',') == IntTexts(vs)
    decreases |vs|
  {
    ItoaWord(vs[0]);
    if |vs| == 1 {
      SplitOfPiece(Itoa(vs[0]), ',');
    } else {
      assert IntTexts(vs)[1..] == IntTexts(vs[1..]);
      SplitCommaList(vs[1..]);
      SplitAfterPiece(Itoa(vs[0]), CommaList(vs[1..]), ',');
    }
  }

  /** The texts of in-range integers parse back to the integers. */
  lemma {:induction false} ParseIntTexts(vs: seq<int>, kind: ItemKind)
    requires forall i :: 0 <= i < |vs| ==> InRange(kind, vs[i])
    ensures ParseItems(IntTexts(vs), kind) == Ok(vs)
    decreases |vs|
  {
    if vs != [] {
      ParseIntTexts(vs[1..], kind);
      ItoaWord(vs[0]);
      TrimSpaceOfWord(Itoa(vs[0]));
      AtoiItoa(vs[0]);
      assert IntTexts(vs)[1..] == IntTexts(vs[1..]);
      assert ItemResults(IntTexts(vs), kind)[1..] == ItemResults(IntTexts(vs[1..]), kind);
      assert [vs[0]] + vs[1..] == vs;
    }
  }

  lemma FieldsOfTwo(a: string, b: string)
    requires a != [] && NoSpace(a) && b != [] && NoSpace(b)
    ensures Fields(a + " " + b) == [a, b]
  {
    FieldsOfWord(b);
    FieldsAfterWord(a, b);
  }

  lemma FieldsOfThree(a: string, b: string, c: string)
    requires a != [] && NoSpace(a) && b != [] && NoSpace(b) && c != [] && NoSpace(c)
    ensures Fields(a + " " + b + " " + c) == [a, b, c]
  {
    FieldsOfTwo(b, c);
    assert a + " " + b + " " + c == a + " " + (b + " " + c);
    FieldsAfterWord(a, b + " " + c);
  }

  lemma ParseRenderWeekly(p: Parsed)
    requires WellFormed(p) && p.rType == WEEKDAY
    ensures Parse(Render(p)) == Ok(p)
  {
    var list := CommaList(p.days);
    CommaListWord(p.days);
    FieldsOfTwo("w", list);
    assert Render(p) == "w" + " " + list;
    SplitCommaList(p.days);
    ParseIntTexts(p.days, WeekdayItem);
    ParseWeeklyExactly(["w", list], p.days);
  }

  lemma ParseRenderMonthDays(p: Parsed)
    requires WellFormed(p) && p.rType == MONTH && p.months == []
    ensures Parse(Render(p)) == Ok(p)
  {
    var days := CommaList(p.days);
    CommaListWord(p.days);
    FieldsOfTwo("m", days);
    assert Render(p) == "m" + " " + days;
    var params := ["m", days];
    assert Split(params[1], ',') == IntTexts(p.days) by { SplitCommaList(p.days); }
    ParseIntTexts(p.days, MonthDayItem);
    ParseMonthlyExactly(params, p.days, p.months);
  }

  /** A monthly rule with both lists is written as three fields. */
  lemma MonthlyRenderFields(p: Parsed)
    requires WellFormed(p) && p.rType == MONTH && p.months != []
    ensures Fields(Render(p)) == ["m", CommaList(p.days), CommaList(p.months)]
  {
    var days := CommaList(p.days);
    var months := CommaList(p.months);
    var r := Render(p);
    assert r == "m " + days + " " + months;
    assert "m " == "m" + " ";
    CommaListWord(p.days);
    CommaListWord(p.months);
    assert NoSpace("m");
    FieldsOfThree("m", days, months);
  }

  lemma ParseRenderMonthDaysMonths(p: Parsed)
    requires WellFormed(p) && p.rType == MONTH && p.months != []
    ensures Parse(Render(p)) == Ok(p)
  {
    var params := Fields(Render(p));
    MonthlyRenderFields(p);
    assert Split(params[1], ',') == IntTexts(p.days) by { SplitCommaList(p.days); }
    assert Split(params[2], ',') == IntTexts(p.months) by { SplitCommaList(p.months); }
    ParseIntTexts(p.days, MonthDayItem);
    ParseIntTexts(p.months, MonthItem);
    ParseMonthlyExactly(params, p.days, p.months);
  }

  /** Writing a well-formed rule and parsing it back gives the same rule. */
  lemma ParseRender(p: Parsed)
    requires WellFormed(p)
    ensures Parse(Render(p)) == Ok(p)
  {
    if p.rType == DAY {
      var t := Itoa(p.days[0]);
      ItoaWord(p.days[0]);
      AtoiItoa(p.days[0]);
      FieldsOfTwo("d", t);
      assert Render(p) == "d" + " " + t;
      ParseDailyExactly(["d", t], p.days[0]);
      assert p == Parsed(DAY, [p.days[0]], []);
    } else if p.rType == YEAR {
      FieldsOfWord("y");
      ParseYearlyExactly(["y"]);
    } else if p.rType == WEEKDAY {
      ParseRenderWeekly(p);
    } else if p.months == [] {
      ParseRenderMonthDays(p);
    } else {
      ParseRenderMonthDaysMonths(p);
    }
  }
}
