/**
 * The `20060102` layout (`DATEFORMAT`): `time.Parse` reads four year digits,
 * two month digits and two day digits and rejects impossible dates;
 * `Format` writes the year zero-padded to four digits (more when it is
 * larger) and month and day zero-padded to two. Go compares these strings
 * byte by byte, and for four-digit years that order is the date order.
 */
module DateFormat {
  import opened Outcomes
  import opened GoStrings
  import opened Calendar

  function Pow10(w: nat): (p: nat)
    ensures p >= 1
  {
    if w == 0 then 1 else 10 * Pow10(w - 1)
  }

  function DigitChar(v: nat): (c: char)
    requires v < 10
    ensures IsDigit(c) && DigitValue(c) == v
  {
    ('0' as int + v) as char
  }

  /** The last `w` decimal digits of `n`, with leading zeros. */
  function Pad(n: nat, w: nat): (s: string)
    ensures |s| == w && AllDigits(s)
  {
    if w == 0 then [] else Pad(n / 10, w - 1) + [DigitChar(n % 10)]
  }

  /** The year as `Format` writes it: at least four digits. */
  function YearText(y: nat): string {
    if y < 10000 then Pad(y, 4) else Digits(y)
  }

  /** `date.Format("20060102")`. */
  function Format(d: Date): string {
    YearText(d.year) + Pad(d.month, 2) + Pad(d.day, 2)
  }

  /** `time.Parse("20060102", s)`: `None` stands for the parse error. */
  function ParseDate(s: string): Option<Date> {
    if |s| != 8 || !AllDigits(s) then None
    else
      var d := Date(DecimalValue(s[..4]), DecimalValue(s[4..6]), DecimalValue(s[6..]));
      if Valid(d) then Some(d) else None
  }

  /** Go's `<` on strings: the first differing character decides, a proper prefix is smaller. */
  predicate StrLess(a: string, b: string) {
    if a == [] then b != []
    else if b == [] then false
    else if a[0] != b[0] then a[0] < b[0]
    else StrLess(a[1..], b[1..])
  }

  // ---------------------------------------------------------------------
  // Fixed-width digits

  lemma {:induction false} PadValue(n: nat, w: nat)
    requires n < Pow10(w)
    ensures DecimalValue(Pad(n, w)) == n
  {
    if w > 0 {
      var s := Pad(n, w);
      assert s[..|s| - 1] == Pad(n / 10, w - 1);
      PadValue(n / 10, w - 1);
    }
  }

  lemma {:induction false} PadOfValue(s: string)
    requires AllDigits(s)
    ensures Pad(DecimalValue(s), |s|) == s
    decreases |s|
  {
    if s != [] {
      var init := s[..|s| - 1];
      var v := DecimalValue(init);
      var c := s[|s| - 1];
      assert (v * 10 + DigitValue(c)) / 10 == v;
      assert (v * 10 + DigitValue(c)) % 10 == DigitValue(c);
      PadOfValue(init);
      assert init + [c] == s;
    }
  }

  lemma {:induction false} DecimalValueBound(s: string)
    requires AllDigits(s)
    ensures DecimalValue(s) < Pow10(|s|)
    decreases |s|
  {
    if s != [] {
      DecimalValueBound(s[..|s| - 1]);
    }
  }

  /** Two texts of the same length: the first position where they differ decides. */
  lemma {:induction false} StrLessAppend(a: string, b: string, c: string, d: string)
    requires |a| == |b|
    ensures StrLess(a + c, b + d) <==> StrLess(a, b) || (a == b && StrLess(c, d))
    decreases |a|
  {
    if a == [] {
      assert a + c == c && b + d == d;
    } else {
      assert (a + c)[1..] == a[1..] + c;
      assert (b + d)[1..] == b[1..] + d;
      StrLessAppend(a[1..], b[1..], c, d);
      if a[0] == b[0] && a[1..] == b[1..] {
        assert a == [a[0]] + a[1..] && b == [b[0]] + b[1..];
      }
    }
  }

  lemma StrLessDigit(x: nat, y: nat)
    requires x < 10 && y < 10
    ensures StrLess([DigitChar(x)], [DigitChar(y)]) <==> x < y
  {
    assert [DigitChar(x)][1..] == [];
  }

  /** Zero-padded numbers of one width compare as text the way they compare as numbers. */
  lemma {:induction false} PadLess(a: nat, b: nat, w: nat)
    requires a < Pow10(w) && b < Pow10(w)
    ensures StrLess(Pad(a, w), Pad(b, w)) <==> a < b
  {
    if w > 0 {
      PadLess(a / 10, b / 10, w - 1);
      StrLessAppend(Pad(a / 10, w - 1), Pad(b / 10, w - 1), [DigitChar(a % 10)], [DigitChar(b % 10)]);
      StrLessDigit(a % 10, b % 10);
      PadValue(a / 10, w - 1);
      PadValue(b / 10, w - 1);
      assert a == a / 10 * 10 + a % 10 && b == b / 10 * 10 + b % 10;
    }
  }

  // ---------------------------------------------------------------------
  // The layout

  lemma FormatParts(d: Date)
    requires d.year < 10000 && d.month < 100 && d.day < 100
    ensures Format(d)[..4] == Pad(d.year, 4)
    ensures Format(d)[4..6] == Pad(d.month, 2)
    ensures Format(d)[6..] == Pad(d.day, 2)
    ensures |Format(d)| == 8
  {
  }

  /** A four-digit-year date formats to eight digits that parse back to it. */
  lemma ParseFormat(d: Date)
    requires Valid(d) && d.year < 10000
    ensures ParseDate(Format(d)) == Some(d)
  {
    var s := Format(d);
    FormatParts(d);
    assert AllDigits(s) by {
      assert s == Pad(d.year, 4) + Pad(d.month, 2) + Pad(d.day, 2);
    }
    PadValue(d.year, 4);
    PadValue(d.month, 2);
    PadValue(d.day, 2);
  }

  /** Whatever parses is a valid date with a four-digit year that formats back to the same text. */
  lemma FormatParse(s: string)
    requires ParseDate(s).Some?
    ensures Valid(ParseDate(s).value) && ParseDate(s).value.year < 10000
    ensures Format(ParseDate(s).value) == s
  {
    var y, m, dd := s[..4], s[4..6], s[6..];
    assert AllDigits(y) && AllDigits(m) && AllDigits(dd);
    var d := Date(DecimalValue(y), DecimalValue(m), DecimalValue(dd));
    assert ParseDate(s) == Some(d);
    DecimalValueBound(y);
    assert Pow10(4) == 10000;
    PadOfValue(y);
    PadOfValue(m);
    PadOfValue(dd);
    calc {
      Format(d);
      Pad(d.year, 4) + Pad(d.month, 2) + Pad(d.day, 2);
      y + m + dd;
      { assert s == s[..4] + s[4..6] + s[6..]; }
      s;
    }
  }

  /** For four-digit years, formatted dates compare as text in field-by-field order. */
  lemma FormatLexLess(a: Date, b: Date)
    requires a.year < 10000 && b.year < 10000 && a.month < 100 && b.month < 100
    requires a.day < 100 && b.day < 100
    ensures StrLess(Format(a), Format(b)) <==> LexLess(a, b)
  {
    var ya, ma, da := Pad(a.year, 4), Pad(a.month, 2), Pad(a.day, 2);
    var yb, mb, db := Pad(b.year, 4), Pad(b.month, 2), Pad(b.day, 2);
    assert Pow10(4) == 10000 && Pow10(2) == 100;
    PadLess(a.year, b.year, 4);
    PadLess(a.month, b.month, 2);
    PadLess(a.day, b.day, 2);
    assert ya == yb <==> a.year == b.year by {
      PadValue(a.year, 4);
      PadValue(b.year, 4);
    }
    assert ma == mb <==> a.month == b.month by {
      PadValue(a.month, 2);
      PadValue(b.month, 2);
    }
    StrLessAppend(ya, yb, ma + da, mb + db);
    StrLessAppend(ma, mb, da, db);
    assert Format(a) == ya + (ma + da);
    assert Format(b) == yb + (mb + db);
  }

  /** For four-digit years, comparing formatted dates as text compares the dates. */
  lemma FormatLess(a: Date, b: Date)
    requires Valid(a) && Valid(b) && a.year < 10000 && b.year < 10000
    ensures StrLess(Format(a), Format(b)) <==> DayNumber(a) < DayNumber(b)
  {
    FormatLexLess(a, b);
    DayNumberOrder(a, b);
  }
}
