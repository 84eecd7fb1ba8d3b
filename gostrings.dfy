/**
 * The string routines of Go's standard library that the recurrence parsers
 * call: `unicode.IsSpace`, `strings.Fields`, `strings.Split`,
 * `strings.TrimSpace` and `strconv.Atoi` (decimal, without overflow).
 */
module GoStrings {
  import opened Outcomes

  /** `unicode.IsSpace`: the Latin-1 spaces plus Unicode's White_Space set. */
  predicate IsSpace(c: char) {
    var x := c as int;
    (9 <= x <= 13) || x == 32 || x == 0x85 || x == 0xA0 || x == 0x1680
    || (0x2000 <= x <= 0x200A) || x == 0x2028 || x == 0x2029 || x == 0x202F
    || x == 0x205F || x == 0x3000
  }

  predicate NoSpace(s: string) {
    forall i :: 0 <= i < |s| ==> !IsSpace(s[i])
  }

  predicate AllSpace(s: string) {
    forall i :: 0 <= i < |s| ==> IsSpace(s[i])
  }

  /** Length of the longest prefix of `s` without white space. */
  function WordLength(s: string): (n: nat)
    ensures n <= |s|
    ensures NoSpace(s[..n])
    ensures n < |s| ==> IsSpace(s[n])
  {
    if s == [] || IsSpace(s[0]) then 0
    else
      var n := 1 + WordLength(s[1..]);
      assert s[..n] == [s[0]] + s[1..][..n - 1];
      n
  }

  /** `strings.Fields`: the maximal runs of non-space characters, in order. */
  function Fields(s: string): (r: seq<string>)
    ensures forall i :: 0 <= i < |r| ==> r[i] != [] && NoSpace(r[i])
    decreases |s|
  {
    if s == [] then []
    else if IsSpace(s[0]) then Fields(s[1..])
    else
      var n := WordLength(s);
      [s[..n]] + Fields(s[n..])
  }

  function Concat(parts: seq<string>): string {
    if parts == [] then [] else parts[0] + Concat(parts[1..])
  }

  /** `s` with every white-space character deleted. */
  function RemoveSpaces(s: string): string {
    if s == [] then []
    else if IsSpace(s[0]) then RemoveSpaces(s[1..])
    else [s[0]] + RemoveSpaces(s[1..])
  }

  lemma {:induction false} RemoveSpacesAppend(a: string, b: string)
    ensures RemoveSpaces(a + b) == RemoveSpaces(a) + RemoveSpaces(b)
    decreases |a|
  {
    if a == [] {
      assert a + b == b;
    } else {
      assert (a + b)[0] == a[0];
      assert (a + b)[1..] == a[1..] + b;
      RemoveSpacesAppend(a[1..], b);
    }
  }

  lemma {:induction false} RemoveSpacesOfWord(w: string)
    requires NoSpace(w)
    ensures RemoveSpaces(w) == w
    decreases |w|
  {
    if w != [] {
      RemoveSpacesOfWord(w[1..]);
    }
  }

  /**
   * The fields, glued together, are the input with its white space deleted:
   * `Fields` loses and invents no character.
   */
  lemma {:induction false} FieldsKeepsText(s: string)
    ensures Concat(Fields(s)) == RemoveSpaces(s)
    decreases |s|
  {
    if s == [] {
    } else if IsSpace(s[0]) {
      FieldsKeepsText(s[1..]);
    } else {
      var n := WordLength(s);
      FieldsKeepsText(s[n..]);
      assert s == s[..n] + s[n..];
      RemoveSpacesAppend(s[..n], s[n..]);
      RemoveSpacesOfWord(s[..n]);
      assert ([s[..n]] + Fields(s[n..]))[1..] == Fields(s[n..]);
    }
  }

  /** A word followed by white space or by nothing is the longest space-free prefix. */
  lemma {:induction false} WordLengthOfWord(w: string, s: string)
    requires NoSpace(w)
    requires s == [] || IsSpace(s[0])
    ensures WordLength(w + s) == |w|
    decreases |w|
  {
    if w == [] {
      assert w + s == s;
    } else {
      assert (w + s)[0] == w[0];
      assert (w + s)[1..] == w[1..] + s;
      WordLengthOfWord(w[1..], s);
    }
  }

  /**
   * A non-empty run of non-space characters that ends the string or meets
   * white space is one whole field: `Fields` splits exactly at white space.
   */
  lemma FieldsOfWordThen(w: string, s: string)
    requires w != [] && NoSpace(w)
    requires s == [] || IsSpace(s[0])
    ensures Fields(w + s) == [w] + Fields(s)
  {
    WordLengthOfWord(w, s);
    assert (w + s)[0] == w[0];
    assert (w + s)[..|w|] == w;
    assert (w + s)[|w|..] == s;
  }

  /** Leading white space yields no field. */
  lemma {:induction false} FieldsSkipsSpace(a: string, s: string)
    requires AllSpace(a)
    ensures Fields(a + s) == Fields(s)
    decreases |a|
  {
    if a == [] {
      assert a + s == s;
    } else {
      assert (a + s)[0] == a[0];
      assert (a + s)[1..] == a[1..] + s;
      FieldsSkipsSpace(a[1..], s);
    }
  }

  /** `Fields` finds nothing exactly in an all-white-space string. */
  lemma {:induction false} FieldsEmpty(s: string)
    ensures Fields(s) == [] <==> AllSpace(s)
    decreases |s|
  {
    if s != [] {
      FieldsEmpty(s[1..]);
      if IsSpace(s[0]) {
        assert AllSpace(s) <==> AllSpace(s[1..]) by {
          if AllSpace(s[1..]) {
            forall i | 0 <= i < |s| ensures IsSpace(s[i]) {
              if i > 0 { assert s[i] == s[1..][i - 1]; }
            }
          }
        }
      }
    }
  }

  function Count(s: string, c: char): nat {
    if s == [] then 0 else (if s[0] == c then 1 else 0) + Count(s[1..], c)
  }

  /**
   * `strings.Split(s, sep)` for a one-character separator: the pieces
   * between separators; the empty string gives one empty piece.
   */
  function Split(s: string, sep: char): (r: seq<string>)
    ensures |r| == Count(s, sep) + 1
    ensures forall i :: 0 <= i < |r| ==> sep !in r[i]
    decreases |s|
  {
    if s == [] then [""]
    else
      var rest := Split(s[1..], sep);
      if s[0] == sep then [""] + rest
      else [[s[0]] + rest[0]] + rest[1..]
  }

  /** `strings.Join(parts, sep)`. */
  function Join(parts: seq<string>, sep: char): string
    requires |parts| >= 1
  {
    if |parts| == 1 then parts[0] else parts[0] + [sep] + Join(parts[1..], sep)
  }

  /** Joining the pieces with the separator gives back the input. */
  lemma {:induction false} SplitJoin(s: string, sep: char)
    ensures Join(Split(s, sep), sep) == s
    decreases |s|
  {
    if s != [] {
      var rest := Split(s[1..], sep);
      SplitJoin(s[1..], sep);
      if s[0] == sep {
        assert ([""] + rest)[1..] == rest;
      } else {
        var r := [[s[0]] + rest[0]] + rest[1..];
        if |rest| > 1 {
          assert r[1..] == rest[1..];
          assert Join(rest, sep) == rest[0] + [sep] + Join(rest[1..], sep);
        }
      }
    }
  }

  /** `s` without its leading white space. */
  function TrimLeft(s: string): string {
    if s != [] && IsSpace(s[0]) then TrimLeft(s[1..]) else s
  }

  /** `s` without its trailing white space. */
  function TrimRight(s: string): string {
    if s != [] && IsSpace(s[|s| - 1]) then TrimRight(s[..|s| - 1]) else s
  }

  /** `strings.TrimSpace`. */
  function TrimSpace(s: string): string {
    TrimRight(TrimLeft(s))
  }

  lemma {:induction false} TrimLeftSuffix(s: string)
    ensures |TrimLeft(s)| <= |s| && TrimLeft(s) == s[|s| - |TrimLeft(s)|..]
    ensures AllSpace(s[..|s| - |TrimLeft(s)|])
    ensures TrimLeft(s) != [] ==> !IsSpace(TrimLeft(s)[0])
  {
    if s != [] && IsSpace(s[0]) {
      TrimLeftSuffix(s[1..]);
      var r := TrimLeft(s[1..]);
      assert s[..|s| - |r|] == [s[0]] + s[1..][..|s| - 1 - |r|];
    }
  }

  lemma {:induction false} TrimRightPrefix(s: string)
    ensures |TrimRight(s)| <= |s| && TrimRight(s) == s[..|TrimRight(s)|]
    ensures AllSpace(s[|TrimRight(s)|..])
    ensures TrimRight(s) != [] ==> !IsSpace(TrimRight(s)[|TrimRight(s)| - 1])
  {
    if s != [] && IsSpace(s[|s| - 1]) {
      TrimRightPrefix(s[..|s| - 1]);
      var r := TrimRight(s[..|s| - 1]);
      assert s[|r|..] == s[..|s| - 1][|r|..] + [s[|s| - 1]];
    }
  }

  /**
   * `strings.TrimSpace` keeps a slice of `s` with only white space around it,
   * and the slice neither starts nor ends with white space.
   */
  lemma TrimSpaceSlice(s: string)
    ensures exists i, j :: 0 <= i <= j <= |s| && TrimSpace(s) == s[i..j]
              && AllSpace(s[..i]) && AllSpace(s[j..])
    ensures TrimSpace(s) != [] ==> !IsSpace(TrimSpace(s)[0]) && !IsSpace(TrimSpace(s)[|TrimSpace(s)| - 1])
  {
    var left := TrimLeft(s);
    TrimLeftSuffix(s);
    TrimRightPrefix(left);
    var r := TrimRight(left);
    var i := |s| - |left|;
    var j := i + |r|;
    assert r == s[i..j];
    assert s[j..] == left[|r|..];
  }

  /** A word without white space is its own trimmed form. */
  lemma TrimSpaceOfWord(s: string)
    requires NoSpace(s)
    ensures TrimSpace(s) == s
  {
    assert TrimLeft(s) == s;
  }

  predicate IsDigit(c: char) {
    '0' <= c <= '9'
  }

  predicate AllDigits(s: string) {
    forall i :: 0 <= i < |s| ==> IsDigit(s[i])
  }

  function DigitValue(c: char): nat
    requires IsDigit(c)
  {
    (c as int) - ('0' as int)
  }

  /** The value of a string of decimal digits, most significant first. */
  function DecimalValue(s: string): nat
    requires AllDigits(s)
  {
    if s == [] then 0
    else DecimalValue(s[..|s| - 1]) * 10 + DigitValue(s[|s| - 1])
  }

  /**
   * `strconv.Atoi`: an optional `+` or `-` followed by one or more decimal
   * digits; anything else is a syntax error (`None`).
   */
  function Atoi(s: string): Option<int> {
    if s == [] then None
    else if s[0] == '-' || s[0] == '+' then
      if |s| == 1 || !AllDigits(s[1..]) then None
      else if s[0] == '-' then Some(-(DecimalValue(s[1..]) as int))
      else Some(DecimalValue(s[1..]))
    else if AllDigits(s) then Some(DecimalValue(s))
    else None
  }

  /** The decimal digits of `n`, without leading zeros (`"0"` for zero). */
  function Digits(n: nat): (r: string)
    ensures r != [] && AllDigits(r)
    decreases n
  {
    if n < 10 then [('0' as int + n) as char]
    else Digits(n / 10) + [('0' as int + n % 10) as char]
  }

  /** `strconv.Itoa`. */
  function Itoa(n: int): string {
    if n < 0 then "-" + Digits(-n) else Digits(n)
  }

  lemma {:induction false} DigitsValue(n: nat)
    ensures DecimalValue(Digits(n)) == n
    decreases n
  {
    var r := Digits(n);
    if n >= 10 {
      DigitsValue(n / 10);
      assert r[..|r| - 1] == Digits(n / 10);
    }
  }

  /** Atoi reads back every integer that Itoa writes. */
  lemma AtoiItoa(n: int)
    ensures Atoi(Itoa(n)) == Some(n)
  {
    if n < 0 {
      DigitsValue(-n);
      assert Itoa(n)[1..] == Digits(-n);
    } else {
      DigitsValue(n);
    }
  }

  /** Whatever Atoi accepts is a non-empty word without white space. */
  lemma AtoiAcceptsWordsOnly(s: string)
    requires Atoi(s).Some?
    ensures s != [] && NoSpace(s)
  {
    if s[0] == '-' || s[0] == '+' {
      forall i | 0 <= i < |s| ensures !IsSpace(s[i]) {
        if i > 0 { assert s[i] == s[1..][i - 1]; }
      }
    }
  }
}
