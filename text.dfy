/** The pieces of Python's text handling that the sensor decoder relies on:
    `str.isspace`, `str.strip`, `str.find`, and the integer subset of what
    `float()` accepts. */
module Text {
  import opened Wrappers

  /** The two whitespace sets Python strips with: `str.strip()` removes what
      `str.isspace` accepts, while `float()` leaves the four ASCII separators
      U+001C-U+001F in place (and then rejects them). */
  datatype Spaces = StrSpaces | FloatSpaces

  /** `c.isspace()` in Python: the ASCII separators and the Unicode spaces. */
  predicate IsStrSpace(c: char) {
    || c == ' '
    || ('\t' <= c <= '\r')           // \t \n \v \f \r
    || ('\U{1c}' <= c <= '\U{1f}')   // file, group, record and unit separators
    || c == '\U{85}' || c == '\U{a0}' || c == '\U{1680}'
    || ('\U{2000}' <= c <= '\U{200a}')
    || c == '\U{2028}' || c == '\U{2029}' || c == '\U{202f}' || c == '\U{205f}' || c == '\U{3000}'
  }

  /** Whether `c` is whitespace in the set `sp`. */
  predicate IsSpace(sp: Spaces, c: char) {
    IsStrSpace(c) && (sp == FloatSpaces ==> !('\U{1c}' <= c <= '\U{1f}'))
  }

  predicate AllSpace(sp: Spaces, s: string) {
    forall i :: 0 <= i < |s| ==> IsSpace(sp, s[i])
  }

  /** `s.rstrip()`: the longest prefix of `s` that does not end in whitespace. */
  function TrimEnd(sp: Spaces, s: string): (r: string)
    ensures |r| <= |s| && r == s[..|r|]
    ensures AllSpace(sp, s[|r|..])
    ensures |r| > 0 ==> !IsSpace(sp, r[|r| - 1])
  {
    if |s| > 0 && IsSpace(sp, s[|s| - 1]) then
      var r := TrimEnd(sp, s[..|s| - 1]);
      assert s[|r|..] == s[..|s| - 1][|r|..] + [s[|s| - 1]];
      r
    else s
  }

  /** `s.lstrip()`: the longest suffix of `s` that does not start with whitespace. */
  function TrimStart(sp: Spaces, s: string): (r: string)
    ensures |r| <= |s| && r == s[|s| - |r|..]
    ensures AllSpace(sp, s[..|s| - |r|])
    ensures |r| > 0 ==> !IsSpace(sp, r[0])
  {
    if |s| > 0 && IsSpace(sp, s[0]) then TrimStart(sp, s[1..]) else s
  }

  /** `s.strip()`: whitespace removed from both ends. */
  function Strip(sp: Spaces, s: string): string {
    TrimStart(sp, TrimEnd(sp, s))
  }

  /** `s.strip()` is a contiguous slice of `s`, with only whitespace cut away
      on either side, that neither starts nor ends with whitespace. */
  lemma StripIsTrimmedSlice(sp: Spaces, s: string)
    ensures var r := Strip(sp, s);
            exists lo :: 0 <= lo <= lo + |r| <= |s| && r == s[lo..lo + |r|]
                         && AllSpace(sp, s[..lo]) && AllSpace(sp, s[lo + |r|..])
    ensures var r := Strip(sp, s);
            |r| > 0 ==> !IsSpace(sp, r[0]) && !IsSpace(sp, r[|r| - 1])
  {
    var e := TrimEnd(sp, s);
    var lo := |e| - |Strip(sp, s)|;
    StripSliceAt(sp, s, lo);
    StripEnds(sp, s);
  }

  lemma StripSliceAt(sp: Spaces, s: string, lo: int)
    requires lo == |TrimEnd(sp, s)| - |Strip(sp, s)|
    ensures var r := Strip(sp, s);
            0 <= lo <= lo + |r| <= |s| && r == s[lo..lo + |r|]
            && AllSpace(sp, s[..lo]) && AllSpace(sp, s[lo + |r|..])
  {
    var e := TrimEnd(sp, s);
    var r := TrimStart(sp, e);
    assert s[..lo] == e[..lo];
    assert r == s[lo..lo + |r|];
    assert s[lo + |r|..] == s[|e|..];
  }

  lemma StripEnds(sp: Spaces, s: string)
    ensures var r := Strip(sp, s);
            |r| > 0 ==> !IsSpace(sp, r[0]) && !IsSpace(sp, r[|r| - 1])
  {
    var e := TrimEnd(sp, s);
    var r := TrimStart(sp, e);
    if |r| > 0 {
      assert r[|r| - 1] == e[|e| - 1];
    }
  }

  /** Stripping leaves text that starts and ends with non-whitespace alone,
      and trailing whitespace added to any text does not survive. */
  lemma StripTrailingSpace(sp: Spaces, t: string, ws: string)
    requires t != [] && !IsSpace(sp, t[0]) && !IsSpace(sp, t[|t| - 1])
    requires AllSpace(sp, ws)
    ensures Strip(sp, t + ws) == t
  {
    TrimEndOfSpaced(sp, t, ws);
  }

  /** Whitespace on both sides of text that starts and ends with a
      non-space is exactly what stripping removes. */
  lemma StripSpaced(sp: Spaces, ws1: string, t: string, ws2: string)
    requires t != [] && !IsSpace(sp, t[0]) && !IsSpace(sp, t[|t| - 1])
    requires AllSpace(sp, ws1) && AllSpace(sp, ws2)
    ensures Strip(sp, ws1 + t + ws2) == t
  {
    var front := ws1 + t;
    assert front[|front| - 1] == t[|t| - 1];
    TrimEndOfSpaced(sp, front, ws2);
    TrimStartOfSpaced(sp, ws1, t);
  }

  /** The left-trim of `ws + t` is `t` when `t` starts with a non-space. */
  lemma {:induction false} TrimStartOfSpaced(sp: Spaces, ws: string, t: string)
    requires t != [] && !IsSpace(sp, t[0])
    requires AllSpace(sp, ws)
    ensures TrimStart(sp, ws + t) == t
    decreases |ws|
  {
    if ws == [] {
      assert ws + t == t;
    } else {
      assert (ws + t)[0] == ws[0];
      assert (ws + t)[1..] == ws[1..] + t;
      TrimStartOfSpaced(sp, ws[1..], t);
    }
  }

  /** The right-trim of `t + ws` is `t` when `t` ends in a non-space. */
  lemma TrimEndOfSpaced(sp: Spaces, t: string, ws: string)
    requires t != [] && !IsSpace(sp, t[|t| - 1])
    requires AllSpace(sp, ws)
    ensures TrimEnd(sp, t + ws) == t
  {
    var s := t + ws;
    assert s[..|t|] == t;
  }

  /** `s[i:i+len(pat)] == pat`, with the slice inside `s`. */
  predicate OccursAt(s: string, pat: string, i: int) {
    0 <= i && i + |pat| <= |s| && s[i..i + |pat|] == pat
  }

  /** `s.find(pat, start)`: the lowest index at or after `start` where `pat`
      occurs, or -1 if there is none. */
  function FindFrom(s: string, pat: string, start: nat): (r: int)
    ensures r == -1 || (start <= r && OccursAt(s, pat, r))
    ensures forall j :: start <= j && (r == -1 || j < r) ==> !OccursAt(s, pat, j)
    decreases |s| - start
  {
    if start + |pat| > |s| then -1
    else if s[start..start + |pat|] == pat then start
    else FindFrom(s, pat, start + 1)
  }

  /** `s.find(pat)`: -1 exactly when `pat` does not occur, otherwise the
      index of its first occurrence. */
  function Find(s: string, pat: string): (r: int)
    ensures r == -1 <==> forall j :: !OccursAt(s, pat, j)
    ensures r != -1 ==> OccursAt(s, pat, r) && forall j :: 0 <= j < r ==> !OccursAt(s, pat, j)
  {
    FindFrom(s, pat, 0)
  }

  predicate IsDigit(c: char) {
    '0' <= c <= '9'
  }

  predicate AllDigits(s: string) {
    forall i :: 0 <= i < |s| ==> IsDigit(s[i])
  }

  function DigitChar(d: nat): (c: char)
    requires d < 10
    ensures IsDigit(c) && (c as int) - ('0' as int) == d
  {
    ('0' as int + d) as char
  }

  /** The value of a string of decimal digits, most significant first. */
  function DigitsValue(s: string): nat
    requires AllDigits(s)
  {
    if s == [] then 0
    else DigitsValue(s[..|s| - 1]) * 10 + ((s[|s| - 1] as int) - ('0' as int))
  }

  /** `str(n)` for a natural number. */
  function ShowNat(n: nat): (s: string)
    ensures s != [] && AllDigits(s)
  {
    if n < 10 then [DigitChar(n)] else ShowNat(n / 10) + [DigitChar(n % 10)]
  }

  /** `str(v)` for an integer: a minus sign for negative values, then the digits. */
  function ShowInt(v: int): (s: string)
    ensures s != [] && !IsStrSpace(s[0]) && !IsStrSpace(s[|s| - 1])
  {
    if v < 0 then "-" + ShowNat(-v) else ShowNat(v)
  }

  lemma {:induction false} DigitsValueOfShowNat(n: nat)
    ensures DigitsValue(ShowNat(n)) == n
  {
    if n >= 10 {
      DigitsValueOfShowNat(n / 10);
      var s := ShowNat(n);
      assert s[..|s| - 1] == ShowNat(n / 10);
    }
  }

  /** The integer text `float()` is given here: an optional sign followed by
      at least one decimal digit. */
  predicate IsNumeral(t: string) {
    if |t| > 0 && (t[0] == '-' || t[0] == '+') then |t| > 1 && AllDigits(t[1..])
    else |t| > 0 && AllDigits(t)
  }

  function NumeralValue(t: string): int
    requires IsNumeral(t)
  {
    if t[0] == '-' then -(DigitsValue(t[1..]) as int)
    else if t[0] == '+' then DigitsValue(t[1..])
    else DigitsValue(t)
  }

  /** `float(s)` restricted to integer text: a numeral with the whitespace
      `float()` strips around it; None where Python raises ValueError. */
  function ParseInt(s: string): (r: Option<int>)
    ensures r.Some? <==> IsNumeral(Strip(FloatSpaces, s))
    ensures r.Some? && r.value < 0 ==> Strip(FloatSpaces, s)[0] == '-'
  {
    var t := Strip(FloatSpaces, s);
    if IsNumeral(t) then Some(NumeralValue(t)) else None
  }

  /** The value of every numeral `float()` accepts here: whitespace it strips
      on either side, an optional sign, and any non-empty run of digits,
      leading zeros included. */
  lemma ParseSignedDigits(ws1: string, sign: string, digits: string, ws2: string)
    requires AllSpace(FloatSpaces, ws1) && AllSpace(FloatSpaces, ws2)
    requires sign == "" || sign == "+" || sign == "-"
    requires digits != [] && AllDigits(digits)
    ensures ParseInt(ws1 + sign + digits + ws2)
            == Some(if sign == "-" then -(DigitsValue(digits) as int) else DigitsValue(digits))
  {
    SignedNumeral(sign, digits);
    StripSpaced(FloatSpaces, ws1, sign + digits, ws2);
    Regroup(ws1, sign, digits);
  }

  /** An optional sign before a non-empty run of digits is a numeral, with
      no whitespace at either end, whose value is the digits' value,
      negated after a minus. */
  lemma SignedNumeral(sign: string, digits: string)
    requires sign == "" || sign == "+" || sign == "-"
    requires digits != [] && AllDigits(digits)
    ensures var t := sign + digits;
            && !IsSpace(FloatSpaces, t[0]) && !IsSpace(FloatSpaces, t[|t| - 1])
            && IsNumeral(t)
            && NumeralValue(t) == if sign == "-" then -(DigitsValue(digits) as int) else DigitsValue(digits)
  {
    var t := sign + digits;
    assert t[|t| - 1] == digits[|digits| - 1];
    if sign == "" {
      assert t == digits;
    } else {
      assert t[0] == sign[0];
      assert t[1..] == digits;
    }
  }

  /** Formatting an integer and parsing it back, whatever whitespace that
      `float()` strips surrounds it, gives the integer back. */
  lemma ParseShowInt(v: int, ws1: string, ws2: string)
    requires AllSpace(FloatSpaces, ws1) && AllSpace(FloatSpaces, ws2)
    ensures ParseInt(ws1 + ShowInt(v) + ws2) == Some(v)
  {
    var sign := if v < 0 then "-" else "";
    var digits := ShowNat(if v < 0 then -v else v);
    assert ShowInt(v) == sign + digits;
    DigitsValueOfShowNat(if v < 0 then -v else v);
    ParseSignedDigits(ws1, sign, digits, ws2);
    Regroup(ws1, sign, digits);
  }

  /** `float()` of a zero-padded, optionally signed natural number, with
      whitespace it strips around it, gives that number, negated after a
      minus. */
  lemma ParseZeroPadded(ws1: string, sign: string, zeros: string, n: nat, ws2: string)
    requires AllSpace(FloatSpaces, ws1) && AllSpace(FloatSpaces, ws2)
    requires sign == "" || sign == "+" || sign == "-"
    requires forall i :: 0 <= i < |zeros| ==> zeros[i] == '0'
    ensures ParseInt(ws1 + sign + zeros + ShowNat(n) + ws2) == Some(if sign == "-" then -(n as int) else n)
  {
    LeadingZeros(zeros, ShowNat(n));
    DigitsValueOfShowNat(n);
    ParseSignedDigits(ws1, sign, zeros + ShowNat(n), ws2);
    Regroup(ws1 + sign, zeros, ShowNat(n));
  }

  /** Concatenation regrouped to the right. */
  lemma Regroup(a: string, b: string, c: string)
    ensures a + b + c == a + (b + c)
  {
  }

  /** Leading zeros do not change the value of a run of digits. */
  lemma {:induction false} LeadingZeros(zeros: string, digits: string)
    requires forall i :: 0 <= i < |zeros| ==> zeros[i] == '0'
    requires AllDigits(digits)
    ensures AllDigits(zeros + digits) && DigitsValue(zeros + digits) == DigitsValue(digits)
    decreases |digits|
  {
    var s := zeros + digits;
    assert AllDigits(s) by {
      forall i | 0 <= i < |s| ensures IsDigit(s[i]) {
        if i >= |zeros| {
          assert s[i] == digits[i - |zeros|];
        }
      }
    }
    if digits == [] {
      assert s == zeros;
      AllZeros(zeros);
    } else {
      var n := |digits| - 1;
      assert s[..|s| - 1] == zeros + digits[..n];
      assert s[|s| - 1] == digits[n];
      LeadingZeros(zeros, digits[..n]);
    }
  }

  lemma {:induction false} AllZeros(zeros: string)
    requires forall i :: 0 <= i < |zeros| ==> zeros[i] == '0'
    ensures AllDigits(zeros) && DigitsValue(zeros) == 0
    decreases |zeros|
  {
    if zeros != [] {
      AllZeros(zeros[..|zeros| - 1]);
    }
  }

  /** A numeral followed by an ASCII separator (U+001C-U+001F) is rejected:
      `str.strip()` would remove the separator, `float()` does not. */
  lemma SeparatorRejected(v: int, sep: char)
    requires '\U{1c}' <= sep <= '\U{1f}'
    ensures ParseInt(ShowInt(v) + [sep]) == None
    ensures Strip(StrSpaces, ShowInt(v) + [sep]) == ShowInt(v)
  {
    var s := ShowInt(v) + [sep];
    StripTrailingSpace(StrSpaces, ShowInt(v), [sep]);
    var none: string := [];
    StripTrailingSpace(FloatSpaces, s, none);
    assert s + none == s;
    assert !IsDigit(s[|s| - 1]) && !AllDigits(s) && !AllDigits(s[1..]) by {
      assert s[1..][|s| - 2] == s[|s| - 1];
    }
  }

  /** The first occurrence of a two-character marker whose characters differ
      is where it follows a prefix that does not contain it. */
  lemma FindAfterPrefix(prefix: string, pat: string, rest: string)
    requires |pat| == 2 && pat[0] != pat[1]
    requires forall j :: !OccursAt(prefix, pat, j)
    ensures Find(prefix + pat + rest, pat) == |prefix|
  {
    var s := prefix + pat + rest;
    assert s[|prefix|..|prefix| + 2] == pat;
    assert OccursAt(s, pat, |prefix|);
    var r := Find(s, pat);
    if r != |prefix| {
      assert r < |prefix|;
      if r + 2 <= |prefix| {
        assert prefix[r..r + 2] == s[r..r + 2];
        assert OccursAt(prefix, pat, r);
      }
    }
  }
}
