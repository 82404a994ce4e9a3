/** Python's base-10 `str(n)` and `int(s)` for the integers the controllers
    and the record format exchange. */
module Decimal {
  import opened Values
  import opened Text

  predicate IsDigit(c: char) {
    '0' <= c <= '9'
  }

  predicate AllDigits(s: string) {
    forall i :: 0 <= i < |s| ==> IsDigit(s[i])
  }

  function DigitValue(c: char): nat
    requires IsDigit(c)
  {
    (c as int - '0' as int) as nat
  }

  function DigitChar(d: nat): (c: char)
    requires d < 10
    ensures IsDigit(c) && DigitValue(c) == d
  {
    ('0' as int + d) as char
  }

  /** The number a run of decimal digits spells. */
  function DigitsValue(s: string): nat
    requires AllDigits(s)
  {
    if |s| == 0 then 0 else DigitsValue(s[..|s| - 1]) * 10 + DigitValue(s[|s| - 1])
  }

  /** Python `str(n)` for `n >= 0`. */
  function NatToString(n: nat): (s: string)
    ensures |s| > 0 && AllDigits(s)
    decreases n
  {
    if n < 10 then [DigitChar(n)] else NatToString(n / 10) + [DigitChar(n % 10)]
  }

  /** Python `str(n)`: a minus sign exactly for a negative number, then
      digits. */
  function IntToString(n: int): (s: string)
    ensures |s| > 0 && (s[0] == '-' <==> n < 0)
    ensures AllDigits(if n < 0 then s[1..] else s)
  {
    if n < 0 then "-" + NatToString(-n) else NatToString(n)
  }

  /** The digits of `str(n)` spell `n` again. */
  lemma {:induction false} NatToStringValue(n: nat)
    ensures DigitsValue(NatToString(n)) == n
    decreases n
  {
    if n >= 10 {
      var s := NatToString(n);
      assert s[..|s| - 1] == NatToString(n / 10);
      NatToStringValue(n / 10);
    }
  }

  /** The body `int()` accepts after an optional sign: digits, with single
      underscores allowed only between two digits. */
  predicate DigitGroups(s: string) {
    && |s| > 0
    && DigitsOrUnderscores(s)
    && forall i :: 0 <= i < |s| && s[i] == '_' ==> 0 < i < |s| - 1 && IsDigit(s[i - 1]) && IsDigit(s[i + 1])
  }

  predicate DigitsOrUnderscores(s: string) {
    forall i :: 0 <= i < |s| ==> IsDigit(s[i]) || s[i] == '_'
  }

  /** The digits of a digit-group body, underscores removed. */
  function DropUnderscores(s: string): (r: string)
    requires DigitsOrUnderscores(s)
    ensures AllDigits(r)
    ensures AllDigits(s) ==> r == s
  {
    if |s| == 0 then ""
    else if s[0] == '_' then DropUnderscores(s[1..])
    else [s[0]] + DropUnderscores(s[1..])
  }

  /** Python `int(s)` in base 10: surrounding whitespace is ignored, an
      optional sign may lead, and `None` stands for the `ValueError`. */
  function ParseInt(s: string): Option<int> {
    ParseTrimmed(Strip(s))
  }

  /** `int()` on a text already stripped of surrounding whitespace. */
  function ParseTrimmed(t: string): Option<int> {
    if |t| > 0 && (t[0] == '+' || t[0] == '-') && DigitGroups(t[1..]) then
      var v: int := DigitsValue(DropUnderscores(t[1..]));
      Some(if t[0] == '-' then -v else v)
    else if DigitGroups(t) then
      Some(DigitsValue(DropUnderscores(t)))
    else
      None
  }

  lemma ParseTrimmedOfIntToString(n: int)
    ensures ParseTrimmed(IntToString(n)) == Some(n)
  {
    if n < 0 {
      var d := NatToString(-n);
      NatToStringValue(-n);
      assert ("-" + d)[1..] == d;
      ParseNegative("-" + d, d);
    } else {
      NatToStringValue(n);
      ParseUnsigned(NatToString(n));
    }
  }

  /** A run of digits is a digit-group body with nothing to drop. */
  lemma DigitsAreGroups(d: string)
    requires |d| > 0 && AllDigits(d)
    ensures DigitGroups(d) && DropUnderscores(d) == d
  {
    assert forall i :: 0 <= i < |d| ==> d[i] != '_';
  }

  lemma ParseUnsigned(d: string)
    requires |d| > 0 && AllDigits(d)
    ensures ParseTrimmed(d) == Some(DigitsValue(d))
  {
    DigitsAreGroups(d);
    assert d[0] != '+' && d[0] != '-';
  }

  lemma ParseNegative(t: string, d: string)
    requires |t| > 0 && t[0] == '-' && t[1..] == d
    requires |d| > 0 && AllDigits(d)
    ensures ParseTrimmed(t) == Some(-(DigitsValue(d) as int))
  {
    DigitsAreGroups(d);
  }

  /** `int(str(n)) == n`, also with whitespace around the text. */
  lemma ParseIntOfIntToString(n: int, w1: string, w2: string)
    requires AllSpace(w1) && AllSpace(w2)
    ensures ParseInt(w1 + IntToString(n) + w2) == Some(n)
  {
    var s := IntToString(n);
    assert Trimmed(s);
    StripSurrounded(w1, s, w2);
    ParseTrimmedOfIntToString(n);
  }

  /** `int(str(n)) == n` on the bare text. */
  lemma ParseIntOfText(n: int)
    ensures ParseInt(IntToString(n)) == Some(n)
  {
    ParseIntOfIntToString(n, "", "");
    assert "" + IntToString(n) + "" == IntToString(n);
  }

  /** An empty field (two commas in a row) is rejected. */
  lemma ParseIntEmpty(w: string)
    requires AllSpace(w)
    ensures ParseInt(w) == None
  {
    StripSurrounded(w, "", "");
    assert w + "" + "" == w;
  }
}
