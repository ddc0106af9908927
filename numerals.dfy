/** Decimal numerals: JavaScript's `parseInt(s, 10)`, which the widget applies to
    the text of the bug-tick field, and the decimal printing of non-negative
    integers, which template strings use for path coordinates and which
    `bugTick.toString()` uses for the field's initial text. */
module Numerals {
  import opened Wrappers

  predicate IsDigit(c: char) {
    '0' <= c <= '9'
  }

  predicate AllDigits(s: string) {
    forall i :: 0 <= i < |s| ==> IsDigit(s[i])
  }

  /** The white space and line terminators that parseInt skips before the number. */
  predicate IsJsWhiteSpace(c: char) {
    c == '\t' || c == '\n' || c == '\U{0B}' || c == '\U{0C}' || c == '\r' || c == ' '
    || c == '\U{A0}' || c == '\U{1680}' || ('\U{2000}' <= c <= '\U{200A}')
    || c == '\U{2028}' || c == '\U{2029}' || c == '\U{202F}' || c == '\U{205F}'
    || c == '\U{3000}' || c == '\U{FEFF}'
  }

  function DigitValue(c: char): (d: nat)
    requires IsDigit(c)
    ensures d < 10
  {
    (c as int) - ('0' as int)
  }

  function DigitChar(d: nat): (c: char)
    requires d < 10
    ensures IsDigit(c) && DigitValue(c) == d
  {
    (('0' as int) + d) as char
  }

  /** The text left once the leading white space is skipped. */
  function TrimStart(s: string): (r: string)
    ensures |r| <= |s| && r == s[|s| - |r|..]
    ensures r == [] || !IsJsWhiteSpace(r[0])
  {
    if |s| > 0 && IsJsWhiteSpace(s[0]) then TrimStart(s[1..]) else s
  }

  /** The longest prefix of `s` made of decimal digits. */
  function DigitPrefix(s: string): (r: string)
    ensures |r| <= |s| && r == s[..|r|] && AllDigits(r)
    ensures |r| == |s| || !IsDigit(s[|r|])
  {
    if |s| > 0 && IsDigit(s[0]) then [s[0]] + DigitPrefix(s[1..]) else []
  }

  /** The value of a string of decimal digits, most significant first. */
  function DigitsValue(ds: string): nat
    requires AllDigits(ds)
  {
    if |ds| == 0 then 0 else DigitsValue(ds[..|ds| - 1]) * 10 + DigitValue(ds[|ds| - 1])
  }

  /** `parseInt(s, 10)`: skip leading white space, take an optional sign, then read
      decimal digits up to the first non-digit; `None` stands for NaN, the result
      when no digit follows. A negative zero is the integer 0 here. */
  function ParseInt(s: string): (r: Option<int>)
    ensures r.Some? <==> |DigitPrefix(SignStripped(TrimStart(s)))| > 0
  {
    ParseSigned(TrimStart(s))
  }

  /** parseInt on the text after the white space. */
  function ParseSigned(t: string): (r: Option<int>)
    ensures r.Some? <==> |DigitPrefix(SignStripped(t))| > 0
  {
    var digits := DigitPrefix(SignStripped(t));
    var magnitude: int := if |digits| == 0 then 0 else DigitsValue(digits);
    if |digits| == 0 then None
    else if |t| > 0 && t[0] == '-' then Some(-magnitude)
    else Some(magnitude)
  }

  function SignStripped(t: string): string {
    if |t| > 0 && (t[0] == '-' || t[0] == '+') then t[1..] else t
  }

  /** The decimal numeral of `n`, without leading zeros. */
  function Decimal(n: nat): (s: string)
    ensures |s| > 0 && AllDigits(s)
    ensures s[0] == '0' ==> s == "0"
    ensures DigitsValue(s) == n
  {
    if n < 10 then [DigitChar(n)]
    else
      var s := Decimal(n / 10) + [DigitChar(n % 10)];
      assert s[..|s| - 1] == Decimal(n / 10);
      s
  }

  lemma {:induction false} DigitPrefixOfDigits(ds: string, tail: string)
    requires AllDigits(ds)
    requires tail == [] || !IsDigit(tail[0])
    ensures DigitPrefix(ds + tail) == ds
  {
    if |ds| > 0 {
      assert (ds + tail)[1..] == ds[1..] + tail;
      DigitPrefixOfDigits(ds[1..], tail);
    } else {
      assert ds + tail == tail;
    }
  }

  lemma {:induction false} TrimStartSkipsWhiteSpace(ws: string, rest: string)
    requires forall i :: 0 <= i < |ws| ==> IsJsWhiteSpace(ws[i])
    requires rest == [] || !IsJsWhiteSpace(rest[0])
    ensures TrimStart(ws + rest) == rest
  {
    if |ws| > 0 {
      assert (ws + rest)[1..] == ws[1..] + rest;
      TrimStartSkipsWhiteSpace(ws[1..], rest);
    } else {
      assert ws + rest == rest;
    }
  }

  /** parseInt depends on its input only through the text left after the white space. */
  lemma ParseIntOfTrimmed(s: string, t: string)
    requires TrimStart(s) == t
    ensures ParseInt(s) == ParseInt(t)
  {
    if |t| > 0 {
      TrimStartStopsAtText(t);
    }
    assert ParseInt(t) == ParseSigned(t);
  }

  lemma ConcatAssoc(a: string, b: string, c: string, d: string)
    ensures a + b + c + d == a + (b + (c + d))
  {
  }

  /** parseInt's result on text that starts with digits, possibly signed. */
  lemma ParseIntOfDigits(t: string, digits: string, n: nat, negative: bool)
    requires TrimStart(t) == t && DigitPrefix(SignStripped(t)) == digits && |digits| > 0
    requires DigitsValue(digits) == n
    requires |t| > 0 && (t[0] == '-' <==> negative)
    ensures ParseInt(t) == Some(if negative then -(n as int) else n)
  {
  }

  lemma TrimStartStopsAtText(t: string)
    requires |t| > 0 && !IsJsWhiteSpace(t[0])
    ensures TrimStart(t) == t
  {
  }

  lemma DigitIsText(t: string)
    requires |t| > 0 && IsDigit(t[0])
    ensures TrimStart(t) == t && SignStripped(t) == t
  {
    assert !IsJsWhiteSpace(t[0]);
    TrimStartStopsAtText(t);
  }

  lemma SignedText(t: string, body: string)
    requires |t| > 0 && (t[0] == '+' || t[0] == '-') && t[1..] == body
    ensures TrimStart(t) == t && SignStripped(t) == body
  {
    assert !IsJsWhiteSpace(t[0]);
    TrimStartStopsAtText(t);
  }

  /** How parseInt sees digits, after an optional sign and before a non-digit. */
  lemma DigitsLayout(sign: string, ds: string, tail: string)
    requires sign == "" || sign == "+" || sign == "-"
    requires |ds| > 0 && AllDigits(ds)
    requires tail == [] || !IsDigit(tail[0])
    ensures var t := sign + (ds + tail);
            TrimStart(t) == t && SignStripped(t) == ds + tail && DigitPrefix(ds + tail) == ds
            && |t| > 0 && (t[0] == '-' <==> sign == "-")
  {
    var body := ds + tail;
    var t := sign + body;
    DigitPrefixOfDigits(ds, tail);
    if sign == "" {
      assert t == body && t[0] == ds[0] && IsDigit(ds[0]);
      DigitIsText(t);
    } else {
      assert t[0] == sign[0] && t[1..] == body;
      SignedText(t, body);
    }
  }

  /** A run of digits after an optional sign is read as its value with that sign. */
  lemma SignedNumeralParses(sign: string, ds: string, n: nat, tail: string)
    requires sign == "" || sign == "+" || sign == "-"
    requires |ds| > 0 && AllDigits(ds) && DigitsValue(ds) == n
    requires tail == [] || !IsDigit(tail[0])
    ensures var v: int := if sign == "-" then -(n as int) else n;
            ParseInt(sign + (ds + tail)) == Some(v)
  {
    DigitsLayout(sign, ds, tail);
    ParseIntOfDigits(sign + (ds + tail), ds, n, sign == "-");
  }

  /** parseInt reads back what Decimal prints, after any leading white space,
      with an optional sign, and stops at the first character that is not a digit
      ("55", " +7", "-3", "12.9" and "42px" give 55, 7, -3, 12 and 42). */
  lemma ParseIntReadsDecimal(ws: string, sign: string, n: nat, tail: string)
    requires forall i :: 0 <= i < |ws| ==> IsJsWhiteSpace(ws[i])
    requires sign == "" || sign == "+" || sign == "-"
    requires tail == [] || !IsDigit(tail[0])
    ensures var v: int := if sign == "-" then -(n as int) else n;
            ParseInt(ws + sign + Decimal(n) + tail) == Some(v)
  {
    var d := Decimal(n);
    var t := sign + (d + tail);
    ConcatAssoc(ws, sign, d, tail);
    DigitsLayout(sign, d, tail);
    TrimStartSkipsWhiteSpace(ws, t);
    ParseIntOfTrimmed(ws + t, t);
    SignedNumeralParses(sign, d, n, tail);
  }

  /** The text after the white space when no digit follows the optional sign. */
  lemma NonNumeralText(t: string, rest: string)
    requires rest == [] || !IsDigit(rest[0])
    requires t == rest || (|t| > 0 && t[1..] == rest && (t[0] == '+' || t[0] == '-'))
    requires t == rest && rest != [] ==> !IsJsWhiteSpace(rest[0]) && rest[0] != '-' && rest[0] != '+'
    ensures t == [] || !IsJsWhiteSpace(t[0])
    ensures SignStripped(t) == rest && DigitPrefix(rest) == []
  {
  }

  /** parseInt gives NaN when no digit follows the white space and the sign:
      "", "   ", "-", "+x", "- 5" and "abc" all read as NaN. */
  lemma ParseIntRejectsNonNumeral(ws: string, sign: string, rest: string)
    requires forall i :: 0 <= i < |ws| ==> IsJsWhiteSpace(ws[i])
    requires sign == "" || sign == "+" || sign == "-"
    requires rest == [] || !IsDigit(rest[0])
    requires sign == "" && rest != [] ==> !IsJsWhiteSpace(rest[0]) && rest[0] != '-' && rest[0] != '+'
    ensures ParseInt(ws + sign + rest) == None
  {
    var t := sign + rest;
    if sign == "" {
      assert t == rest;
    } else {
      assert t[0] == sign[0] && t[1..] == rest;
    }
    NonNumeralText(t, rest);
    assert ws + sign + rest == ws + t;
    TrimStartSkipsWhiteSpace(ws, t);
    assert ParseInt(ws + t) == None;
  }

  /** A run of '0's is a digit string of value 0. */
  lemma {:induction false} ZerosValue(zs: string)
    requires forall i :: 0 <= i < |zs| ==> zs[i] == '0'
    ensures AllDigits(zs) && DigitsValue(zs) == 0
  {
    if |zs| > 0 {
      ZerosValue(zs[..|zs| - 1]);
    }
  }

  /** Leading zeros do not change the value of a digit string. */
  lemma {:induction false} LeadingZerosValue(zs: string, ds: string)
    requires forall i :: 0 <= i < |zs| ==> zs[i] == '0'
    requires AllDigits(ds)
    ensures AllDigits(zs + ds) && DigitsValue(zs + ds) == DigitsValue(ds)
  {
    ZerosValue(zs);
    if |ds| == 0 {
      assert zs + ds == zs;
    } else {
      var init := ds[..|ds| - 1];
      assert (zs + ds)[..|zs + ds| - 1] == zs + init;
      assert (zs + ds)[|zs + ds| - 1] == ds[|ds| - 1];
      LeadingZerosValue(zs, init);
    }
  }
}
