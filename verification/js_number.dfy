/**
 * `parseInt(s, 10)` and the decimal rendering of an integer (template-literal
 * interpolation of a Number), over unbounded integers.
 */
module JsNumber {
  import opened Wrappers

  predicate IsDigit(c: char)
  {
    '0' <= c <= '9'
  }

  predicate AllDigits(s: string)
  {
    forall i | 0 <= i < |s| :: IsDigit(s[i])
  }

  /**
   * StrWhiteSpaceChar of ECMA-262: the WhiteSpace code points (tab, vertical
   * tab, form feed, zero-width no-break space and every space separator of
   * category Zs) and the LineTerminator code points.
   */
  predicate IsStrWhiteSpace(c: char)
  {
    || c == '\t' || c == '\U{B}' || c == '\U{C}' || c == '\U{FEFF}'
    || c == ' ' || c == '\U{A0}' || c == '\U{1680}' || ('\U{2000}' <= c <= '\U{200A}')
    || c == '\U{202F}' || c == '\U{205F}' || c == '\U{3000}'
    || c == '\n' || c == '\r' || c == '\U{2028}' || c == '\U{2029}'
  }

  /** Leading white space removed, as `parseInt` does first. */
  function TrimStart(s: string): (r: string)
    ensures |r| <= |s| && r == s[|s| - |r|..]
    ensures forall i | 0 <= i < |s| - |r| :: IsStrWhiteSpace(s[i])
    ensures |r| == 0 || !IsStrWhiteSpace(r[0])
  {
    if |s| > 0 && IsStrWhiteSpace(s[0]) then TrimStart(s[1..]) else s
  }

  /** The longest prefix of decimal digits. */
  function LeadingDigits(s: string): (ds: string)
    ensures ds <= s
    ensures AllDigits(ds)
    ensures |ds| == |s| || !IsDigit(s[|ds|])
  {
    if |s| > 0 && IsDigit(s[0]) then [s[0]] + LeadingDigits(s[1..]) else ""
  }

  function DigitValue(c: char): nat
    requires IsDigit(c)
  {
    c as int - '0' as int
  }

  function DigitChar(d: nat): (c: char)
    requires d < 10
    ensures IsDigit(c) && DigitValue(c) == d
  {
    ('0' as int + d) as char
  }

  /** The value of a string of decimal digits, most significant first. */
  function DigitsValue(ds: string): nat
    requires AllDigits(ds)
  {
    if |ds| == 0 then 0 else DigitsValue(ds[..|ds| - 1]) * 10 + DigitValue(ds[|ds| - 1])
  }

  /** The integer a sign and a magnitude denote. */
  function Signed(negative: bool, magnitude: nat): int
  {
    var m: int := magnitude;
    if negative then -m else m
  }

  /**
   * `parseInt(s, 10)`, with `None` for NaN: skip leading white space, take an
   * optional sign, then the longest run of decimal digits; NaN when that run
   * is empty. No `0x` prefix is recognised with an explicit radix of 10.
   * A plain run of digits reads as its value, and only a text whose first
   * non-blank character is `-` reads as a negative number.
   */
  function ParseInt(s: string): (r: Option<int>)
    ensures |s| > 0 && AllDigits(s) ==> r == Some(DigitsValue(s))
    ensures r.Some? && r.value < 0 ==> |TrimStart(s)| > 0 && TrimStart(s)[0] == '-'
  {
    DigitRunIsRead(s);
    var t := TrimStart(s);
    var negative := |t| > 0 && t[0] == '-';
    var unsigned := if |t| > 0 && (t[0] == '-' || t[0] == '+') then t[1..] else t;
    var ds := LeadingDigits(unsigned);
    if |ds| == 0 then None
    else
      Some(Signed(negative, DigitsValue(ds)))
  }

  /** A run of digits is neither trimmed nor cut short. */
  lemma DigitRunIsRead(s: string)
    ensures |s| > 0 && AllDigits(s) ==> TrimStart(s) == s && LeadingDigits(s) == s
  {
    if |s| > 0 && AllDigits(s) {
      TrimStartNoop(s);
      LeadingDigitsOf(s, "");
      assert s + "" == s;
    }
  }

  /** Text that does not start with white space is left alone by the trimming step. */
  lemma TrimStartNoop(s: string)
    requires |s| == 0 || !IsStrWhiteSpace(s[0])
    ensures TrimStart(s) == s
  {
  }

  /** The digit run of text that starts with `ds` and continues with a non-digit is `ds`. */
  lemma {:induction false} LeadingDigitsOf(ds: string, rest: string)
    requires AllDigits(ds)
    requires |rest| == 0 || !IsDigit(rest[0])
    ensures LeadingDigits(ds + rest) == ds
  {
    if |ds| > 0 {
      var s := ds + rest;
      assert s[0] == ds[0] && s[1..] == ds[1..] + rest;
      LeadingDigitsOf(ds[1..], rest);
      assert ds == [ds[0]] + ds[1..];
    } else {
      assert ds + rest == rest;
    }
  }

  /** The canonical decimal digits of a natural number: no leading zero except for 0 itself. */
  function NatDigits(n: nat): (ds: string)
    ensures |ds| >= 1 && AllDigits(ds)
    ensures ds[0] != '0' || n == 0
    ensures DigitsValue(ds) == n
  {
    if n < 10 then
      [DigitChar(n)]
    else
      var prefix := NatDigits(n / 10);
      var ds := prefix + [DigitChar(n % 10)];
      assert ds[..|ds| - 1] == prefix;
      ds
  }

  /** `${n}` for an integer-valued Number: an optional minus sign, then the digits. */
  function ToDecimal(n: int): (s: string)
    ensures |s| >= 1
    ensures ':' !in s
  {
    if n < 0 then "-" + NatDigits(-n) else NatDigits(n)
  }

  /** Reading back a rendered integer gives the integer. */
  lemma ParseIntToDecimal(n: int)
    ensures ParseInt(ToDecimal(n)) == Some(n)
  {
    var s := ToDecimal(n);
    var m: nat := if n < 0 then -n else n;
    var ds := NatDigits(m);
    assert !IsStrWhiteSpace(s[0]);
    TrimStartNoop(s);
    LeadingDigitsOf(ds, "");
    assert ds + "" == ds;
    if n < 0 {
      assert s[1..] == ds;
    } else {
      assert s == ds;
    }
  }

  /**
   * `parseInt` reads exactly the leading digit run of unsigned text and
   * ignores whatever follows it: `"12ab"` gives 12.
   */
  lemma ParseIntDigitPrefix(ds: string, rest: string)
    requires |ds| >= 1 && AllDigits(ds)
    requires |rest| == 0 || !IsDigit(rest[0])
    ensures ParseInt(ds + rest) == Some(DigitsValue(ds))
  {
    var s := ds + rest;
    assert s[0] == ds[0];
    assert !IsStrWhiteSpace(s[0]);
    TrimStartNoop(s);
    LeadingDigitsOf(ds, rest);
  }

  /** White space in front of text that does not start with white space is exactly what is trimmed. */
  lemma {:induction false} TrimBlanks(ws: string, t: string)
    requires forall i | 0 <= i < |ws| :: IsStrWhiteSpace(ws[i])
    requires |t| == 0 || !IsStrWhiteSpace(t[0])
    ensures TrimStart(ws + t) == t
    decreases |ws|
  {
    if |ws| == 0 {
      assert ws + t == t;
      TrimStartNoop(t);
    } else {
      assert (ws + t)[0] == ws[0];
      assert (ws + t)[1..] == ws[1..] + t;
      TrimBlanks(ws[1..], t);
    }
  }

  /** White space in front of text is skipped: it does not change what `parseInt` reads. */
  lemma ParseIntSkipsBlanks(ws: string, t: string)
    requires forall i | 0 <= i < |ws| :: IsStrWhiteSpace(ws[i])
    requires |t| == 0 || !IsStrWhiteSpace(t[0])
    ensures ParseInt(ws + t) == ParseInt(t)
  {
    TrimBlanks(ws, t);
    TrimStartNoop(t);
  }

  /** After an explicit sign `parseInt` reads the digit run, `-` negating it. */
  lemma ParseIntAfterSign(sign: string, ds: string, rest: string)
    requires sign == "+" || sign == "-"
    requires |ds| >= 1 && AllDigits(ds)
    requires |rest| == 0 || !IsDigit(rest[0])
    ensures ParseInt(sign + (ds + rest)) == Some(Signed(sign == "-", DigitsValue(ds)))
  {
    var t := sign + (ds + rest);
    assert t[0] == sign[0];
    TrimStartNoop(t);
    assert t[1..] == ds + rest;
    LeadingDigitsOf(ds, rest);
  }

  /**
   * `parseInt(s, 10)` in general: after leading white space and an optional
   * sign it reads the longest digit run, `-` negating it: `" 8080"` gives
   * 8080 and `"-5x"` gives -5.
   */
  lemma ParseIntReadsPrefix(ws: string, sign: string, ds: string, rest: string)
    requires forall i | 0 <= i < |ws| :: IsStrWhiteSpace(ws[i])
    requires sign == "" || sign == "+" || sign == "-"
    requires |ds| >= 1 && AllDigits(ds)
    requires |rest| == 0 || !IsDigit(rest[0])
    ensures ParseInt(ws + (sign + (ds + rest))) == Some(Signed(sign == "-", DigitsValue(ds)))
  {
    SignedDigitsStart(sign, ds, rest);
    ParseIntSignedDigits(sign, ds, rest);
    ParseIntSkipsBlanks(ws, sign + (ds + rest));
  }

  /** An optional sign and then a digit run. */
  lemma ParseIntSignedDigits(sign: string, ds: string, rest: string)
    requires sign == "" || sign == "+" || sign == "-"
    requires |ds| >= 1 && AllDigits(ds)
    requires |rest| == 0 || !IsDigit(rest[0])
    ensures ParseInt(sign + (ds + rest)) == Some(Signed(sign == "-", DigitsValue(ds)))
  {
    if sign == "" {
      EmptyPrefix(sign, ds + rest);
      ParseIntDigitPrefix(ds, rest);
    } else {
      ParseIntAfterSign(sign, ds, rest);
    }
  }

  /** An optional sign followed by a digit does not start with white space. */
  lemma SignedDigitsStart(sign: string, ds: string, rest: string)
    requires sign == "" || sign == "+" || sign == "-"
    requires |ds| >= 1 && AllDigits(ds)
    ensures !IsStrWhiteSpace((sign + (ds + rest))[0])
  {
    assert (sign + (ds + rest))[0] == if sign == "" then ds[0] else sign[0];
  }

  lemma EmptyPrefix(e: string, t: string)
    requires e == ""
    ensures e + t == t
  {
  }

  /** `parseInt` is NaN exactly when no digit follows the optional white space and sign. */
  lemma ParseIntNaNIff(s: string)
    ensures ParseInt(s).None? <==>
      var t := TrimStart(s);
      var unsigned := if |t| > 0 && (t[0] == '-' || t[0] == '+') then t[1..] else t;
      |unsigned| == 0 || !IsDigit(unsigned[0])
  {
  }

}
