/**
 * Decimal numerals: Python's `str(n)`, the zero-padded `{n:0Wd}` format,
 * and the `int(text)` / `float(text)` conversions the timecode parser uses.
 */
module Numerals {
  import opened Wrappers
  import opened Strings

  predicate IsDigit(c: char) {
    '0' <= c <= '9'
  }

  predicate AllDigits(s: string) {
    forall i :: 0 <= i < |s| ==> IsDigit(s[i])
  }

  function DigitValue(c: char): nat
    requires IsDigit(c)
  {
    c as int - '0' as int
  }

  function DigitChar(d: nat): (c: char)
    requires d < 10
    ensures IsDigit(c) && DigitValue(c) == d
  {
    ('0' as int + d) as char
  }

  /** Value of a run of decimal digits; leading zeros are allowed, as in Python. */
  function DigitsValue(s: string): nat
    requires AllDigits(s)
    decreases |s|
  {
    if |s| == 0 then 0 else DigitsValue(s[..|s| - 1]) * 10 + DigitValue(s[|s| - 1])
  }

  lemma DigitsValueSnoc(s: string, c: char)
    requires AllDigits(s) && IsDigit(c)
    ensures AllDigits(s + [c]) && DigitsValue(s + [c]) == DigitsValue(s) * 10 + DigitValue(c)
  {
    assert (s + [c])[..|s|] == s;
  }

  /** Python's `str(n)` for a non-negative integer: its decimal digits, without leading zeros. */
  function NatToString(n: nat): (r: string)
    ensures |r| > 0 && AllDigits(r)
    ensures DigitsValue(r) == n
    ensures r[0] == '0' ==> n == 0
    decreases n
  {
    if n < 10 then [DigitChar(n)]
    else
      var r := NatToString(n / 10) + [DigitChar(n % 10)];
      DigitsValueSnoc(NatToString(n / 10), DigitChar(n % 10));
      r
  }

  /** `str` is injective on naturals, so distinct numbers give distinct names. */
  lemma NatToStringInjective(m: nat, n: nat)
    requires NatToString(m) == NatToString(n)
    ensures m == n
  {
  }

  /** A run of `k` zero digits. */
  function Zeros(k: nat): (z: string)
    ensures |z| == k && AllDigits(z)
    ensures forall i :: 0 <= i < k ==> z[i] == '0'
  {
    seq(k, _ => '0')
  }

  /** Right-justifies digits in a field of `width`, filling with zeros. */
  function ZeroPad(digits: string, width: nat): (r: string)
    requires AllDigits(digits)
    ensures AllDigits(r) && |r| == if width > |digits| then width else |digits|
  {
    if width > |digits| then Zeros(width - |digits|) + digits else digits
  }

  /** Leading zeros do not change the value of a digit run. */
  lemma {:induction false} LeadingZeros(k: nat, d: string)
    requires AllDigits(d)
    ensures AllDigits(Zeros(k) + d) && DigitsValue(Zeros(k) + d) == DigitsValue(d)
    decreases |d|
  {
    if |d| == 0 {
      assert Zeros(k) + d == Zeros(k);
      AllZerosValue(k);
    } else {
      var d' := d[..|d| - 1];
      LeadingZeros(k, d');
      assert Zeros(k) + d == (Zeros(k) + d') + [d[|d| - 1]];
      DigitsValueSnoc(Zeros(k) + d', d[|d| - 1]);
      DigitsValueSnoc(d', d[|d| - 1]);
      assert d == d' + [d[|d| - 1]];
    }
  }

  lemma {:induction false} AllZerosValue(k: nat)
    ensures DigitsValue(Zeros(k)) == 0
  {
    if k > 0 {
      assert Zeros(k)[..k - 1] == Zeros(k - 1);
      AllZerosValue(k - 1);
    }
  }

  /** Python's `f"{n:0{width}d}"`: sign first, then digits zero-filled to `width` characters in all. */
  function FormatInt(n: int, width: nat): (r: string)
    ensures |r| >= width
    ensures var natural := |NatToString(if n < 0 then -n else n)| + (if n < 0 then 1 else 0);
            |r| == if width > natural then width else natural
  {
    if n < 0 then "-" + ZeroPad(NatToString(-n), if width > 0 then width - 1 else 0)
    else ZeroPad(NatToString(n), width)
  }

  /** Python's `int(text)` for ASCII decimal literals: optional surrounding whitespace, optional sign, digits. */
  function ParseInt(s: string): Option<int> {
    var t := Strip(s);
    if |t| > 0 && (t[0] == '+' || t[0] == '-') then
      var u := t[1..];
      if |u| > 0 && AllDigits(u) then
        var v: int := DigitsValue(u);
        Some(if t[0] == '-' then -v else v)
      else None
    else if |t| > 0 && AllDigits(t) then Some(DigitsValue(t))
    else None
  }

  /** Value of the digits after a decimal point: `0.d1d2...` is `(d1 + 0.d2...) / 10`. */
  function Fraction(frac: string): (r: real)
    requires AllDigits(frac)
    ensures 0.0 <= r < 1.0
  {
    if |frac| == 0 then 0.0 else (DigitValue(frac[0]) as real + Fraction(frac[1..])) / 10.0
  }

  /** The unsigned part of a Python float literal: digits, optionally with one decimal point. */
  function ParseUnsignedDecimal(u: string): Option<real> {
    match IndexOf(u, ".")
    case None =>
      if |u| > 0 && AllDigits(u) then Some(DigitsValue(u) as real) else None
    case Some(k) =>
      var whole, frac := u[..k], u[k + 1..];
      if |whole| + |frac| > 0 && AllDigits(whole) && AllDigits(frac)
      then Some(DigitsValue(whole) as real + Fraction(frac))
      else None
  }

  /** Python's `float(text)` for ASCII decimal literals without an exponent. */
  function ParseDecimal(s: string): Option<real> {
    var t := Strip(s);
    var negative := |t| > 0 && t[0] == '-';
    var u := if |t| > 0 && (t[0] == '+' || t[0] == '-') then t[1..] else t;
    match ParseUnsignedDecimal(u)
    case None => None
    case Some(v) => Some(if negative then -v else v)
  }

  /** Digit runs hold no whitespace. */
  lemma DigitsTrimmed(s: string)
    requires AllDigits(s)
    ensures Trimmed(s) && Strip(s) == s
  {
    StripOfTrimmed(s);
  }

  lemma ParseIntDigits(d: string)
    requires |d| > 0 && AllDigits(d)
    ensures ParseInt(d) == Some(DigitsValue(d) as int)
  {
    DigitsTrimmed(d);
  }

  lemma ParseIntNegativeDigits(d: string)
    requires |d| > 0 && AllDigits(d)
    ensures ParseInt("-" + d) == Some(-(DigitsValue(d) as int))
  {
    StripFramed("-", d);
    assert ("-" + d)[1..] == d;
  }

  /** `int()` reads back what `{n:0Wd}` wrote, for every integer and width. */
  lemma FormatIntRoundTrip(n: int, width: nat)
    ensures ParseInt(FormatInt(n, width)) == Some(n)
  {
    if n < 0 {
      FormatNegativeRoundTrip(n, width);
    } else {
      ZeroPadValue(n, width);
      ParseIntDigits(ZeroPad(NatToString(n), width));
    }
  }

  lemma FormatNegativeRoundTrip(n: int, width: nat)
    requires n < 0
    ensures ParseInt(FormatInt(n, width)) == Some(n)
  {
    hide ParseInt, DigitsValue;
    var w := if width > 0 then width - 1 else 0;
    var d := ZeroPad(NatToString(-n), w);
    ZeroPadValue(-n, w);
    assert FormatInt(n, width) == "-" + d;
    hide ZeroPad, NatToString, FormatInt;
    ParseIntNegativeDigits(d);
  }

  lemma ZeroPadValue(n: nat, width: nat)
    ensures DigitsValue(ZeroPad(NatToString(n), width)) == n
  {
    if width > |NatToString(n)| {
      LeadingZeros(width - |NatToString(n)|, NatToString(n));
    }
  }

  /** Digit runs hold no decimal point. */
  lemma NoPointInDigits(u: string)
    requires AllDigits(u)
    ensures IndexOf(u, ".") == None
  {
    assert '.' !in u by {
      forall i | 0 <= i < |u| ensures u[i] != '.' {
        assert IsDigit(u[i]);
      }
    }
    NotContainsFirstChar(u, ".");
  }

  /** Wherever `int()` succeeds, `float()` succeeds with the same value. */
  lemma ParseDecimalExtendsParseInt(s: string, n: int)
    requires ParseInt(s) == Some(n)
    ensures ParseDecimal(s) == Some(n as real)
  {
    var t := Strip(s);
    var u := if |t| > 0 && (t[0] == '+' || t[0] == '-') then t[1..] else t;
    NoPointInDigits(u);
  }

  lemma PointAfterDigits(whole: string, frac: string)
    requires AllDigits(whole)
    ensures IndexOf(whole + ("." + frac), ".") == Some(|whole|)
  {
    NoPointInDigits(whole);
    IndexOfSkip(whole, "." + frac, ".");
    assert OccursAt("." + frac, ".", 0);
  }

  lemma UnsignedDecimalPoint(whole: string, frac: string)
    requires |whole| > 0 && AllDigits(whole) && AllDigits(frac)
    ensures ParseUnsignedDecimal(whole + ("." + frac)) == Some(DigitsValue(whole) as real + Fraction(frac))
  {
    var s := whole + ("." + frac);
    PointAfterDigits(whole, frac);
    assert s[..|whole|] == whole;
    assert s[|whole| + 1..] == frac;
  }

  /** `float()` of `whole.frac` with digit runs is the exact decimal value. */
  lemma ParseDecimalPoint(whole: string, frac: string)
    requires |whole| > 0 && AllDigits(whole) && AllDigits(frac)
    ensures ParseDecimal(whole + "." + frac) == Some(DigitsValue(whole) as real + Fraction(frac))
  {
    var tail := "." + frac;
    var s := whole + tail;
    assert whole + "." + frac == s;
    assert !IsSpace(tail[|tail| - 1]) by {
      if |frac| > 0 {
        assert tail[|tail| - 1] == frac[|frac| - 1];
      }
    }
    StripFramed(whole, tail);
    assert s[0] == whole[0] && IsDigit(s[0]);
    UnsignedDecimalPoint(whole, frac);
  }
}
