/** Decimal text as Python's str(int), int(str) and float(str) treat it: the
    brightness files hold decimal integers, and percentage arguments are
    parsed with float(). */
module Decimal {
  import opened Outcomes

  predicate IsDigit(c: char) { '0' <= c <= '9' }

  predicate AllDigits(s: string) { forall i :: 0 <= i < |s| ==> IsDigit(s[i]) }

  /** ASCII whitespace, which int() and float() ignore around a number. */
  predicate IsSpace(c: char) { c == ' ' || '\t' <= c <= '\r' }

  function DigitValue(c: char): (d: nat)
    requires IsDigit(c)
    ensures d < 10
  {
    c as int - '0' as int
  }

  function DigitChar(d: nat): (c: char)
    requires d < 10
    ensures IsDigit(c) && DigitValue(c) == d
  {
    ('0' as int + d) as char
  }

  function Pow10(k: nat): (p: nat)
    ensures p >= 1
  {
    if k == 0 then 1 else 10 * Pow10(k - 1)
  }

  /** A string of digits in canonical form: no leading zero unless it is "0". */
  predicate IsCanonical(s: string) { |s| >= 1 && AllDigits(s) && (|s| > 1 ==> s[0] != '0') }

  /** str(n) for n >= 0: its digits, most significant first. */
  function NatToDecimal(n: nat): (s: string)
    ensures IsCanonical(s)
    decreases n
  {
    if n < 10 then [DigitChar(n)] else NatToDecimal(n / 10) + [DigitChar(n % 10)]
  }

  /** str(n) for any integer n. */
  function IntToDecimal(n: int): (s: string)
    ensures |s| > 0 && !IsSpace(s[0]) && !IsSpace(s[|s| - 1])
    ensures s[0] == '-' <==> n < 0
    ensures n >= 0 ==> IsCanonical(s)
    ensures n < 0 ==> IsCanonical(s[1..])
  {
    if n < 0 then
      var digits := NatToDecimal(-n);
      assert ("-" + digits)[1..] == digits;
      "-" + digits
    else NatToDecimal(n)
  }

  /** The value of a string of decimal digits (0 for the empty string). */
  function DigitsValue(s: string): nat
    requires AllDigits(s)
  {
    if s == [] then 0 else DigitsValue(s[..|s| - 1]) * 10 + DigitValue(s[|s| - 1])
  }

  function TrimStart(s: string): (t: string)
    ensures |t| <= |s| && t == s[|s| - |t|..]
    ensures |t| > 0 ==> !IsSpace(t[0])
  {
    if |s| > 0 && IsSpace(s[0]) then TrimStart(s[1..]) else s
  }

  function TrimEnd(s: string): (t: string)
    ensures |t| <= |s| && t == s[..|t|]
    ensures |t| > 0 ==> !IsSpace(t[|t| - 1])
  {
    if |s| > 0 && IsSpace(s[|s| - 1]) then TrimEnd(s[..|s| - 1]) else s
  }

  /** str.strip() restricted to ASCII whitespace. */
  function Strip(s: string): string { TrimEnd(TrimStart(s)) }

  /** An optional leading sign: whether it is '-', and what follows it. */
  function SplitSign(t: string): (bool, string)
  {
    if |t| > 0 && (t[0] == '+' || t[0] == '-') then (t[0] == '-', t[1..]) else (false, t)
  }

  /** int(text): surrounding whitespace, an optional sign, then one or more
      digits; anything else raises ValueError, modelled as None. */
  function ParseInt(text: string): (r: Option<int>)
    ensures r.Some? && r.value < 0 ==> |Strip(text)| > 0 && Strip(text)[0] == '-'
  {
    var (negative, digits) := SplitSign(Strip(text));
    if |digits| > 0 && AllDigits(digits) then
      Some(if negative then -(DigitsValue(digits) as int) else DigitsValue(digits))
    else
      None
  }

  /** The index of the first '.' in s, or |s| when there is none. */
  function DotIndex(s: string): (k: nat)
    ensures k <= |s|
    ensures forall i :: 0 <= i < k ==> s[i] != '.'
    ensures k < |s| ==> s[k] == '.'
  {
    if s == [] then 0 else if s[0] == '.' then 0 else 1 + DotIndex(s[1..])
  }

  /** An unsigned decimal number: digits, optionally a '.' and more digits,
      with at least one digit in all. */
  function UnsignedReal(s: string): (r: Option<real>)
    ensures r.Some? ==> 0.0 <= r.value
  {
    var k := DotIndex(s);
    var whole := s[..k];
    var fraction := if k < |s| then s[k + 1..] else "";
    if AllDigits(whole) && AllDigits(fraction) && |whole| + |fraction| > 0 then
      Some(DigitsValue(whole) as real + DigitsValue(fraction) as real / Pow10(|fraction|) as real)
    else
      None
  }

  /** float(text) for plain decimal notation, as an exact real. */
  function ParseReal(text: string): (r: Option<real>)
    ensures r.Some? && r.value < 0.0 ==> |Strip(text)| > 0 && Strip(text)[0] == '-'
  {
    var (negative, body) := SplitSign(Strip(text));
    match UnsignedReal(body)
    case None => None
    case Some(x) => Some(if negative then -x else x)
  }

  /** Reading back the digits of n gives n. */
  lemma {:induction false} DigitsValueOfDecimal(n: nat)
    ensures DigitsValue(NatToDecimal(n)) == n
  {
    if n >= 10 {
      var s := NatToDecimal(n);
      assert s[..|s| - 1] == NatToDecimal(n / 10);
      DigitsValueOfDecimal(n / 10);
    }
  }

  /** A canonical digit string whose first digit is not zero has a value of
      at least that first digit. */
  lemma {:induction false} DigitsValueAtLeastFirst(s: string)
    requires |s| >= 1 && AllDigits(s)
    ensures DigitsValue(s) >= DigitValue(s[0])
  {
    if |s| > 1 {
      DigitsValueAtLeastFirst(s[..|s| - 1]);
    }
  }

  /** Printing the value of a canonical digit string gives the string back. */
  lemma {:induction false} DecimalOfDigitsValue(s: string)
    requires IsCanonical(s)
    ensures NatToDecimal(DigitsValue(s)) == s
  {
    if |s| > 1 {
      var prefix := s[..|s| - 1];
      assert prefix[0] == s[0];
      DigitsValueAtLeastFirst(prefix);
      DecimalOfDigitsValue(prefix);
      var n := DigitsValue(s);
      assert n / 10 == DigitsValue(prefix) && n % 10 == DigitValue(s[|s| - 1]);
      assert s == prefix + [s[|s| - 1]];
    }
  }

  lemma StripOfDecimal(n: int)
    ensures Strip(IntToDecimal(n)) == IntToDecimal(n)
  {
    var s := IntToDecimal(n);
    assert !IsSpace(s[0]) && !IsSpace(s[|s| - 1]);
  }

  /** int(str(n)) == n for every integer n. */
  lemma ParseIntOfDecimal(n: int)
    ensures ParseInt(IntToDecimal(n)) == Some(n)
  {
    StripOfDecimal(n);
    if n < 0 {
      assert ("-" + NatToDecimal(-n))[1..] == NatToDecimal(-n);
      DigitsValueOfDecimal(-n);
    } else {
      DigitsValueOfDecimal(n);
    }
  }

  /** A run of digits without a point reads as an unsigned decimal number
      of the same value. */
  lemma UnsignedRealOfDigits(s: string)
    requires |s| > 0 && AllDigits(s)
    ensures UnsignedReal(s) == Some(DigitsValue(s) as real)
  {
    var k := DotIndex(s);
    assert k == |s| by { DotIndexOfDigits(s); }
    assert s[..k] == s;
    var fraction: string := [];
    assert DigitsValue(fraction) as real / Pow10(|fraction|) as real == 0.0;
  }

  lemma DotIndexOfDigits(s: string)
    requires AllDigits(s)
    ensures DotIndex(s) == |s|
  {
    assert forall i :: 0 <= i < |s| ==> s[i] != '.';
  }

  /** Text that int() accepts, float() accepts too, with the same value. */
  lemma ParseRealOfParseInt(text: string)
    requires ParseInt(text).Some?
    ensures ParseReal(text) == Some(ParseInt(text).value as real)
  {
    var (negative, digits) := SplitSign(Strip(text));
    UnsignedRealOfDigits(digits);
  }

  /** The digits of d read as an unsigned decimal number give d. */
  lemma UnsignedRealOfDecimal(d: nat)
    ensures UnsignedReal(NatToDecimal(d)) == Some(d as real)
  {
    UnsignedRealOfDigits(NatToDecimal(d));
    DigitsValueOfDecimal(d);
  }

  /** float(str(n)) == n for every integer n. */
  lemma ParseRealOfDecimal(n: int)
    ensures ParseReal(IntToDecimal(n)) == Some(n as real)
  {
    StripOfDecimal(n);
    if n < 0 {
      assert ("-" + NatToDecimal(-n))[1..] == NatToDecimal(-n);
      UnsignedRealOfDecimal(-n);
    } else {
      UnsignedRealOfDecimal(n);
    }
  }
}
