/**
 Decimal text of non-negative integers: JavaScript's `String(n)` for a
 whole number below 10^21, `padStart` with a one-character fill, and the inverse
 reading of a run of digits.
 */
module Decimal {

  predicate IsDigit(c: char) {
    '0' <= c <= '9'
  }

  predicate AllDigits(s: string) {
    forall i :: 0 <= i < |s| ==> IsDigit(s[i])
  }

  function DigitValue(c: char): nat
    requires IsDigit(c)
  {
    c as int - '0' as int
  }

  function DigitChar(d: nat): (c: char)
    requires d < 10
    ensures IsDigit(c) && DigitValue(c) == d
  {
    ('0' as int + d) as char
  }

  /** The number a string of digits denotes, most significant digit first;
      leading zeros are allowed and contribute nothing. */
  function ParseDigits(s: string): nat
    requires AllDigits(s)
    decreases |s|
  {
    if |s| == 0 then 0 else ParseDigits(s[..|s| - 1]) * 10 + DigitValue(s[|s| - 1])
  }

  /** `String(n)` for a whole number 0 <= n < 10^21 (JavaScript switches to
      exponent form from 10^21 up): the shortest decimal numeral. */
  function ToDecimal(n: nat): (r: string)
    ensures 1 <= |r|
    ensures AllDigits(r)
    ensures ParseDigits(r) == n
    ensures r[0] == '0' ==> n == 0
    ensures |r| == 1 <==> n < 10
    ensures |r| == 2 <==> 10 <= n < 100
    decreases n
  {
    if n < 10 then [DigitChar(n)]
    else
      var prefix := ToDecimal(n / 10);
      var r := prefix + [DigitChar(n % 10)];
      assert r[..|r| - 1] == prefix;
      r
  }

  /** A numeral without superfluous leading zeros. */
  predicate Canonical(s: string) {
    1 <= |s| && AllDigits(s) && (s[0] == '0' ==> |s| == 1)
  }

  /** `s.padStart(width, fill)`: prefixes copies of `fill` until the text is
      `width` long; text already that long is returned as it is. */
  function PadStart(s: string, width: nat, fill: char): (r: string)
    ensures |r| == if |s| >= width then |s| else width
    ensures r[|r| - |s|..] == s
    ensures forall i :: 0 <= i < |r| - |s| ==> r[i] == fill
  {
    if |s| >= width then s else seq(width - |s|, _ => fill) + s
  }

  /** Two-digit zero padding, as every field of a displayed time uses. */
  function Pad2(s: string): string {
    PadStart(s, 2, '0')
  }

  lemma {:induction false} ParseDigitsAppend(s: string, c: char)
    requires AllDigits(s) && IsDigit(c)
    ensures AllDigits(s + [c])
    ensures ParseDigits(s + [c]) == ParseDigits(s) * 10 + DigitValue(c)
  {
    assert (s + [c])[..|s|] == s;
  }

  lemma {:induction false} ZerosDenoteZero(z: string)
    requires forall i :: 0 <= i < |z| ==> z[i] == '0'
    ensures AllDigits(z) && ParseDigits(z) == 0
    decreases |z|
  {
    if |z| > 0 {
      ZerosDenoteZero(z[..|z| - 1]);
    }
  }

  /** Leading zeros do not change the value of a numeral. */
  lemma {:induction false} LeadingZeros(z: string, s: string)
    requires forall i :: 0 <= i < |z| ==> z[i] == '0'
    requires AllDigits(s)
    ensures AllDigits(z + s) && ParseDigits(z + s) == ParseDigits(s)
    decreases |s|
  {
    if |s| == 0 {
      assert z + s == z;
      ZerosDenoteZero(z);
    } else {
      var p := s[..|s| - 1];
      LeadingZeros(z, p);
      assert z + s == (z + p) + [s[|s| - 1]];
      ParseDigitsAppend(z + p, s[|s| - 1]);
      ParseDigitsAppend(p, s[|s| - 1]);
      assert p + [s[|s| - 1]] == s;
    }
  }

  /** Zero padding keeps the value a field denotes. */
  lemma PadStartKeepsValue(s: string, width: nat)
    requires AllDigits(s)
    ensures AllDigits(PadStart(s, width, '0'))
    ensures ParseDigits(PadStart(s, width, '0')) == ParseDigits(s)
  {
    var r := PadStart(s, width, '0');
    var z := r[..|r| - |s|];
    assert r == z + s;
    LeadingZeros(z, s);
  }

  lemma {:induction false} LeadingDigitBound(s: string)
    requires 1 <= |s| && AllDigits(s)
    ensures ParseDigits(s) >= DigitValue(s[0])
    decreases |s|
  {
    if |s| > 1 {
      LeadingDigitBound(s[..|s| - 1]);
    }
  }

  /** `ToDecimal` is the inverse of `ParseDigits` on canonical numerals, and
      every numeral it produces is canonical. */
  lemma {:induction false} DecimalInverse(s: string)
    requires Canonical(s)
    ensures ToDecimal(ParseDigits(s)) == s
    decreases |s|
  {
    if |s| > 1 {
      var p := s[..|s| - 1];
      var c := s[|s| - 1];
      assert p[0] == s[0];
      LeadingDigitBound(p);
      DecimalInverse(p);
      var n := ParseDigits(s);
      assert n == ParseDigits(p) * 10 + DigitValue(c);
      assert n / 10 == ParseDigits(p) && n % 10 == DigitValue(c);
      assert s == p + [c];
    }
  }

  /** Distinct numbers have distinct numerals. */
  lemma ToDecimalInjective(a: nat, b: nat)
    ensures ToDecimal(a) == ToDecimal(b) <==> a == b
  {
  }
}
