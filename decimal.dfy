/** Decimal rendering of integers, as Python's f-string `f'{year}'` writes
    them, and the parse that undoes it. */
module Decimal {

  function DigitChar(n: int): char
    requires 0 <= n < 10
  {
    "0123456789"[n]
  }

  predicate IsDigit(c: char)
  {
    '0' <= c <= '9'
  }

  function DigitValue(c: char): int
    requires IsDigit(c)
  {
    c as int - '0' as int
  }

  /** Digits with no leading zero, except for the single digit `0`. */
  predicate CanonicalDigits(d: string)
  {
    && |d| > 0
    && (forall i :: 0 <= i < |d| ==> IsDigit(d[i]))
    && (d[0] == '0' ==> |d| == 1)
  }

  /** The way `str` writes an integer: canonical digits, with a minus sign
      before the digits of a number other than zero. */
  predicate CanonicalDecimal(s: string)
  {
    || CanonicalDigits(s)
    || (|s| > 1 && s[0] == '-' && CanonicalDigits(s[1..]) && s[1..] != "0")
  }

  /** Shortest decimal digits of `n`, most significant first. */
  function NatToString(n: nat): (s: string)
    ensures CanonicalDigits(s)
    ensures s[0] == '0' <==> n == 0
  {
    if n < 10 then [DigitChar(n)] else NatToString(n / 10) + [DigitChar(n % 10)]
  }

  /** `str(n)`: a minus sign before the digits of a negative number. */
  function IntToString(n: int): (s: string)
    ensures CanonicalDecimal(s)
    ensures s[0] == '-' <==> n < 0
  {
    if n < 0 then
      var digits := NatToString(-n);
      assert ("-" + digits)[1..] == digits;
      "-" + digits
    else NatToString(n)
  }

  /** Value of a string of decimal digits. */
  function ParseDigits(s: string): (v: int)
    requires forall i :: 0 <= i < |s| ==> IsDigit(s[i])
    ensures v >= 0
  {
    if s == [] then 0 else ParseDigits(s[..|s| - 1]) * 10 + DigitValue(s[|s| - 1])
  }

  /** Inverse of `IntToString`. */
  function ParseInt(s: string): int
  {
    if |s| > 0 && s[0] == '-' && forall i :: 1 <= i < |s| ==> IsDigit(s[i]) then
      -ParseDigits(s[1..])
    else if forall i :: 0 <= i < |s| ==> IsDigit(s[i]) then
      ParseDigits(s)
    else
      0
  }

  lemma {:induction false} NatRoundTrip(n: nat)
    ensures ParseDigits(NatToString(n)) == n
  {
    var s := NatToString(n);
    if n >= 10 {
      NatRoundTrip(n / 10);
      assert s[..|s| - 1] == NatToString(n / 10);
    }
  }

  /** Parsing what `IntToString` wrote gives the number back. */
  lemma IntRoundTrip(n: int)
    ensures ParseInt(IntToString(n)) == n
  {
    var s := IntToString(n);
    if n < 0 {
      var digits := NatToString(-n);
      assert s == "-" + digits;
      assert s[1..] == digits;
      assert ParseDigits(digits) == -n by { NatRoundTrip(-n); }
    } else {
      assert !(s[0] == '-') by { assert IsDigit(s[0]); }
      assert ParseDigits(s) == n by { NatRoundTrip(n); }
    }
  }

  /** Different numbers are written differently. */
  lemma IntToStringInjective(a: int, b: int)
    requires IntToString(a) == IntToString(b)
    ensures a == b
  {
    IntRoundTrip(a);
    IntRoundTrip(b);
  }

  /** Digits that do not start with `0` have a positive value. */
  lemma {:induction false} LeadingDigitPositive(d: string)
    requires CanonicalDigits(d) && d[0] != '0'
    ensures ParseDigits(d) >= 1
    decreases |d|
  {
    if |d| > 1 {
      var front := d[..|d| - 1];
      assert front[0] == d[0];
      LeadingDigitPositive(front);
    }
  }

  /** Canonical digits are the rendering of their value. */
  lemma {:induction false} DigitsRoundTrip(d: string)
    requires CanonicalDigits(d)
    ensures NatToString(ParseDigits(d)) == d
    decreases |d|
  {
    var n := |d| - 1;
    if n == 0 {
      DigitCharValue(d[0]);
    } else {
      var front := d[..n];
      assert front[0] == d[0];
      DigitsRoundTrip(front);
      DigitsStep(d, front);
    }
  }

  /** One more digit after a prefix that is the rendering of its value. */
  lemma DigitsStep(d: string, front: string)
    requires CanonicalDigits(d) && |d| > 1 && front == d[..|d| - 1]
    requires NatToString(ParseDigits(front)) == front
    ensures NatToString(ParseDigits(d)) == d
  {
    var n := |d| - 1;
    var a, r := ParseDigits(front), DigitValue(d[n]);
    assert ParseDigits(d) == a * 10 + r;
    assert NatToString(a * 10 + r) == front + [d[n]] by {
      assert front[0] == d[0];
      LeadingDigitPositive(front);
      DigitCharValue(d[n]);
      NatToStringSnoc(a, r);
    }
    assert d == front + [d[n]];
  }

  lemma DigitCharValue(c: char)
    requires IsDigit(c)
    ensures DigitChar(DigitValue(c)) == c
  {
  }

  /** Appending digit `r` to a number `a >= 1` appends its character. */
  lemma NatToStringSnoc(a: nat, r: int)
    requires a >= 1 && 0 <= r < 10
    ensures NatToString(a * 10 + r) == NatToString(a) + [DigitChar(r)]
  {
    LastDigit(a, r);
  }

  /** Appending digit `r` to a number `a >= 1` gives a number of at least
      two digits whose quotient by ten is `a` and remainder `r`. */
  lemma LastDigit(a: int, r: int)
    requires a >= 1 && 0 <= r < 10
    ensures a * 10 + r >= 10 && (a * 10 + r) / 10 == a && (a * 10 + r) % 10 == r
  {
  }

  /** A canonical decimal is the rendering of its value: `str` writes each
      integer in exactly one way, and that way is the canonical one. */
  lemma DecimalRoundTrip(s: string)
    requires CanonicalDecimal(s)
    ensures IntToString(ParseInt(s)) == s
  {
    if CanonicalDigits(s) {
      assert s[0] != '-';
      DigitsRoundTrip(s);
    } else {
      NegativeRoundTrip(s);
    }
  }

  lemma NegativeRoundTrip(s: string)
    requires |s| > 1 && s[0] == '-' && CanonicalDigits(s[1..]) && s[1..] != "0"
    ensures IntToString(ParseInt(s)) == s
  {
    var d := s[1..];
    assert forall i :: 1 <= i < |s| ==> IsDigit(s[i]) by {
      forall i | 1 <= i < |s| ensures IsDigit(s[i]) {
        assert s[i] == d[i - 1];
      }
    }
    assert ParseInt(s) == -ParseDigits(d);
    LeadingDigitPositive(d);
    DigitsRoundTrip(d);
    assert s == "-" + d;
  }
}
