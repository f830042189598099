/**
 * Decimal digit strings: formatting integers as text (`f"{n:06d}"`, `str(n)`)
 * and reading them back (`int(s)`), as the session codes, the cards and the
 * stored final values of stories use them.
 */
module Decimal {

  import opened Options

  predicate IsDigit(c: char) {
    '0' <= c <= '9'
  }

  predicate AllDigits(s: string) {
    forall i :: 0 <= i < |s| ==> IsDigit(s[i])
  }

  /** A non-empty run of ASCII digits: the card texts that count as numbers. */
  predicate IsNumeral(s: string) {
    |s| > 0 && AllDigits(s)
  }

  function Pow10(k: nat): (p: nat)
    ensures p >= 1
  {
    if k == 0 then 1 else 10 * Pow10(k - 1)
  }

  function DigitChar(d: nat): (c: char)
    requires d < 10
    ensures IsDigit(c) && c as int - '0' as int == d
  {
    ('0' as int + d) as char
  }

  function DigitValue(c: char): (d: nat)
    requires IsDigit(c)
    ensures d < 10 && DigitChar(d) == c
  {
    c as int - '0' as int
  }

  /** The number a string of digits denotes, most significant digit first. */
  function Value(s: string): (n: nat)
    requires AllDigits(s)
    ensures n < Pow10(|s|)
  {
    if s == [] then 0
    else
      var prefix := s[..|s| - 1];
      var high := Value(prefix);
      assert high * 10 + 9 < Pow10(|s|) by {
        assert high + 1 <= Pow10(|prefix|);
        assert (high + 1) * 10 <= Pow10(|prefix|) * 10;
      }
      high * 10 + DigitValue(s[|s| - 1])
  }

  /** `n` written with exactly `width` digits, padded on the left with zeros. */
  function PadDigits(n: nat, width: nat): (s: string)
    requires n < Pow10(width)
    ensures |s| == width && AllDigits(s)
    ensures Value(s) == n
  {
    if width == 0 then []
    else
      var high := PadDigits(n / 10, width - 1);
      var s := high + [DigitChar(n % 10)];
      assert s[..|s| - 1] == high;
      s
  }

  /** Every string of digits is the padded form of its own value. */
  lemma {:induction false} PadDigitsOfValue(s: string)
    requires AllDigits(s)
    ensures PadDigits(Value(s), |s|) == s
  {
    if s != [] {
      var prefix := s[..|s| - 1];
      var n := Value(s);
      assert n / 10 == Value(prefix) && n % 10 == DigitValue(s[|s| - 1]);
      PadDigitsOfValue(prefix);
      assert s == prefix + [s[|s| - 1]];
    }
  }

  /** `str(n)` for a natural number: the shortest decimal form, no leading zero. */
  function Show(n: nat): (s: string)
    ensures IsNumeral(s) && Value(s) == n
    ensures |s| > 1 ==> s[0] != '0'
    decreases n
  {
    if n < 10 then [DigitChar(n)]
    else
      var high := Show(n / 10);
      var s := high + [DigitChar(n % 10)];
      assert s[..|s| - 1] == high;
      s
  }

  /** `str(i)` for any integer: a minus sign before the digits of a negative number. */
  function ShowInt(i: int): (s: string)
    ensures |s| > 0
  {
    if i < 0 then "-" + Show(-i) else Show(i)
  }

  /** `int(s)` restricted to an optional minus sign followed by digits. */
  function ParseInt(s: string): (r: Option<int>)
    ensures r.Some? ==> |s| > 0
  {
    if |s| > 0 && s[0] == '-' && IsNumeral(s[1..]) then Some(-(Value(s[1..]) as int))
    else if IsNumeral(s) then Some(Value(s))
    else None
  }

  /** Writing an integer and reading it back gives the integer. */
  lemma ShowIntRoundTrip(i: int)
    ensures ParseInt(ShowInt(i)) == Some(i)
  {
    if i < 0 {
      var s := ShowInt(i);
      assert s[1..] == Show(-i);
    } else {
      assert ShowInt(i)[0] != '-';
    }
  }

  /** Distinct integers are written differently. */
  lemma ShowIntInjective(i: int, j: int)
    ensures ShowInt(i) == ShowInt(j) ==> i == j
  {
    ShowIntRoundTrip(i);
    ShowIntRoundTrip(j);
  }
}
