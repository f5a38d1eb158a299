/** Character and string helpers restricted to ASCII: decimal digits, the
    decimal value of a digit run (Python's `int()` on such a run), ASCII
    lower-casing and suffix tests. */
module Text {

  predicate IsDigit(c: char) {
    '0' <= c <= '9'
  }

  /** Every character of `s` in the half-open range [lo, hi) is a digit. */
  predicate DigitsIn(s: string, lo: int, hi: int)
    requires 0 <= lo <= hi <= |s|
  {
    forall k :: lo <= k < hi ==> IsDigit(s[k])
  }

  predicate AllDigits(s: string) {
    DigitsIn(s, 0, |s|)
  }

  function DigitValue(c: char): (d: nat)
    requires IsDigit(c)
    ensures d < 10
  {
    (c as int) - ('0' as int)
  }

  function DigitChar(d: nat): (c: char)
    requires d < 10
    ensures IsDigit(c) && DigitValue(c) == d
  {
    (('0' as int) + d) as char
  }

  /** The value of a run of decimal digits, most significant digit first. */
  function DigitsValue(s: string): nat
    requires AllDigits(s)
  {
    if |s| == 0 then 0 else 10 * DigitsValue(s[..|s| - 1]) + DigitValue(s[|s| - 1])
  }

  /** The canonical decimal spelling of `n` (Python's `str(n)`): no leading
      zero except for zero itself, and `int()` reads it back as `n`. */
  function Decimal(n: nat): (s: string)
    ensures 0 < |s| && AllDigits(s)
    ensures s[0] == '0' <==> n == 0
    ensures DigitsValue(s) == n
  {
    if n < 10 then [DigitChar(n)]
    else
      var front := Decimal(n / 10);
      var s := front + [DigitChar(n % 10)];
      assert s[..|s| - 1] == front;
      s
  }

  /** Leading zeros do not change the value of a digit run: `int("007") == 7`. */
  lemma {:induction false} LeadingZerosDropped(zeros: string, s: string)
    requires forall k :: 0 <= k < |zeros| ==> zeros[k] == '0'
    requires AllDigits(s)
    ensures AllDigits(zeros + s)
    ensures DigitsValue(zeros + s) == DigitsValue(s)
  {
    var t := zeros + s;
    assert forall k :: 0 <= k < |t| ==> IsDigit(t[k]) by {
      forall k | 0 <= k < |t| ensures IsDigit(t[k]) {
        if k < |zeros| { assert t[k] == zeros[k]; } else { assert t[k] == s[k - |zeros|]; }
      }
    }
    if |s| == 0 {
      assert t == zeros;
      AllZerosValue(zeros);
    } else {
      var s' := s[..|s| - 1];
      assert AllDigits(s');
      LeadingZerosDropped(zeros, s');
      assert t[..|t| - 1] == zeros + s';
      assert t[|t| - 1] == s[|s| - 1];
    }
  }

  /** A run made only of zeros is worth zero. */
  lemma {:induction false} AllZerosValue(zeros: string)
    requires forall k :: 0 <= k < |zeros| ==> zeros[k] == '0'
    ensures AllDigits(zeros)
    ensures DigitsValue(zeros) == 0
  {
    if |zeros| > 0 {
      AllZerosValue(zeros[..|zeros| - 1]);
    }
  }

  /** ASCII lower-casing of one character; every other character is unchanged. */
  function LowerChar(c: char): char {
    if 'A' <= c <= 'Z' then ((c as int) + 32) as char else c
  }

  /** ASCII lower-casing of a string (Python's `str.lower()` on ASCII text). */
  function Lower(s: string): (r: string)
    ensures |r| == |s|
  {
    seq(|s|, k requires 0 <= k < |s| => LowerChar(s[k]))
  }

  predicate EndsWith(s: string, suffix: string) {
    |suffix| <= |s| && s[|s| - |suffix|..] == suffix
  }
}
