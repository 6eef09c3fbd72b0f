/** Unsigned decimal numerals: `fmt`'s `%d` for the numbers written into a
    record, and `strconv.Atoi` for the digit runs read back out of one.
    The record grammar admits only digits, at most ten of them, so `Atoi`
    is only ever applied to digit strings and cannot overflow. */
module Decimal {

  predicate IsDigit(c: char) {
    '0' <= c <= '9'
  }

  predicate AllDigits(s: string) {
    forall i :: 0 <= i < |s| ==> IsDigit(s[i])
  }

  function Pow10(k: nat): (p: nat)
    ensures p >= 1
  {
    if k == 0 then 1 else 10 * Pow10(k - 1)
  }

  function DigitChar(d: nat): (c: char)
    requires d < 10
    ensures IsDigit(c)
  {
    ('0' as int + d) as char
  }

  function DigitValue(c: char): (d: nat)
    requires IsDigit(c)
    ensures d < 10 && DigitChar(d) == c
  {
    c as int - '0' as int
  }

  /** `strconv.Atoi` on a run of digits; leading zeros are allowed. A
      numeral of `|s|` digits is below `10^|s|`. */
  function ParseDecimal(s: string): (n: nat)
    requires AllDigits(s)
    ensures n < Pow10(|s|)
  {
    if |s| == 0 then 0
    else ParseDecimal(s[..|s| - 1]) * 10 + DigitValue(s[|s| - 1])
  }

  /** `%d` of a non-negative number: digits only, at least one, and no
      leading zero unless the number is zero. */
  function FormatDecimal(n: nat): (s: string)
    ensures AllDigits(s) && |s| >= 1
    ensures |s| > 1 ==> s[0] != '0'
  {
    if n < 10 then [DigitChar(n)]
    else FormatDecimal(n / 10) + [DigitChar(n % 10)]
  }

  /** Reading back a written number gives the number. */
  lemma {:induction false} ParseFormat(n: nat)
    ensures ParseDecimal(FormatDecimal(n)) == n
  {
    var s := FormatDecimal(n);
    if n >= 10 {
      ParseFormat(n / 10);
      assert s[..|s| - 1] == FormatDecimal(n / 10);
    }
  }

  /** A number below `10^k` is written with at most `k` digits. */
  lemma {:induction false} FormatLength(n: nat, k: nat)
    requires 1 <= k && n < Pow10(k)
    ensures |FormatDecimal(n)| <= k
  {
    if n >= 10 {
      FormatLength(n / 10, k - 1);
    }
  }

  /** Leading zeros do not change the value `strconv.Atoi` reads. */
  lemma {:induction false} LeadingZero(s: string)
    requires AllDigits(s)
    ensures AllDigits("0" + s) && ParseDecimal("0" + s) == ParseDecimal(s)
    decreases |s|
  {
    if |s| > 0 {
      var t := "0" + s;
      assert t[..|t| - 1] == "0" + s[..|s| - 1];
      LeadingZero(s[..|s| - 1]);
    }
  }
}
