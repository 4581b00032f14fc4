/** Decimal numbers as `snprintf("%u")` writes them and as `sscanf("%u")` reads their digits. */
module Decimal {

  predicate IsDigit(c: char) {
    '0' <= c <= '9'
  }

  /** Every character of `ds` is a decimal digit (checked from the last one back). */
  predicate AllDigits(ds: string) {
    |ds| == 0 || (AllDigits(ds[..|ds| - 1]) && IsDigit(ds[|ds| - 1]))
  }

  lemma {:induction false} AllDigitsAt(ds: string, k: nat)
    requires AllDigits(ds) && k < |ds|
    ensures IsDigit(ds[k])
  {
    if k < |ds| - 1 {
      AllDigitsAt(ds[..|ds| - 1], k);
    }
  }

  lemma {:induction false} AllDigitsTail(ds: string)
    requires AllDigits(ds) && |ds| > 0
    ensures AllDigits(ds[1..])
  {
    if |ds| > 1 {
      AllDigitsTail(ds[..|ds| - 1]);
      assert ds[1..][..|ds[1..]| - 1] == ds[..|ds| - 1][1..];
    }
  }

  function DigitChar(d: nat): (c: char)
    requires d < 10
    ensures IsDigit(c)
  {
    ('0' as nat + d) as char
  }

  /** The value of a digit character; `strtoul` never reads anything else. */
  function DigitOf(c: char): (d: nat)
    ensures d < 10
    ensures IsDigit(c) ==> DigitChar(d) == c
  {
    if IsDigit(c) then c as nat - '0' as nat else 0
  }

  /** `%u`: the shortest decimal representation, no sign, no leading zero. */
  function DecimalString(n: nat): string {
    if n < 10 then [DigitChar(n)] else DecimalString(n / 10) + [DigitChar(n % 10)]
  }

  /** The value of a run of decimal digits, most significant first. */
  function DigitsValue(ds: string): nat
  {
    if |ds| == 0 then 0
    else DigitsValue(ds[..|ds| - 1]) * 10 + DigitOf(ds[|ds| - 1])
  }

  lemma {:induction false} DecimalStringDigits(n: nat)
    ensures |DecimalString(n)| >= 1
    ensures AllDigits(DecimalString(n))
  {
    if n >= 10 {
      DecimalStringDigits(n / 10);
      assert DecimalString(n)[..|DecimalString(n)| - 1] == DecimalString(n / 10);
    }
  }

  /** Reading back what `%u` wrote gives the number. */
  lemma {:induction false} DigitsValueOfDecimalString(n: nat)
    ensures |DecimalString(n)| >= 1
    ensures AllDigits(DecimalString(n))
    ensures DigitsValue(DecimalString(n)) == n
  {
    DecimalStringDigits(n);
    if n >= 10 {
      var s := DecimalString(n);
      DigitsValueOfDecimalString(n / 10);
      assert s[..|s| - 1] == DecimalString(n / 10);
    }
  }
}
