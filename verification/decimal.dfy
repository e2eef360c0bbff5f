/** Python's `str(n)` and `int(s)` on integers, as far as the model needs
    them: user ids travel as decimal strings in token subjects and in the
    key-value store, and are read back with `int(...)`. */
module Decimal {
  import opened Wrappers

  predicate IsDigit(c: char) {
    '0' <= c <= '9'
  }

  predicate AllDigits(s: string) {
    forall i :: 0 <= i < |s| ==> IsDigit(s[i])
  }

  function DigitChar(d: int): (c: char)
    requires 0 <= d < 10
    ensures IsDigit(c)
  {
    ('0' as int + d) as char
  }

  function DigitValue(c: char): int
    requires IsDigit(c)
  {
    c as int - '0' as int
  }

  /** The decimal digits of a natural number, most significant first. */
  function NatDigits(n: nat): (s: string)
    ensures |s| >= 1 && AllDigits(s)
    ensures |s| > 1 ==> s[0] != '0'
  {
    if n < 10 then [DigitChar(n)] else NatDigits(n / 10) + [DigitChar(n % 10)]
  }

  /** The number a string of decimal digits denotes. */
  function DigitsValue(s: string): nat
    requires AllDigits(s)
  {
    if |s| == 0 then 0 else 10 * DigitsValue(s[..|s| - 1]) + DigitValue(s[|s| - 1])
  }

  /** `str(n)`: a minus sign for negatives, then the digits without leading zeros. */
  function Show(n: int): string
  {
    if n < 0 then "-" + NatDigits(-n) else NatDigits(n)
  }

  /** `int(s)` for an optional sign followed by ASCII digits; `None` where
      Python raises `ValueError`. */
  function Parse(s: string): Option<int>
  {
    if |s| > 0 && (s[0] == '-' || s[0] == '+') then
      var body := s[1..];
      if |body| > 0 && AllDigits(body) then
        Some(if s[0] == '-' then 0 - DigitsValue(body) as int else DigitsValue(body))
      else None
    else if |s| > 0 && AllDigits(s) then Some(DigitsValue(s))
    else None
  }

  lemma {:induction false} DigitsValueNatDigits(n: nat)
    ensures DigitsValue(NatDigits(n)) == n
  {
    if n >= 10 {
      var s := NatDigits(n);
      assert s[..|s| - 1] == NatDigits(n / 10);
      DigitsValueNatDigits(n / 10);
    }
  }

  /** `int` of a plain run of digits. */
  lemma ParseDigits(s: string)
    requires |s| > 0 && AllDigits(s)
    ensures Parse(s) == Some(DigitsValue(s))
  {
    assert IsDigit(s[0]);
  }

  /** `int` of a minus sign followed by digits. */
  lemma ParseNegative(s: string)
    requires |s| > 0 && AllDigits(s)
    ensures Parse("-" + s) == Some(0 - DigitsValue(s) as int)
  {
    assert ("-" + s)[1..] == s;
  }

  /** Round trip: `int(str(n)) == n`. */
  lemma ParseShow(n: int)
    ensures Parse(Show(n)) == Some(n)
  {
    if n < 0 {
      ParseNegative(NatDigits(-n));
      DigitsValueNatDigits(-n);
    } else {
      ParseDigits(NatDigits(n));
      DigitsValueNatDigits(n);
    }
  }

  /** Distinct integers have distinct decimal renderings. */
  lemma ShowInjective(m: int, n: int)
    requires Show(m) == Show(n)
    ensures m == n
  {
    ParseShow(m);
    ParseShow(n);
  }
}
