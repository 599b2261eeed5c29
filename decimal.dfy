/** Python's `str(int(n))` for an integer: optional `-`, then decimal digits without leading zeros. */
module Decimal {
  import opened Results

  predicate IsDigit(c: char)
  {
    '0' <= c <= '9'
  }

  predicate AllDigits(s: string)
  {
    forall k :: 0 <= k < |s| ==> IsDigit(s[k])
  }

  function DigitValue(c: char): (r: nat)
    requires IsDigit(c)
  {
    c as int - '0' as int
  }

  function DigitChar(d: nat): (c: char)
    requires d < 10
    ensures IsDigit(c) && DigitValue(c) == d
  {
    (d + '0' as int) as char
  }

  /** The digits of `n`, most significant first. */
  function NatDigits(n: nat): (s: string)
    ensures s != [] && AllDigits(s)
    ensures |s| > 1 ==> s[0] != '0'
    decreases n
  {
    if n < 10 then [DigitChar(n)] else NatDigits(n / 10) + [DigitChar(n % 10)]
  }

  /** `str(n)` for a Python `int`. */
  function IntToDecimal(n: int): (s: string)
    ensures s != [] && (s[0] == '-' || IsDigit(s[0]))
    ensures forall k :: 0 < k < |s| ==> IsDigit(s[k])
  {
    if n < 0 then "-" + NatDigits(-n) else NatDigits(n)
  }

  /** The value of a string of decimal digits. */
  function DigitsValue(s: string): (r: nat)
    requires AllDigits(s)
    decreases |s|
  {
    if s == [] then 0 else 10 * DigitsValue(s[..|s| - 1]) + DigitValue(s[|s| - 1])
  }

  /** Reads an optional `-` followed by at least one decimal digit. */
  function ParseDecimal(s: string): (r: Option<int>)
  {
    if s != [] && s[0] == '-' then
      if |s| > 1 && AllDigits(s[1..]) then Some(0 - DigitsValue(s[1..]) as int) else None
    else if s != [] && AllDigits(s) then Some(DigitsValue(s))
    else None
  }

  lemma {:induction false} NatDigitsRoundTrip(n: nat)
    ensures DigitsValue(NatDigits(n)) == n
    decreases n
  {
    if n >= 10 {
      var s := NatDigits(n);
      NatDigitsRoundTrip(n / 10);
      assert s[..|s| - 1] == NatDigits(n / 10);
    }
  }

  /** The text written for an integer reads back as that integer. */
  lemma {:induction false} IntToDecimalRoundTrip(n: int)
    ensures ParseDecimal(IntToDecimal(n)) == Some(n)
  {
    if n < 0 {
      NatDigitsRoundTrip(-n);
      assert IntToDecimal(n)[1..] == NatDigits(-n);
    } else {
      NatDigitsRoundTrip(n);
    }
  }
}
