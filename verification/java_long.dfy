/**
 Decimal text of a Java `long`: String.valueOf(long) and Long.parseLong(String).
 The eBilet mapper writes epoch seconds with the first; the ingestion service
 reads them back with the second.
 */
module JavaLong {
  import opened Wrappers

  const LONG_MIN: int := -0x8000_0000_0000_0000
  const LONG_MAX: int := 0x7FFF_FFFF_FFFF_FFFF

  predicate InLongRange(n: int) {
    LONG_MIN <= n <= LONG_MAX
  }

  predicate IsDigit(c: char) {
    '0' <= c <= '9'
  }

  predicate AllDigits(s: string) {
    forall i :: 0 <= i < |s| ==> IsDigit(s[i])
  }

  function DigitValue(c: char): nat
    requires IsDigit(c)
  {
    (c as int - '0' as int) as nat
  }

  function DigitChar(d: nat): (c: char)
    requires d < 10
    ensures IsDigit(c) && DigitValue(c) == d
  {
    ('0' as int + d) as char
  }

  /** The value of a run of decimal digits, most significant first. */
  function DigitsValue(s: string): nat
    requires AllDigits(s)
  {
    if |s| == 0 then 0
    else DigitsValue(s[..|s| - 1]) * 10 + DigitValue(s[|s| - 1])
  }

  /** The shortest digit run of `n`: no leading zero, "0" for zero. */
  function DigitsOf(n: nat): (r: string)
    ensures |r| >= 1 && AllDigits(r)
    ensures |r| > 1 ==> r[0] != '0'
    ensures DigitsValue(r) == n
  {
    if n < 10 then [DigitChar(n)]
    else
      var r := DigitsOf(n / 10) + [DigitChar(n % 10)];
      assert r[..|r| - 1] == DigitsOf(n / 10);
      r
  }

  /** String.valueOf(long). */
  function DecimalText(n: int): (r: string)
    ensures |r| >= 1
    ensures n >= 0 ==> AllDigits(r)
    ensures n < 0 ==> r[0] == '-' && AllDigits(r[1..])
  {
    if n < 0 then "-" + DigitsOf(-n) else DigitsOf(n)
  }

  /** Long.parseLong: an optional sign, then at least one ASCII digit, and a
      value that fits in 64 bits; anything else is a NumberFormatException (None). */
  function ParseLong(s: string): (r: Option<int>)
    ensures r.Some? ==> InLongRange(r.value)
    ensures r.Some? ==> |s| >= 1 && (IsDigit(s[0]) || s[0] == '-' || s[0] == '+')
    ensures AllDigits(s) && |s| >= 1 && DigitsValue(s) <= LONG_MAX ==> r == Some(DigitsValue(s))
  {
    if |s| == 0 then None
    else
      var negative := s[0] == '-';
      var digits := if s[0] == '-' || s[0] == '+' then s[1..] else s;
      if |digits| == 0 || !AllDigits(digits) then None
      else
        var v: int := if negative then 0 - DigitsValue(digits) else DigitsValue(digits);
        if InLongRange(v) then Some(v) else None
  }

  /** Every long printed by String.valueOf parses back to itself. */
  lemma DecimalTextRoundTrip(n: int)
    requires InLongRange(n)
    ensures ParseLong(DecimalText(n)) == Some(n)
  {
    if n < 0 {
      var t := DecimalText(n);
      assert t[1..] == DigitsOf(-n);
    }
  }
}
