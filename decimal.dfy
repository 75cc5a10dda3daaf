/** Decimal text: single-character digit conversion, `strconv.Itoa` on non-negative
    numbers, and the effect of trimming leading `'0'` characters. */
module Decimal {

  predicate IsDigit(c: char)
  {
    '0' <= c <= '9'
  }

  predicate AllDigits(s: string)
  {
    forall k :: 0 <= k < |s| ==> IsDigit(s[k])
  }

  /** What `strconv.Atoi` yields for a one-character string holding a decimal digit. */
  function CharValue(c: char): (v: int)
    requires IsDigit(c)
    ensures 0 <= v < 10
  {
    c as int - '0' as int
  }

  /** What `strconv.Itoa` yields for a number below ten. */
  function DigitChar(v: int): (c: char)
    requires 0 <= v < 10
    ensures IsDigit(c) && CharValue(c) == v
  {
    ('0' as int + v) as char
  }

  /** The number a decimal numeral denotes, most significant character first. */
  ghost function DecimalValue(s: string): nat
    requires AllDigits(s)
  {
    if |s| == 0 then 0 else 10 * DecimalValue(s[..|s| - 1]) + CharValue(s[|s| - 1])
  }

  /** `strconv.Itoa(n)` for `n >= 0`: the shortest decimal numeral of `n`. */
  function DecimalString(n: nat): (s: string)
    ensures AllDigits(s) && |s| >= 1
    ensures DecimalValue(s) == n
    ensures s[0] == '0' <==> n == 0
  {
    if n < 10 then [DigitChar(n)]
    else
      var hi, lo := DecimalString(n / 10), DigitChar(n % 10);
      assert (hi + [lo])[..|hi|] == hi;
      hi + [lo]
  }

  /** The effect of `strings.TrimLeftFunc` with a predicate that accepts only `'0'`:
      the longest suffix of `s` that does not start with `'0'`. */
  function TrimLeadingZeros(s: string): (r: string)
    ensures |r| <= |s| && r == s[|s| - |r|..]
    ensures forall k :: 0 <= k < |s| - |r| ==> s[k] == '0'
    ensures r == [] || r[0] != '0'
  {
    if |s| > 0 && s[0] == '0' then TrimLeadingZeros(s[1..]) else s
  }
}
