/** Decimal rendering of non-negative integers, as Python's `str(n)` writes
    them: the customer id `str(count + 1)` and a coupon code `str(tag_id)`. */
module Decimal {

  predicate IsDigit(ch: char) {
    '0' <= ch <= '9'
  }

  predicate AllDigits(s: string) {
    forall k :: 0 <= k < |s| ==> IsDigit(s[k])
  }

  /** A canonical decimal numeral: non-empty, digits only, no leading zero. */
  predicate IsDecimal(s: string) {
    && |s| > 0
    && AllDigits(s)
    && (s[0] == '0' ==> |s| == 1)
  }

  function DigitChar(d: nat): (ch: char)
    requires d < 10
    ensures IsDigit(ch)
    ensures ch as int - '0' as int == d
  {
    ('0' as int + d) as char
  }

  /** The value a string of digits denotes (the reading `int(s)` gives it). */
  function StringToNat(s: string): nat
    requires AllDigits(s)
    decreases |s|
  {
    if s == [] then 0
    else 10 * StringToNat(s[..|s| - 1]) + (s[|s| - 1] as int - '0' as int)
  }

  /** `str(n)` for n >= 0. Its contract is the round trip through
      `StringToNat`, which also makes the rendering injective. */
  function NatToString(n: nat): (s: string)
    ensures IsDecimal(s)
    ensures StringToNat(s) == n
  {
    if n < 10 then
      [DigitChar(n)]
    else
      var p := NatToString(n / 10);
      var s := p + [DigitChar(n % 10)];
      assert s[..|s| - 1] == p;
      assert p[0] == '0' ==> p == ['0'] by {
        if p[0] == '0' {
          assert |p| == 1;
          assert p == [p[0]];
        }
      }
      s
  }
}
