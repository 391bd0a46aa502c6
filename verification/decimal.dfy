/** Decimal text of integers, as produced by template-literal interpolation
    of a bigint or number and as read back by `BigInt(...)` and `Number(...)`
    on a string of ASCII digits with an optional leading minus sign. */
module Decimal {

  predicate IsDigit(ch: char) {
    '0' <= ch <= '9'
  }

  /** Every character is an ASCII digit (the regular-expression class \d). */
  predicate AllDigits(s: string) {
    forall k :: 0 <= k < |s| ==> IsDigit(s[k])
  }

  /** The digit character of a value below ten. */
  function DigitChar(d: nat): (ch: char)
    requires d < 10
    ensures IsDigit(ch) && ch as int - '0' as int == d
  {
    (d + '0' as int) as char
  }

  /** The value of a string of digits, most significant first; the empty
      string reads as 0 and leading zeros are allowed. */
  function DigitsValue(s: string): nat
    requires AllDigits(s)
  {
    if |s| == 0 then 0
    else DigitsValue(s[..|s| - 1]) * 10 + (s[|s| - 1] as int - '0' as int)
  }

  /** The shortest decimal text of x: no leading zero unless x is 0. */
  function NatText(x: nat): (s: string)
    ensures |s| > 0 && AllDigits(s)
    ensures s[0] == '0' <==> x == 0
  {
    if x < 10 then [DigitChar(x)]
    else NatText(x / 10) + [DigitChar(x % 10)]
  }

  /** Reading the text of x back gives x. */
  lemma {:induction false} NatTextValue(x: nat)
    ensures DigitsValue(NatText(x)) == x
  {
    if x >= 10 {
      var s := NatText(x);
      assert s[..|s| - 1] == NatText(x / 10);
      NatTextValue(x / 10);
    }
  }

  /** Text of x is the text of x / 10 followed by the last digit, so the
      texts of distinct values differ. */
  lemma NatTextInjective(x: nat, y: nat)
    requires NatText(x) == NatText(y)
    ensures x == y
  {
    NatTextValue(x);
    NatTextValue(y);
  }

  /** The forms matched by -?\d*: an optional minus sign followed by
      digits, either of which may be missing. */
  predicate SignedDigits(s: string) {
    if |s| > 0 && s[0] == '-' then AllDigits(s[1..]) else AllDigits(s)
  }

  /** `BigInt(s)` for a string matched by -?\d* other than "-". */
  function SignedValue(s: string): int
    requires SignedDigits(s) && s != "-"
  {
    if |s| > 0 && s[0] == '-' then -(DigitsValue(s[1..]) as int) else DigitsValue(s)
  }
}
