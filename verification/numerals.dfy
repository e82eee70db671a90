/** Decimal text of Java `long` values: `Long.toString` and `Long.parseLong` (radix 10). */
module Numerals {
  import opened Results

  const LONG_MIN: int := -0x8000_0000_0000_0000
  const LONG_MAX: int := 0x7FFF_FFFF_FFFF_FFFF

  /** The range of a Java `long`. */
  predicate InLong(x: int) {
    LONG_MIN <= x <= LONG_MAX
  }

  predicate IsDigit(c: char) {
    '0' <= c <= '9'
  }

  predicate AllDigits(s: string) {
    forall i :: 0 <= i < |s| ==> IsDigit(s[i])
  }

  function DigitChar(d: nat): (c: char)
    requires d < 10
    ensures IsDigit(c) && c as int - '0' as int == d
  {
    ('0' as int + d) as char
  }

  function DigitValue(c: char): (d: nat)
    requires IsDigit(c)
    ensures d < 10
  {
    c as int - '0' as int
  }

  /** The decimal digits of `n`, most significant first, without leading zeros. */
  function NatDigits(n: nat): (s: string)
    ensures 1 <= |s| && AllDigits(s)
    ensures s[0] == '0' ==> n == 0
  {
    if n < 10 then [DigitChar(n)] else NatDigits(n / 10) + [DigitChar(n % 10)]
  }

  /** The number a string of digits denotes (leading zeros allowed). */
  function DigitsValue(s: string): nat
    requires AllDigits(s)
  {
    if |s| == 0 then 0 else 10 * DigitsValue(s[..|s| - 1]) + DigitValue(s[|s| - 1])
  }

  lemma {:induction false} DigitsValueOfNatDigits(n: nat)
    ensures DigitsValue(NatDigits(n)) == n
  {
    if n >= 10 {
      var s := NatDigits(n / 10) + [DigitChar(n % 10)];
      assert s[..|s| - 1] == NatDigits(n / 10);
      DigitsValueOfNatDigits(n / 10);
    }
  }

  /** `Long.toString(x)`, which is also what `x + ","` produces for a long `x`. */
  function LongToString(x: int): (s: string)
    ensures 1 <= |s|
    ensures forall i :: 0 <= i < |s| ==> IsDigit(s[i]) || (i == 0 && s[i] == '-')
    ensures s[0] == '-' <==> x < 0
    ensures var u := if x < 0 then s[1..] else s; 1 <= |u| && (u[0] == '0' ==> u == "0")
  {
    if x < 0 then "-" + NatDigits(-x) else NatDigits(x)
  }

  /** `Long.parseLong(s)`: an optional sign followed by at least one digit, within the long range;
      `None` where Java throws NumberFormatException. */
  function ParseLong(s: string): (r: Option<int>)
    ensures r.Some? ==> InLong(r.value)
    ensures r.Some? ==> 1 <= |s| && forall i :: 0 < i < |s| ==> IsDigit(s[i])
    ensures r.Some? && r.value < 0 ==> s[0] == '-'
    ensures r.Some? ==>
      || (AllDigits(s) && r.value == DigitsValue(s))
      || (2 <= |s| && s[0] == '+' && AllDigits(s[1..]) && r.value == DigitsValue(s[1..]))
      || (2 <= |s| && s[0] == '-' && AllDigits(s[1..]) && r.value == -(DigitsValue(s[1..]) as int))
    ensures 1 <= |s| && AllDigits(s) && DigitsValue(s) <= LONG_MAX ==> r == Some(DigitsValue(s))
    ensures 2 <= |s| && (s[0] == '-' || s[0] == '+') && AllDigits(s[1..]) ==>
      var magnitude: int := DigitsValue(s[1..]);
      && (s[0] == '-' && magnitude <= -LONG_MIN ==> r == Some(-magnitude))
      && (s[0] == '+' && magnitude <= LONG_MAX ==> r == Some(magnitude))
  {
    if |s| == 0 then None
    else
      var digits := if s[0] == '-' || s[0] == '+' then s[1..] else s;
      if |digits| == 0 || !AllDigits(digits) then None
      else
        var magnitude: int := DigitsValue(digits);
        var v: int := if s[0] == '-' then -magnitude else magnitude;
        if InLong(v) then Some(v) else None
  }

  /** Parsing the text of a long gives the long back. */
  lemma ParseLongOfLongToString(x: int)
    requires InLong(x)
    ensures ParseLong(LongToString(x)) == Some(x)
  {
    var s := LongToString(x);
    if x < 0 {
      var digits := NatDigits(-x);
      assert s[0] == '-' && s[1..] == digits;
      DigitsValueOfNatDigits(-x);
    } else {
      var digits := NatDigits(x);
      assert s == digits && IsDigit(s[0]);
      DigitsValueOfNatDigits(x);
    }
  }

  /** Distinct longs have distinct texts. */
  lemma LongToStringInjective(x: int, y: int)
    requires InLong(x) && InLong(y)
    requires LongToString(x) == LongToString(y)
    ensures x == y
  {
    ParseLongOfLongToString(x);
    ParseLongOfLongToString(y);
  }
}
