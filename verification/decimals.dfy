/** The slice of `java.math.BigDecimal` the broker poller uses: exact addition, division by a
    count rounded half-up to a fixed scale, and `toString` of the result. A decimal is an
    unscaled integer and a scale: its value is `unscaled * 10^-scale`. */
module Decimals {
  import opened Numerals

  datatype Decimal = Decimal(unscaled: int, scale: int)

  /** The fixed number of fractional digits of an average throughput. */
  const AVERAGE_SCALE: nat := 5

  function Pow10(k: nat): (r: nat)
    ensures 1 <= r
  {
    if k == 0 then 1 else 10 * Pow10(k - 1)
  }

  lemma {:induction false} Pow10Add(a: nat, b: nat)
    ensures Pow10(a + b) == Pow10(a) * Pow10(b)
  {
    if a > 0 {
      Pow10Add(a - 1, b);
      assert Pow10(a + b) == 10 * Pow10(a - 1 + b);
    }
  }

  function Abs(x: int): nat {
    if x < 0 then -x else x
  }

  /** The scale of the running total: it starts as `new BigDecimal(0)` (scale 0) and each `add`
      takes the larger scale. */
  function MaxScale(ds: seq<Decimal>): (s: nat)
    ensures forall i :: 0 <= i < |ds| ==> ds[i].scale <= s
  {
    if |ds| == 0 then 0
    else
      var p := MaxScale(ds[..|ds| - 1]);
      if ds[|ds| - 1].scale > p then ds[|ds| - 1].scale else p
  }

  /** Reference value of a sum: the exact total of `ds`, counted in units of `10^-s`. */
  function ExactSum(ds: seq<Decimal>, s: int): int
    requires forall i :: 0 <= i < |ds| ==> ds[i].scale <= s
  {
    if |ds| == 0 then 0
    else ExactSum(ds[..|ds| - 1], s) + ds[|ds| - 1].unscaled * Pow10(s - ds[|ds| - 1].scale)
  }

  lemma MulAssoc(a: int, b: int, c: int)
    ensures a * (b * c) == (a * b) * c
  {
  }

  lemma MulDistrib(a: int, b: int, c: int)
    ensures (a + b) * c == a * c + b * c
  {
  }

  /** Counting in units ten to the k times smaller multiplies the count by ten to the k. */
  lemma {:induction false} ExactSumRescale(ds: seq<Decimal>, s: int, k: nat)
    requires forall i :: 0 <= i < |ds| ==> ds[i].scale <= s
    ensures ExactSum(ds, s + k) == ExactSum(ds, s) * Pow10(k)
  {
    if |ds| > 0 {
      var front := ds[..|ds| - 1];
      var d := ds[|ds| - 1];
      var t := Pow10(k);
      ExactSumRescale(front, s, k);
      Pow10Add(s - d.scale, k);
      var p := Pow10(s - d.scale);
      assert Pow10(s + k - d.scale) == p * t;
      MulAssoc(d.unscaled, p, t);
      MulDistrib(ExactSum(front, s), d.unscaled * p, t);
    }
  }

  /** `a.add(b)`: exact, at the larger of the two scales. */
  function Add(a: Decimal, b: Decimal): Decimal {
    var s := if a.scale >= b.scale then a.scale else b.scale;
    Decimal(a.unscaled * Pow10(s - a.scale) + b.unscaled * Pow10(s - b.scale), s)
  }

  /** The running total of the loop over the throughput tokens, from `new BigDecimal(0)`. */
  function Sum(ds: seq<Decimal>): (r: Decimal)
    ensures r.scale == MaxScale(ds)
    ensures r.unscaled == ExactSum(ds, r.scale)
  {
    if |ds| == 0 then Decimal(0, 0)
    else
      var front := ds[..|ds| - 1];
      var total := Sum(front);
      var r := Add(total, ds[|ds| - 1]);
      ExactSumRescale(front, total.scale, r.scale - total.scale);
      assert ExactSum(ds, r.scale) == ExactSum(front, r.scale) + ds[|ds| - 1].unscaled * Pow10(r.scale - ds[|ds| - 1].scale);
      r
  }

  /** `q` is `n / d` rounded to the nearest integer, ties away from zero (ROUND_HALF_UP). */
  predicate IsHalfUp(q: int, n: int, d: int) {
    && 2 * Abs(n - q * d) <= d
    && (2 * Abs(n - q * d) == d ==> Abs(q * d) > Abs(n))
  }

  function HalfUpOfNat(n: nat, d: int): (q: nat)
    requires d > 0
    ensures IsHalfUp(q, n, d)
  {
    var q := (2 * n + d) / (2 * d);
    var r := (2 * n + d) % (2 * d);
    assert 2 * n + d == 2 * d * q + r && 0 <= r < 2 * d;
    assert 2 * (n - q * d) == r - d;
    q
  }

  /** Division of `n` by the positive `d` rounded half-up to an integer. */
  function RoundHalfUp(n: int, d: int): (q: int)
    requires d > 0
    ensures IsHalfUp(q, n, d)
  {
    if n >= 0 then HalfUpOfNat(n, d)
    else
      var p: int := HalfUpOfNat(-n, d);
      assert (-p) * d == -(p * d);
      assert n - (-p) * d == -(-n - p * d);
      -p
  }

  lemma MulMonotone(x: int, y: int, d: int)
    requires x <= y && d > 0
    ensures x * d <= y * d
  {
  }

  /** Half-up rounding has a single answer, so `RoundHalfUp` is the rounding BigDecimal performs. */
  lemma HalfUpUnique(q1: int, q2: int, n: int, d: int)
    requires d > 0
    requires IsHalfUp(q1, n, d) && IsHalfUp(q2, n, d)
    ensures q1 == q2
  {
    if q1 != q2 {
      var lo := if q1 < q2 then q1 else q2;
      var hi := if q1 < q2 then q2 else q1;
      assert IsHalfUp(lo, n, d) && IsHalfUp(hi, n, d);
      MulMonotone(lo + 1, hi, d);
      assert (lo + 1) * d == lo * d + d;
      // Both lie within d/2 of n and at least d apart, so n is exactly half way between them.
      assert 2 * (n - lo * d) == d && 2 * (hi * d - n) == d;
      if n >= 0 {
        if lo < 0 {
          MulMonotone(lo, -1, d);
        }
        MulMonotone(0, lo, d);
      } else {
        if hi > 0 {
          MulMonotone(1, hi, d);
        }
        MulMonotone(hi, 0, d);
      }
    }
  }

  /** `total.divide(new BigDecimal(count), 5, ROUND_HALF_UP)` applied to the total of `ds`. */
  function Average(ds: seq<Decimal>): (r: Decimal)
    requires |ds| > 0
    ensures r.scale == AVERAGE_SCALE
    ensures IsHalfUp(r.unscaled, ExactSum(ds, MaxScale(ds)) * Pow10(AVERAGE_SCALE), |ds| * Pow10(MaxScale(ds)))
  {
    var total := Sum(ds);
    Decimal(RoundHalfUp(total.unscaled * Pow10(AVERAGE_SCALE), |ds| * Pow10(total.scale)), AVERAGE_SCALE)
  }

  function Zeros(k: nat): (s: string)
    ensures |s| == k && AllDigits(s)
  {
    if k == 0 then "" else "0" + Zeros(k - 1)
  }

  /** The unsigned layout of a scale-5 value with the given digits: integer digits (at least "0"),
      '.', then exactly five fractional digits. */
  function PlainLayout(digits: string): (s: string)
    requires 1 <= |digits| && AllDigits(digits)
    ensures 7 <= |s| && s[|s| - 6] == '.'
    ensures forall i :: 0 <= i < |s| && i != |s| - 6 ==> IsDigit(s[i])
  {
    if |digits| > AVERAGE_SCALE then digits[..|digits| - 5] + "." + digits[|digits| - 5..]
    else "0." + Zeros(AVERAGE_SCALE - |digits|) + digits
  }

  /** The text after a leading '-', if any. */
  function Unsigned(s: string): string {
    if |s| > 0 && s[0] == '-' then s[1..] else s
  }

  /** A plain scale-5 decimal text: an optional '-', integer digits, '.', and five digits. */
  predicate PlainText(s: string) {
    var u := Unsigned(s);
    && 7 <= |u| && u[|u| - 6] == '.'
    && AllDigits(u[..|u| - 6]) && AllDigits(u[|u| - 5..])
  }

  /** Reading a plain scale-5 text back: its value in units of 10^-5, the digits around the '.' taken
      together, negated after a '-'. The reference for `ScaledToString`. */
  function PlainUnscaled(s: string): int
    requires PlainText(s)
  {
    var u := Unsigned(s);
    var digits := u[..|u| - 6] + u[|u| - 5..];
    assert AllDigits(digits) by {
      forall i | 0 <= i < |digits| ensures IsDigit(digits[i]) {
        if i < |u| - 6 { assert digits[i] == u[..|u| - 6][i]; }
        else { assert digits[i] == u[|u| - 5..][i - (|u| - 6)]; }
      }
    }
    var magnitude: int := DigitsValue(digits);
    if |s| > 0 && s[0] == '-' then -magnitude else magnitude
  }

  /** Zeros in front of a digit string do not change its value. */
  lemma {:induction false} LeadingZeros(z: string, ds: string)
    requires forall i :: 0 <= i < |z| ==> z[i] == '0'
    requires AllDigits(ds)
    ensures AllDigits(z + ds) && DigitsValue(z + ds) == DigitsValue(ds)
    decreases |z| + |ds|
  {
    var w := z + ds;
    if |ds| > 0 {
      assert w[..|w| - 1] == z + ds[..|ds| - 1];
      LeadingZeros(z, ds[..|ds| - 1]);
    } else if |z| > 0 {
      assert w == z[..|z| - 1] + "0";
      assert w[..|w| - 1] == z[..|z| - 1] + "";
      LeadingZeros(z[..|z| - 1], "");
    }
  }

  /** The digits around the '.' of `PlainLayout(digits)` denote what `digits` denotes. */
  lemma PlainLayoutValue(digits: string)
    requires 1 <= |digits| && AllDigits(digits)
    ensures var u := PlainLayout(digits);
      && AllDigits(u[..|u| - 6]) && AllDigits(u[|u| - 5..])
      && AllDigits(u[..|u| - 6] + u[|u| - 5..])
      && DigitsValue(u[..|u| - 6] + u[|u| - 5..]) == DigitsValue(digits)
  {
    if |digits| > AVERAGE_SCALE {
      LongLayoutValue(digits);
    } else {
      ShortLayoutValue(digits);
    }
  }

  lemma LongLayoutValue(digits: string)
    requires AVERAGE_SCALE < |digits| && AllDigits(digits)
    ensures var u := PlainLayout(digits); u[..|u| - 6] + u[|u| - 5..] == digits
  {
    var u := PlainLayout(digits);
    var n := |digits|;
    assert u[..|u| - 6] == digits[..n - 5];
    assert u[|u| - 5..] == digits[n - 5..];
  }

  lemma ShortLayoutValue(digits: string)
    requires 1 <= |digits| <= AVERAGE_SCALE && AllDigits(digits)
    ensures var u := PlainLayout(digits);
      && AllDigits(u[..|u| - 6] + u[|u| - 5..])
      && DigitsValue(u[..|u| - 6] + u[|u| - 5..]) == DigitsValue(digits)
  {
    var u := PlainLayout(digits);
    var z := "0" + Zeros(AVERAGE_SCALE - |digits|);
    assert u == "0." + Zeros(AVERAGE_SCALE - |digits|) + digits;
    assert u[..|u| - 6] + u[|u| - 5..] == z + digits;
    ZerosAreZero(AVERAGE_SCALE - |digits|);
    LeadingZeros(z, digits);
  }

  lemma {:induction false} ZerosAreZero(k: nat)
    ensures forall i :: 0 <= i < |Zeros(k)| ==> Zeros(k)[i] == '0'
  {
    if k > 0 {
      ZerosAreZero(k - 1);
      assert forall i :: 1 <= i < k ==> Zeros(k)[i] == Zeros(k - 1)[i - 1];
    }
  }

  /** The plain layout of `x` units of 10^-5: a '-' for a negative value, then its magnitude. */
  function SignedLayout(x: int): string {
    var body := PlainLayout(NatDigits(Abs(x)));
    if x < 0 then "-" + body else body
  }

  lemma SignedLayoutShape(x: int)
    ensures var s := SignedLayout(x);
      && ',' !in s
      && 7 <= |s| && s[|s| - 6] == '.'
      && (forall i :: |s| - 5 <= i < |s| ==> IsDigit(s[i]))
      && (s[0] == '-' <==> x < 0)
  {
    var body := PlainLayout(NatDigits(Abs(x)));
    var s := SignedLayout(x);
    forall i | 0 <= i < |s|
      ensures s[i] != ','
    {
      if x < 0 && i == 0 {
      } else {
        var j := if x < 0 then i - 1 else i;
        assert s[i] == body[j];
      }
    }
    if x >= 0 { assert IsDigit(body[0]); }
  }

  lemma SignedLayoutReadsBack(x: int)
    ensures PlainText(SignedLayout(x)) && PlainUnscaled(SignedLayout(x)) == x
  {
    var digits := NatDigits(Abs(x));
    var body := PlainLayout(digits);
    assert Unsigned(SignedLayout(x)) == body by {
      if x >= 0 { assert IsDigit(body[0]); }
    }
    PlainLayoutValue(digits);
    DigitsValueOfNatDigits(Abs(x));
  }

  /** `BigDecimal.toString()` of a value at scale 5. At that scale the adjusted exponent is never
      below -6, so Java always lays it out in plain notation: sign, integer digits, '.', five digits.
      Read back, the text gives the value. */
  function ScaledToString(d: Decimal): (s: string)
    requires d.scale == AVERAGE_SCALE
    ensures ',' !in s
    ensures 7 <= |s| && s[|s| - 6] == '.'
    ensures forall i :: |s| - 5 <= i < |s| ==> IsDigit(s[i])
    ensures (s[0] == '-') <==> d.unscaled < 0
    ensures PlainText(s) && PlainUnscaled(s) == d.unscaled
    ensures var u := Unsigned(s); u[0] == '0' ==> |u| == 7
  {
    SignedLayoutShape(d.unscaled);
    SignedLayoutReadsBack(d.unscaled);
    SignedLayout(d.unscaled)
  }

  /** Averaging 1.0, 2.0 and 3.0 gives 2.00000. */
  lemma AverageOfOneTwoThree()
    ensures Average([Decimal(10, 1), Decimal(20, 1), Decimal(30, 1)]) == Decimal(200000, 5)
    ensures ScaledToString(Decimal(200000, 5)) == "2.00000"
  {
    var ds := [Decimal(10, 1), Decimal(20, 1), Decimal(30, 1)];
    assert ds[..2] == [Decimal(10, 1), Decimal(20, 1)];
    assert ds[..2][..1] == [Decimal(10, 1)];
    assert Sum(ds) == Decimal(60, 1);
    var q := Average(ds).unscaled;
    assert IsHalfUp(q, 6000000, 30);
    assert IsHalfUp(200000, 6000000, 30);
    HalfUpUnique(q, 200000, 6000000, 30);
    assert NatDigits(200000) == "200000";
  }
}
