/**
 * Decimal numerals: the value of a digit string (what `std::stoull` computes on
 * digits) and the canonical numeral of a natural number (what `std::to_string`
 * and `operator<<` on an unsigned integer print).
 */
module Numerals {

  function Pow(base: nat, exp: nat): (r: nat)
    ensures base > 0 ==> r > 0
  {
    if exp == 0 then 1 else base * Pow(base, exp - 1)
  }

  lemma {:induction false} PowAdd(base: nat, m: nat, n: nat)
    ensures Pow(base, m + n) == Pow(base, m) * Pow(base, n)
  {
    if n > 0 {
      PowAdd(base, m, n - 1);
      assert Pow(base, m + n) == base * Pow(base, m + n - 1);
      assert Pow(base, m) * Pow(base, n) == Pow(base, m) * (base * Pow(base, n - 1));
    }
  }

  lemma {:induction false} PowMul(base: nat, m: nat, n: nat)
    ensures Pow(Pow(base, m), n) == Pow(base, m * n)
  {
    if n > 0 {
      PowMul(base, m, n - 1);
      assert m * n == m + m * (n - 1);
      PowAdd(base, m, m * (n - 1));
    }
  }

  lemma {:induction false} PowMonotone(base: nat, m: nat, n: nat)
    requires base > 0 && m <= n
    ensures Pow(base, m) <= Pow(base, n)
  {
    if m < n {
      PowMonotone(base, m, n - 1);
      assert Pow(base, n) == base * Pow(base, n - 1);
    }
  }

  /** One more multiple: (k + 1) * b == k * b + b. */
  lemma MulStep(k: nat, b: nat)
    ensures (k + 1) * b == k * b + b
  {
  }

  /** Multiplying by `b` keeps the order: i * b <= j * b for i <= j. */
  lemma MulMonotone(i: nat, j: nat, b: nat)
    requires i <= j
    ensures i * b <= j * b
  {
    assert j * b == i * b + (j - i) * b;
  }

  predicate IsDigit(c: char) { '0' <= c <= '9' }

  predicate AllDigits(s: string) { forall i :: 0 <= i < |s| ==> IsDigit(s[i]) }

  function DigitValue(c: char): (d: nat)
    requires IsDigit(c)
    ensures d < 10
  {
    (c as int) - ('0' as int)
  }

  function DigitChar(d: nat): (c: char)
    requires d < 10
    ensures IsDigit(c) && DigitValue(c) == d
  {
    (('0' as int) + d) as char
  }

  /** The value of a string of decimal digits, most significant digit first. */
  function DecimalValue(s: string): nat
    requires AllDigits(s)
  {
    if s == [] then 0 else DecimalValue(s[..|s| - 1]) * 10 + DigitValue(s[|s| - 1])
  }

  /** A numeral as `std::to_string` prints it: digits only, no leading zero except in "0". */
  predicate IsCanonical(s: string)
  {
    AllDigits(s) && s != [] && (s[0] == '0' ==> s == "0")
  }

  /** The canonical decimal numeral of `n`. */
  function NatToString(n: nat): (r: string)
    ensures IsCanonical(r)
  {
    if n < 10 then [DigitChar(n)] else NatToString(n / 10) + [DigitChar(n % 10)]
  }

  /** `operator<<` on a signed integer: a minus sign, then the numeral of the magnitude. */
  function IntToString(i: int): (r: string)
    ensures r != [] && (r[0] == '-' <==> i < 0)
  {
    if i < 0 then "-" + NatToString(-i) else NatToString(i)
  }

  /** A character `operator<<` can print for an integer: a digit or the minus sign. */
  predicate IsNumeralChar(c: char) { IsDigit(c) || c == '-' }

  /** A printed integer is made of digits and the minus sign only. */
  lemma IntToStringIsNumeral(i: int)
    ensures forall k :: 0 <= k < |IntToString(i)| ==> IsNumeralChar(IntToString(i)[k])
  {
    if i < 0 {
      var r := IntToString(i);
      forall k | 0 <= k < |r|
        ensures IsNumeralChar(r[k])
      {
        if k > 0 {
          assert r[k] == NatToString(-i)[k - 1];
        }
      }
    }
  }

  /** Different integers print differently. */
  lemma IntToStringInjective(i: int, j: int)
    requires IntToString(i) == IntToString(j)
    ensures i == j
  {
    if i < 0 {
      assert NatToString(-i) == IntToString(i)[1..] == IntToString(j)[1..] == NatToString(-j);
      DecimalValueOfNatToString(-i);
      DecimalValueOfNatToString(-j);
    } else {
      DecimalValueOfNatToString(i);
      DecimalValueOfNatToString(j);
    }
  }

  /** `k` zero characters, as `std::string(k, '0')` builds them. */
  function Zeros(k: nat): (r: string)
    ensures |r| == k && forall i :: 0 <= i < k ==> r[i] == '0'
  {
    seq(k, _ => '0')
  }

  /** The last `k` decimal digits of `d`, zero-padded to width `k`. */
  function FixedWidth(d: nat, k: nat): (r: string)
    ensures |r| == k && AllDigits(r)
  {
    if k == 0 then [] else FixedWidth(d / 10, k - 1) + [DigitChar(d % 10)]
  }

  lemma {:induction false} DecimalValueAppend(a: string, b: string)
    requires AllDigits(a) && AllDigits(b)
    ensures AllDigits(a + b)
    ensures DecimalValue(a + b) == DecimalValue(a) * Pow(10, |b|) + DecimalValue(b)
  {
    if b == [] {
      assert a + b == a;
    } else {
      var b' := b[..|b| - 1];
      assert (a + b)[..|a + b| - 1] == a + b';
      DecimalValueAppend(a, b');
      var p := Pow(10, |b'|);
      assert Pow(10, |b|) == p * 10;
      ScaleArith(DecimalValue(a), p, DecimalValue(b'), DigitValue(b[|b| - 1]));
    }
  }

  lemma ScaleArith(x: nat, p: nat, y: nat, digit: nat)
    ensures (x * p + y) * 10 + digit == x * (p * 10) + (y * 10 + digit)
  {
  }

  lemma {:induction false} DecimalValueBound(s: string)
    requires AllDigits(s)
    ensures DecimalValue(s) < Pow(10, |s|)
  {
    if s != [] {
      DecimalValueBound(s[..|s| - 1]);
    }
  }

  /** A digit string whose first digit is not '0' has a positive value. */
  lemma {:induction false} LeadingDigitPositive(s: string)
    requires AllDigits(s) && s != [] && s[0] != '0'
    ensures DecimalValue(s) > 0
  {
    if |s| > 1 {
      LeadingDigitPositive(s[..|s| - 1]);
    }
  }

  /** Reading the printed numeral back gives the number. */
  lemma {:induction false} DecimalValueOfNatToString(n: nat)
    ensures DecimalValue(NatToString(n)) == n
  {
    if n >= 10 {
      DecimalValueOfNatToString(n / 10);
      var s := NatToString(n);
      assert s[..|s| - 1] == NatToString(n / 10);
    }
  }

  /** Printing the value of a canonical numeral gives the numeral back. */
  lemma {:induction false} NatToStringOfDecimalValue(s: string)
    requires IsCanonical(s)
    ensures NatToString(DecimalValue(s)) == s
  {
    var p := s[..|s| - 1];
    if p != [] {
      assert p[0] == s[0] && s[0] != '0';
      LeadingDigitPositive(p);
      NatToStringOfDecimalValue(p);
      var n := DecimalValue(s);
      assert n / 10 == DecimalValue(p) && n % 10 == DigitValue(s[|s| - 1]);
      assert s == p + [s[|s| - 1]];
    }
  }

  lemma {:induction false} FixedWidthOfZero(k: nat)
    ensures FixedWidth(0, k) == Zeros(k)
  {
    if k > 0 {
      FixedWidthOfZero(k - 1);
    }
  }

  /** For `d < 10^k`, the width-`k` digits are the numeral of `d` padded with zeros on the left. */
  lemma {:induction false} FixedWidthIsPadded(d: nat, k: nat)
    requires k > 0 && d < Pow(10, k)
    ensures |NatToString(d)| <= k
    ensures FixedWidth(d, k) == Zeros(k - |NatToString(d)|) + NatToString(d)
  {
    if d < 10 {
      FixedWidthOfZero(k - 1);
    } else {
      assert d / 10 < Pow(10, k - 1);
      assert k > 1;
      FixedWidthIsPadded(d / 10, k - 1);
    }
  }

  /** Appending `k` fixed-width digits of `d` multiplies by `10^k` and adds `d`. */
  lemma {:induction false} NatToStringShift(x: nat, d: nat, k: nat)
    requires x > 0 && d < Pow(10, k)
    ensures NatToString(x * Pow(10, k) + d) == NatToString(x) + FixedWidth(d, k)
  {
    if k > 0 {
      var p := Pow(10, k - 1);
      var n := x * Pow(10, k) + d;
      ShiftArith(x, p, d);
      assert n / 10 == x * p + d / 10 && n % 10 == d % 10;
      NatToStringShift(x, d / 10, k - 1);
      assert NatToString(n) == NatToString(n / 10) + [DigitChar(d % 10)];
      assert FixedWidth(d, k) == FixedWidth(d / 10, k - 1) + [DigitChar(d % 10)];
    } else {
      assert d == 0 && x * Pow(10, k) == x;
      assert NatToString(x) + FixedWidth(d, k) == NatToString(x);
    }
  }

  lemma ShiftArith(x: nat, p: nat, d: nat)
    requires x > 0 && d < p * 10
    ensures x * (10 * p) + d == 10 * (x * p + d / 10) + d % 10
    ensures d / 10 < p && x * (10 * p) + d >= 10
  {
  }
}
