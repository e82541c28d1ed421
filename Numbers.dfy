/** Numbers as the script sees them: whole numbers, plus the non-finite values
    that JavaScript arithmetic produces when a denominator is zero, and the
    decimal rendering of a counter that JavaScript's string concatenation uses. */
module Numbers {

  /** A JavaScript number restricted to the values the script can meet:
      whole numbers (the percentages are rounded), the two infinities and NaN. */
  datatype Num = Finite(value: int) | PosInf | NegInf | NaN

  /** JavaScript's `d > t` for a whole-number threshold `t`. Every comparison
      with NaN is false. */
  predicate Exceeds(d: Num, t: int)
  {
    match d
    case Finite(v) => v > t
    case PosInf => true
    case NegInf => false
    case NaN => false
  }

  /** JavaScript's loose `d == 0`: true only for a finite zero (-0 included,
      which is the same whole number here). */
  predicate IsZero(d: Num)
  {
    d == Finite(0)
  }

  function Abs(x: int): (r: nat)
    ensures r == x || r == -x
  {
    if x < 0 then -x else x
  }

  predicate IsDigit(c: char)
  {
    '0' <= c <= '9'
  }

  function DigitChar(d: nat): (c: char)
    requires d < 10
    ensures IsDigit(c) && c as int - '0' as int == d
  {
    ('0' as int + d) as char
  }

  /** `String(n)` for a non-negative whole number: its decimal digits, most
      significant first, without leading zeros. */
  function DecimalString(n: nat): (s: string)
    ensures |s| >= 1 && forall i :: 0 <= i < |s| ==> IsDigit(s[i])
    ensures s[0] == '0' ==> n == 0
  {
    if n < 10 then [DigitChar(n)] else DecimalString(n / 10) + [DigitChar(n % 10)]
  }

  /** The value of a string of decimal digits (the inverse of DecimalString). */
  function DecimalValue(s: string): nat
    requires forall i :: 0 <= i < |s| ==> IsDigit(s[i])
  {
    if s == [] then 0
    else DecimalValue(s[..|s| - 1]) * 10 + DigitValue(s[|s| - 1])
  }

  function DigitValue(c: char): (d: nat)
    requires IsDigit(c)
    ensures d < 10
  {
    c as int - '0' as int
  }

  /** Reading back the rendering of `n` gives `n`. */
  lemma {:induction false} DecimalRoundTrip(n: nat)
    ensures DecimalValue(DecimalString(n)) == n
  {
    var s := DecimalString(n);
    if n < 10 {
      assert s[..|s| - 1] == [];
    } else {
      assert s[..|s| - 1] == DecimalString(n / 10);
      DecimalRoundTrip(n / 10);
    }
  }

  /** Distinct numbers render to distinct strings. */
  lemma DecimalStringInjective(m: nat, n: nat)
    requires DecimalString(m) == DecimalString(n)
    ensures m == n
  {
    DecimalRoundTrip(m);
    DecimalRoundTrip(n);
  }

  /** `a / b` rounded by `toFixed(0)`: the nearest whole number, a tie going
      away from zero (toFixed rounds the magnitude up and restores the sign). */
  function RoundRatio(a: int, b: int): (r: int)
    requires b != 0
    ensures 2 * Abs(a - r * b) <= Abs(b)
    ensures 2 * Abs(a - r * b) == Abs(b) ==> Abs(r * b) > Abs(a)
    ensures (a < 0) == (b < 0) ==> r >= 0
  {
    var m, n := Abs(a), Abs(b);
    var k := (2 * m + n) / (2 * n);
    RoundMagnitude(m, n, k);
    if (a < 0) != (b < 0) then
      SignedProduct(a, b, -k, m, n, k);
      -k
    else
      SignedProduct(a, b, k, m, n, k);
      k
  }

  /** The half-up rounding of `m / n` for non-negative `m` and positive `n`. */
  lemma RoundMagnitude(m: nat, n: nat, k: int)
    requires n > 0 && k == (2 * m + n) / (2 * n)
    ensures k >= 0
    ensures 2 * Abs(m - k * n) <= n
    ensures 2 * Abs(m - k * n) == n ==> k * n > m
  {
    var q := 2 * m + n;
    assert k * (2 * n) <= q < (k + 1) * (2 * n);
    assert (k + 1) * (2 * n) == 2 * (k * n) + 2 * n;
    assert k * (2 * n) == 2 * (k * n);
  }

  /** Restoring the signs of `a` and `b` around a rounded magnitude. */
  lemma SignedProduct(a: int, b: int, r: int, m: nat, n: nat, k: nat)
    requires b != 0 && m == Abs(a) && n == Abs(b)
    requires r == if (a < 0) != (b < 0) then -(k as int) else k
    ensures Abs(a - r * b) == Abs(m - k * n)
    ensures Abs(r * b) == k * n
  {
    if b < 0 {
      assert r * b == -(r * n);
    } else {
      assert r * b == r * n;
    }
    if a < 0 {
      assert a == -(m as int);
    }
    if r < 0 {
      assert r * n == -(k * n);
    }
  }
}
