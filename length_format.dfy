/**
 * The `%lf` rendering of a non-negative branch length: the value rounded to
 * six decimal places (to the nearest, ties to the even neighbour, as the GNU
 * C library does), printed as the integer part without leading zeros, a
 * point and exactly six fractional digits.
 */
module LengthFormat {

  /** The nearest integer to `r`; of two equally near, the even one. */
  function RoundHalfEven(r: real): (n: int)
    ensures -0.5 <= r - n as real <= 0.5
    ensures (r - n as real == 0.5 || n as real - r == 0.5) ==> n % 2 == 0
  {
    var f := r.Floor;
    var frac := r - f as real;
    if frac < 0.5 then f
    else if frac > 0.5 then f + 1
    else if f % 2 == 0 then f
    else f + 1
  }

  /** The length in millionths, as `%lf` rounds it. */
  function Micros(x: real): (m: nat)
    requires x >= 0.0
    ensures -0.5 <= x * 1000000.0 - m as real <= 0.5
  {
    var n := RoundHalfEven(x * 1000000.0);
    assert n >= 0;
    n
  }

  predicate IsDigit(c: char)
  {
    '0' <= c <= '9'
  }

  predicate AllDigits(s: string)
  {
    forall i :: 0 <= i < |s| ==> IsDigit(s[i])
  }

  function DigitChar(d: nat): (c: char)
    requires d < 10
    ensures IsDigit(c) && c as int - '0' as int == d
  {
    ('0' as int + d) as char
  }

  /** The number a string of decimal digits denotes. */
  function DecimalValue(s: string): int
  {
    if |s| == 0 then 0 else DecimalValue(s[..|s| - 1]) * 10 + (s[|s| - 1] as int - '0' as int)
  }

  /** The decimal digits of `n`, without leading zeros ("0" for zero). */
  function Digits(n: nat): (s: string)
    ensures |s| >= 1 && AllDigits(s)
  {
    if n < 10 then [DigitChar(n)] else Digits(n / 10) + [DigitChar(n % 10)]
  }

  /** The last `w` decimal digits of `n`, with leading zeros. */
  function Padded(n: nat, w: nat): (s: string)
    ensures |s| == w && AllDigits(s)
  {
    if w == 0 then "" else Padded(n / 10, w - 1) + [DigitChar(n % 10)]
  }

  function Pow10(w: nat): (p: nat)
    ensures p >= 1
  {
    if w == 0 then 1 else 10 * Pow10(w - 1)
  }

  /** `printf("%lf", x)` for `x >= 0`. */
  function FormatLength(x: real): string
    requires x >= 0.0
  {
    var m := Micros(x);
    Digits(m / 1000000) + "." + Padded(m % 1000000, 6)
  }

  lemma {:induction false} DigitsValue(n: nat)
    ensures DecimalValue(Digits(n)) == n
    ensures |Digits(n)| > 1 ==> Digits(n)[0] != '0'
  {
    if n >= 10 {
      var s := Digits(n);
      assert s[..|s| - 1] == Digits(n / 10);
      DigitsValue(n / 10);
    }
  }

  lemma {:induction false} PaddedValue(n: nat, w: nat)
    requires n < Pow10(w)
    ensures DecimalValue(Padded(n, w)) == n
  {
    if w > 0 {
      var s := Padded(n, w);
      assert s[..|s| - 1] == Padded(n / 10, w - 1);
      PaddedValue(n / 10, w - 1);
    }
  }

  /**
   * The text has the form `I.FFFFFF`: a run of digits without leading zeros,
   * a point and six digits; read back, it denotes the length rounded to the
   * nearest millionth, within half a millionth of the value.
   */
  lemma FormatLengthShape(x: real)
    requires x >= 0.0
    ensures var s := FormatLength(x);
      |s| >= 8 && s[|s| - 7] == '.' && AllDigits(s[..|s| - 7]) && AllDigits(s[|s| - 6..])
      && (|s| > 8 ==> s[0] != '0')
      && DecimalValue(s[..|s| - 7]) * 1000000 + DecimalValue(s[|s| - 6..]) == Micros(x)
  {
    var m := Micros(x);
    var s := FormatLength(x);
    var ip := Digits(m / 1000000);
    var fp := Padded(m % 1000000, 6);
    assert s == ip + "." + fp;
    assert s[..|s| - 7] == ip;
    assert s[|s| - 6..] == fp;
    DigitsValue(m / 1000000);
    assert Pow10(6) == 1000000;
    PaddedValue(m % 1000000, 6);
  }

  /** Only digits and one point: none of the Newick delimiters. */
  lemma FormatLengthChars(x: real)
    requires x >= 0.0
    ensures forall i :: 0 <= i < |FormatLength(x)| ==> IsDigit(FormatLength(x)[i]) || FormatLength(x)[i] == '.'
  {
    var m := Micros(x);
    var ip := Digits(m / 1000000);
    var fp := Padded(m % 1000000, 6);
    assert FormatLength(x) == ip + "." + fp;
  }

  /** A zero length is printed, as `0.000000`. */
  lemma FormatZero()
    ensures FormatLength(0.0) == "0.000000"
  {
    assert Micros(0.0) == 0;
    assert Digits(0) == "0";
    assert Padded(0, 6) == "000000";
  }

  /** An exact tie rounds to the even millionth: 1/128 prints as `0.007812`. */
  lemma FormatTieToEven()
    ensures FormatLength(0.0078125) == "0.007812"
  {
    assert Micros(0.0078125) == 7812;
    assert Digits(0) == "0";
    assert Padded(7812, 6) == "007812";
  }
}
