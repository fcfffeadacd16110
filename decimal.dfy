/**
 * Decimal numerals: the `Display` form of the unsigned content length and
 * Rust's `i32::from_str`, which reads the HTTP status code.
 */
module Decimal {
  import opened Wrappers

  const I32_MIN: int := -0x8000_0000
  const I32_MAX: int := 0x7FFF_FFFF

  predicate IsDigit(c: char) {
    '0' <= c <= '9'
  }

  predicate AllDigits(s: string) {
    forall i :: 0 <= i < |s| ==> IsDigit(s[i])
  }

  function DigitChar(d: nat): (c: char)
    requires d < 10
    ensures IsDigit(c)
  {
    (('0' as int) + d) as char
  }

  function DigitValue(c: char): (d: nat)
    requires IsDigit(c)
    ensures d < 10
  {
    (c as int) - ('0' as int)
  }

  /** The value of a numeral read most significant digit first; leading zeros are allowed. */
  function DecimalValue(s: string): nat
    requires AllDigits(s)
  {
    if s == [] then 0 else 10 * DecimalValue(s[..|s| - 1]) + DigitValue(s[|s| - 1])
  }

  /** The shortest numeral of `n`, as `{}` prints an unsigned integer. */
  function NatToDecimal(n: nat): (s: string)
    ensures s != [] && AllDigits(s)
    ensures s[0] == '0' ==> n == 0 && s == "0"
    decreases n
  {
    if n < 10 then [DigitChar(n)] else NatToDecimal(n / 10) + [DigitChar(n % 10)]
  }

  /** Reading back a printed numeral gives the number that was printed. */
  lemma {:induction false} DecimalRoundTrip(n: nat)
    ensures DecimalValue(NatToDecimal(n)) == n
    decreases n
  {
    if n >= 10 {
      var s := NatToDecimal(n);
      DecimalRoundTrip(n / 10);
      assert s[..|s| - 1] == NatToDecimal(n / 10);
      assert DigitValue(s[|s| - 1]) == n % 10;
    }
  }

  /** The numeral of an `i32` as `to_string` prints it: a `-` for negatives, no `+`. */
  function IntToDecimal(v: int): string {
    if v < 0 then "-" + NatToDecimal(-v) else NatToDecimal(v)
  }

  /** The length of the optional leading `+` or `-` of a numeral. */
  function SignLength(s: string): (k: nat)
    ensures k <= 1 && k <= |s|
  {
    if s != [] && (s[0] == '+' || s[0] == '-') then 1 else 0
  }

  /** The value of a magnitude with its sign applied. */
  function Signed(negative: bool, magnitude: nat): int {
    if negative then -(magnitude as int) else magnitude
  }

  /**
   * `str::parse::<i32>`: an optional `+` or `-`, then one or more ASCII digits
   * (leading zeros allowed), whose value must lie in the `i32` range. A text
   * that parses is such a sign followed by such digits, and its value is the
   * digits' value with the sign applied.
   */
  function ParseI32(s: string): (r: Option<int>)
    ensures r.Some? ==> I32_MIN <= r.value <= I32_MAX
    ensures r.Some? ==> var k := SignLength(s);
      && k < |s| && AllDigits(s[k..])
      && (s[..k] == "" || s[..k] == "+" || s[..k] == "-")
      && r.value == Signed(s[..k] == "-", DecimalValue(s[k..]))
  {
    var k := SignLength(s);
    var digits := s[k..];
    if digits == [] || !AllDigits(digits) then None
    else
      var v := Signed(k == 1 && s[0] == '-', DecimalValue(digits));
      if I32_MIN <= v <= I32_MAX then Some(v) else None
  }

  /**
   * Every sign followed by digits is read as the digits' value with the sign
   * applied, leading zeros and all, and is refused exactly when that value
   * falls outside the `i32` range.
   */
  lemma ParseI32Numeral(sign: string, digits: string)
    requires sign == "" || sign == "+" || sign == "-"
    requires digits != [] && AllDigits(digits)
    ensures var v := Signed(sign == "-", DecimalValue(digits));
      ParseI32(sign + digits) == if I32_MIN <= v <= I32_MAX then Some(v) else None
  {
    var s := sign + digits;
    if sign == "" {
      assert s == digits;
      assert IsDigit(digits[0]);
    } else {
      assert s[0] == sign[0] && s[1..] == digits;
    }
  }

  /** Every `i32`, printed and parsed back, is itself: the status parser loses no status code. */
  lemma ParseI32RoundTrip(v: int)
    requires I32_MIN <= v <= I32_MAX
    ensures ParseI32(IntToDecimal(v)) == Some(v)
  {
    if v < 0 {
      var digits := NatToDecimal(-v);
      DecimalRoundTrip(-v);
      ParseI32Numeral("-", digits);
    } else {
      var digits := NatToDecimal(v);
      DecimalRoundTrip(v);
      assert "" + digits == digits;
      ParseI32Numeral("", digits);
    }
  }

  /**
   * A numeral whose value lies outside the `i32` range is refused, whatever
   * its sign and however many leading zeros it carries.
   */
  lemma ParseI32OutOfRange(sign: string, digits: string)
    requires sign == "" || sign == "+" || sign == "-"
    requires digits != [] && AllDigits(digits)
    requires var v := Signed(sign == "-", DecimalValue(digits)); v < I32_MIN || I32_MAX < v
    ensures ParseI32(sign + digits).None?
  {
    ParseI32Numeral(sign, digits);
  }

  /** Examples: a `+` sign, a `-` sign and leading zeros are accepted. */
  lemma ParseI32Accepts()
    ensures ParseI32("200") == Some(200)
    ensures ParseI32("+042") == Some(42)
    ensures ParseI32("-7") == Some(-7)
  {
    assert DecimalValue("200") == 200 by {
      assert "200"[..2] == "20" && "20"[..1] == "2" && "2"[..0] == "";
    }
    assert DecimalValue("042") == 42 by {
      assert "042"[..2] == "04" && "04"[..1] == "0" && "0"[..0] == "";
    }
    assert "+042"[1..] == "042";
    assert "-7"[1..] == "7" && "7"[..0] == "";
  }

  /** Examples: a bare sign, an empty text, a space or a letter is rejected. */
  lemma ParseI32Rejects()
    ensures ParseI32("+").None? && ParseI32("-").None? && ParseI32("").None?
    ensures ParseI32("20x").None? && ParseI32(" 200").None?
  {
    assert !IsDigit("20x"[2]);
    assert !IsDigit(" 200"[0]);
  }
}
