/**
 * What digitLength and float2Fixed give on the numerals their documentation
 * uses: the digit count after the point corrected by the exponent, and the
 * digits with the point deleted.
 */
module TextExamples {
  import opened Prelude
  import opened ExactDecimal
  import opened DecimalText
  import opened TextProperties
  import opened ExponentCase

  /** digitLength of digits, a point and digits is the number of digits after the point. */
  lemma {:induction false} DecimalDigitLength(text: string, sign: string, negative: bool, whole: string, fraction: string)
    requires SignText(sign, negative) && AllDigits(whole) && |whole| > 0 && AllDigits(fraction)
    requires text == sign + (whole + "." + fraction)
    ensures DigitLength(text) == |fraction|
  {
    ReadDecimal(sign, negative, whole, fraction);
    DigitLengthIsScale(text, Numeral(negative, whole, fraction, 0));
  }

  /**
   * digitLength of a numeral with an exponent x is the number f of digits
   * after the point minus x, and 0 when that is not positive.
   */
  lemma {:induction false} ScientificDigitLength(text: string, sign: string, negative: bool, whole: string, fraction: string, marker: char, exponent: string, x: int)
    requires SignText(sign, negative) && AllDigits(whole) && |whole| > 0 && AllDigits(fraction)
    requires marker in Markers && ReadExponent(exponent) == Some(x)
    requires text == sign + (whole + "." + fraction + [marker] + exponent)
    ensures DigitLength(text) == if |fraction| - x > 0 then |fraction| - x else 0
  {
    ReadScientificDecimal(sign, negative, whole, fraction, marker, exponent, x);
    DigitLengthIsScale(text, Numeral(negative, whole, fraction, x));
  }

  /** float2Fixed of digits, a point and digits: the signed digits with the point deleted. */
  lemma {:induction false} DecimalFloat2Fixed(text: string, sign: string, negative: bool, whole: string, fraction: string)
    requires SignText(sign, negative) && AllDigits(whole) && |whole| > 0 && AllDigits(fraction)
    requires text == sign + (whole + "." + fraction)
    ensures AllDigits(whole + fraction)
    ensures Float2Fixed(text) == Some(Dec(Signed(negative, whole + fraction), 0))
  {
    var n := Numeral(negative, whole, fraction, 0);
    PointedNoMarker(sign, negative, whole, fraction);
    RemovePoint(sign, negative, whole, fraction);
    ReadsAsInteger(sign, n, whole + fraction);
    SignedMantissa(n);
  }

  /** With exponent 0 the mantissa of a numeral is its signed digits. */
  lemma {:induction false} SignedMantissa(n: Numeral)
    requires WellFormed(n) && n.exponent == 0
    ensures AllDigits(n.whole + n.fraction)
    ensures NumeralValue(n).mant == Signed(n.negative, n.whole + n.fraction)
  {
    DigitsValueAppend(n.whole, n.fraction);
    NumeralMantissa(n);
  }

  /** A signed decimal without exponent holds no exponent marker. */
  lemma {:induction false} PointedNoMarker(sign: string, negative: bool, whole: string, fraction: string)
    requires SignText(sign, negative) && AllDigits(whole) && AllDigits(fraction)
    ensures 'e' !in sign + (whole + "." + fraction) && 'E' !in sign + (whole + "." + fraction)
  {
    PointedDigitsFree(whole, fraction);
    assert Free(sign, Markers);
    FreeAppend(sign, whole + "." + fraction, Markers);
  }

  /** digitLength(0.1) is 1. */
  lemma {:induction false} DigitLengthOfOneTenth()
    ensures DigitLength("0.1") == 1
  {
    DecimalDigitLength("0.1", "", false, "0", "1");
  }

  /** digitLength(0.12) is 2. */
  lemma {:induction false} DigitLengthOfTwoPlaces()
    ensures DigitLength("0.12") == 2
  {
    DecimalDigitLength("0.12", "", false, "0", "12");
  }

  /** digitLength(123.12) is 2 as well: the digits before the point do not count. */
  lemma {:induction false} DigitLengthIgnoresWholePart()
    ensures DigitLength("123.12") == 2
  {
    DecimalDigitLength("123.12", "", false, "123", "12");
  }

  /** digitLength(1.23e-5) is 7: two digits after the point, and five more places from the exponent. */
  lemma {:induction false} DigitLengthWithExponent()
    ensures DigitLength("1.23e-5") == 7
  {
    assert StripSign("-5") == (true, "5");
    ScientificDigitLength("1.23e-5", "", false, "1", "23", 'e', "-5", -5);
  }

  /** float2Fixed(1.23) is 123. */
  lemma {:induction false} Float2FixedOfOnePointTwoThree()
    ensures Float2Fixed("1.23") == Some(Dec(123, 0))
  {
    DecimalFloat2Fixed("1.23", "", false, "1", "23");
    OneTwoThree("1" + "23");
  }

  /** The digits 1, 2, 3 spell 123. */
  lemma {:induction false} OneTwoThree(digits: string)
    requires digits == "123"
    ensures AllDigits(digits) && Signed(false, digits) == 123
  {
    assert DigitsValue("123") == 123 by {
      assert "123"[..2] == "12" && "12"[..1] == "1" && "1"[..0] == "";
    }
  }
}
