/**
 * Numerals with an exponent, and what the case of the exponent marker does
 * to float2Fixed: digitLength splits on both e and E, but float2Fixed picks
 * its branch by looking for a lowercase e only.
 */
module ExponentCase {
  import opened Prelude
  import opened ExactDecimal
  import opened DecimalText
  import opened TextProperties

  /** An exponent contains no exponent marker. */
  lemma {:induction false} ExponentIsFree(t: string)
    requires ReadExponent(t).Some?
    ensures Free(t, Markers)
  {
    var digits := StripSign(t).1;
    SignPrefix(t);
    var sign := t[..|t| - |digits|];
    DigitsAreFree(digits, Markers);
    assert Free(sign, Markers);
    FreeAppend(sign, digits, Markers);
  }

  /**
   * A numeral without exponent, followed by a marker and an exponent x, reads
   * as the same digits with exponent x.
   */
  lemma {:induction false} ReadScientific(sign: string, negative: bool, mantissa: string, marker: char, exponent: string, n: Numeral, x: int)
    requires SignText(sign, negative) && marker in Markers
    requires |mantissa| > 0 && IsDigit(mantissa[0]) && Free(mantissa, Markers)
    requires ParseNumeral(mantissa) == Some(n)
    requires ReadExponent(exponent) == Some(x)
    ensures ParseNumeral(sign + (mantissa + [marker] + exponent)) == Some(Numeral(negative, n.whole, n.fraction, x))
  {
    var body := mantissa + [marker] + exponent;
    assert body[0] == mantissa[0];
    StripSignOf(sign, negative, body);
    StripSignOf("", false, mantissa);
    assert "" + mantissa == mantissa;
    SplitFree(mantissa, Markers);
    ExponentIsFree(exponent);
    SplitAtSeparator(mantissa, marker, exponent, Markers);
    SplitFree(exponent, Markers);
  }

  /** A numeral with a point and no exponent: what is needed to put an exponent after it. */
  lemma {:induction false} DecimalMantissa(whole: string, fraction: string)
    requires AllDigits(whole) && |whole| > 0 && AllDigits(fraction)
    ensures var mantissa := whole + "." + fraction;
      |mantissa| > 0 && IsDigit(mantissa[0]) && Free(mantissa, Markers)
      && ParseNumeral(mantissa) == Some(Numeral(false, whole, fraction, 0))
  {
    var mantissa := whole + "." + fraction;
    assert mantissa[0] == whole[0];
    ReadDecimal("", false, whole, fraction);
    assert "" + mantissa == mantissa;
    PointedDigitsFree(whole, fraction);
  }

  /** sign, digits, point, digits, marker, exponent: the numeral with those digits and that exponent. */
  lemma {:induction false} ReadScientificDecimal(sign: string, negative: bool, whole: string, fraction: string, marker: char, exponent: string, x: int)
    requires SignText(sign, negative) && AllDigits(whole) && |whole| > 0 && AllDigits(fraction)
    requires marker in Markers && ReadExponent(exponent) == Some(x)
    ensures ParseNumeral(sign + (whole + "." + fraction + [marker] + exponent)) == Some(Numeral(negative, whole, fraction, x))
  {
    DecimalMantissa(whole, fraction);
    ReadScientific(sign, negative, whole + "." + fraction, marker, exponent, Numeral(false, whole, fraction, 0), x);
  }

  lemma {:induction false} FreeSubset(s: string, cs: set<char>, ds: set<char>)
    requires Free(s, cs) && ds <= cs
    ensures Free(s, ds)
  {
  }

  /** Such a numeral has no lowercase e, so float2Fixed takes its point-deleting branch. */
  lemma {:induction false} NoLowercaseMarker(sign: string, negative: bool, whole: string, fraction: string, exponent: string)
    requires SignText(sign, negative) && AllDigits(whole) && |whole| > 0 && AllDigits(fraction) && ReadExponent(exponent).Some?
    ensures 'e' !in sign + (whole + "." + fraction + ['E'] + exponent)
  {
    var mantissa := whole + "." + fraction;
    DecimalMantissa(whole, fraction);
    FreeSubset(mantissa, Markers, {'e'});
    ExponentIsFree(exponent);
    FreeSubset(exponent, Markers, {'e'});
    assert Free(sign, {'e'}) && Free(['E'], {'e'});
    FreeAppend(mantissa, ['E'], {'e'});
    FreeAppend(mantissa + ['E'], exponent, {'e'});
    FreeAppend(sign, mantissa + ['E'] + exponent, {'e'});
  }

  /** Deleting the point of such a numeral leaves the digits, the marker and the exponent. */
  lemma {:induction false} PointRemoved(sign: string, negative: bool, whole: string, fraction: string, exponent: string)
    requires SignText(sign, negative) && AllDigits(whole)
    ensures RemoveFirst(sign + (whole + "." + fraction + ['E'] + exponent), '.') == sign + (whole + fraction + ['E'] + exponent)
  {
    var tail := fraction + ['E'] + exponent;
    RemovePoint(sign, negative, whole, tail);
    ConcatAssociates(whole + ['.'], fraction + ['E'], exponent);
    ConcatAssociates(whole + ['.'], fraction, ['E']);
    ConcatAssociates(whole, fraction + ['E'], exponent);
    ConcatAssociates(whole, fraction, ['E']);
  }

  /** The signed integer a string of digits spells. */
  function Signed(negative: bool, digits: string): int
    requires AllDigits(digits)
  {
    if negative then -(DigitsValue(digits) as int) else DigitsValue(digits)
  }

  lemma {:induction false} WholeNumeralValue(n: Numeral)
    requires WellFormed(n) && n.exponent >= |n.fraction|
    ensures AllDigits(n.whole + n.fraction)
    ensures NumeralValue(n).mant == Shifted(Signed(n.negative, n.whole + n.fraction), n.exponent - |n.fraction|)
    ensures NumeralValue(n).scale == 0
  {
  }

  /** A numeral whose exponent covers its fraction digits is an integer: digitLength 0. */
  lemma {:induction false} IntegerNumeral(t: string, n: Numeral)
    requires ParseNumeral(t) == Some(n) && n.exponent >= |n.fraction|
    ensures AllDigits(n.whole + n.fraction)
    ensures Number(t) == Some(Dec(Shifted(Signed(n.negative, n.whole + n.fraction), n.exponent - |n.fraction|), 0))
    ensures DigitLength(t) == 0
  {
    WholeNumeralValue(n);
    NumberOfNumeral(t, n);
    DigitLengthIsScale(t, n);
  }

  lemma {:induction false} ScientificInteger(sign: string, negative: bool, whole: string, fraction: string, exponent: string, x: int)
    requires SignText(sign, negative) && AllDigits(whole) && |whole| > 0 && AllDigits(fraction)
    requires ReadExponent(exponent) == Some(x) && x >= |fraction|
    ensures AllDigits(whole + fraction)
    ensures var t := sign + (whole + "." + fraction + ['E'] + exponent);
      Number(t) == Some(Dec(Shifted(Signed(negative, whole + fraction), x - |fraction|), 0))
      && DigitLength(t) == 0
  {
    var t := sign + (whole + "." + fraction + ['E'] + exponent);
    ReadScientificDecimal(sign, negative, whole, fraction, 'E', exponent, x);
    IntegerNumeral(t, Numeral(negative, whole, fraction, x));
  }

  /** Digits alone: the mantissa of a numeral with no point. */
  lemma {:induction false} IntegerMantissa(w: string)
    requires AllDigits(w) && |w| > 0
    ensures IsDigit(w[0]) && Free(w, Markers)
    ensures ParseNumeral(w) == Some(Numeral(false, w, "", 0))
  {
    ReadInteger("", false, w);
    assert "" + w == w;
    DigitsAreFree(w, Markers);
  }

  /** Digits followed by an exponent x >= 0: the integer those digits spell, times 10^x. */
  lemma {:induction false} DigitsWithExponent(sign: string, negative: bool, w: string, exponent: string, x: int)
    requires SignText(sign, negative) && AllDigits(w) && |w| > 0
    requires ReadExponent(exponent) == Some(x) && x >= 0
    ensures Number(sign + (w + ['E'] + exponent)) == Some(Dec(Shifted(Signed(negative, w), x), 0))
  {
    IntegerMantissa(w);
    ReadScientific(sign, negative, w, 'E', exponent, Numeral(false, w, "", 0), x);
    NumberOfNumeral(sign + (w + ['E'] + exponent), Numeral(negative, w, "", x));
    WholeDigits(negative, w, x);
  }

  /** A numeral with no fraction digits and an exponent x >= 0 stands for its digits times 10^x. */
  lemma {:induction false} WholeDigits(negative: bool, w: string, x: int)
    requires AllDigits(w) && |w| > 0 && x >= 0
    ensures WellFormed(Numeral(negative, w, "", x))
    ensures NumeralValue(Numeral(negative, w, "", x)) == Dec(Shifted(Signed(negative, w), x), 0)
  {
    assert w + "" == w;
  }

  /**
   * As written, float2Fixed of a numeral with a point and an uppercase E
   * takes the point-deleting branch and reads the digits back WITH the
   * exponent: when the exponent x is at least the number f of fraction
   * digits, the value is an integer and digitLength is 0, but the fixed-point
   * form comes out 10^f times the value (1.5E3 gives 15000, not 1500).
   * This is one family of the misread inputs: for 0 < x < f (1.25E1 gives
   * 1250, not 125) and for negative x the result is wrong as well, which
   * this lemma does not state.
   */
  lemma {:induction false} UppercaseExponentMisread(sign: string, negative: bool, whole: string, fraction: string, exponent: string, x: int)
    requires SignText(sign, negative) && AllDigits(whole) && |whole| > 0 && AllDigits(fraction)
    requires ReadExponent(exponent) == Some(x) && x >= |fraction|
    ensures AllDigits(whole + fraction)
    ensures var t := sign + (whole + "." + fraction + ['E'] + exponent);
      var m := Signed(negative, whole + fraction);
      Number(t) == Some(Dec(Shifted(m, x - |fraction|), 0))
      && DigitLength(t) == 0
      && Float2Fixed(t) == Some(Dec(Shifted(m, x), 0))
  {
    ScientificInteger(sign, negative, whole, fraction, exponent, x);
    NoLowercaseMarker(sign, negative, whole, fraction, exponent);
    PointRemoved(sign, negative, whole, fraction, exponent);
    DigitsValueAppend(whole, fraction);
    DigitsWithExponent(sign, negative, whole + fraction, exponent, x);
  }

  /**
   * Testing both markers, float2Fixed of the same numerals is the number
   * itself, which is an integer there: its digits at digitLength 0.
   */
  lemma {:induction false} UppercaseExponentCorrected(sign: string, negative: bool, whole: string, fraction: string, exponent: string, x: int)
    requires SignText(sign, negative) && AllDigits(whole) && |whole| > 0 && AllDigits(fraction)
    requires ReadExponent(exponent) == Some(x) && x >= |fraction|
    ensures var t := sign + (whole + "." + fraction + ['E'] + exponent);
      Float2FixedAnyCase(t) == Number(t) && DigitLength(t) == 0
  {
    var t := sign + (whole + "." + fraction + ['E'] + exponent);
    var n := Numeral(negative, whole, fraction, x);
    ReadScientificDecimal(sign, negative, whole, fraction, 'E', exponent, x);
    ScientificInteger(sign, negative, whole, fraction, exponent, x);
    Float2FixedAnyCaseReadsDigits(t, n);
  }
}
