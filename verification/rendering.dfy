/**
 * The plain decimal text of an exact decimal (what toString prints for a
 * number in the range it writes without an exponent), and the facts that tie
 * the arithmetic layer to the text layer: digitLength of that text is the
 * decimal's scale and float2Fixed of it is the decimal's mantissa.
 */
module Rendering {
  import opened Prelude
  import opened ExactDecimal
  import opened DecimalText
  import opened TextProperties

  /** The character of a digit 0..9. */
  function DigitChar(d: nat): (c: char)
    requires d < 10
    ensures IsDigit(c) && c as int - '0' as int == d
  {
    ('0' as int + d) as char
  }

  /** Digit strings stay digit strings when a digit is appended. */
  lemma {:induction false} AppendDigit(t: string, c: char)
    requires AllDigits(t) && IsDigit(c)
    ensures AllDigits(t + [c])
    ensures DigitsValue(t + [c]) == 10 * DigitsValue(t) + (c as int - '0' as int)
  {
    assert (t + [c])[..|t|] == t;
  }

  /** The digits of n as toString writes them: no leading zero except for 0 itself. */
  function DigitsOf(n: nat): (t: string)
    ensures |t| > 0 && AllDigits(t) && DigitsValue(t) == n
    decreases n
  {
    if n < 10 then
      assert [DigitChar(n)][..0] == "";
      [DigitChar(n)]
    else
      AppendDigit(DigitsOf(n / 10), DigitChar(n % 10));
      DigitsOf(n / 10) + [DigitChar(n % 10)]
  }

  /** The last k digits of n, with leading zeros: the k places after the point. */
  function LowDigits(n: nat, k: nat): (t: string)
    ensures |t| == k && AllDigits(t)
  {
    if k == 0 then ""
    else
      AppendDigit(LowDigits(n / 10, k - 1), DigitChar(n % 10));
      LowDigits(n / 10, k - 1) + [DigitChar(n % 10)]
  }

  /** n with its last k digits dropped: the integer part. */
  function HighPart(n: nat, k: nat): nat
  {
    if k == 0 then n else HighPart(n / 10, k - 1)
  }

  /** The integer part followed by the k low digits spells n again. */
  lemma {:induction false} SplitDigits(n: nat, k: nat)
    ensures DigitsValue(DigitsOf(HighPart(n, k)) + LowDigits(n, k)) == n
  {
    DigitsValueAppend(DigitsOf(HighPart(n, k)), LowDigits(n, k));
    HighLow(n, k);
  }

  lemma {:induction false} HighLow(n: nat, k: nat)
    ensures Shifted(HighPart(n, k), k) + DigitsValue(LowDigits(n, k)) == n
  {
    if k > 0 {
      HighLow(n / 10, k - 1);
      AppendDigit(LowDigits(n / 10, k - 1), DigitChar(n % 10));
    }
  }

  /** The plain text of d: a minus sign if negative, the integer part, and for a positive scale a point and exactly scale digits. */
  function Render(d: Dec): string
  {
    var n := Abs(d.mant);
    var sign := if d.mant < 0 then "-" else "";
    var whole := DigitsOf(HighPart(n, d.scale));
    if d.scale == 0 then sign + whole else sign + (whole + "." + LowDigits(n, d.scale))
  }

  /** The text of d reads back as d: the numeral's digits are d's mantissa and its places d's scale. */
  lemma {:induction false} RenderParses(d: Dec)
    ensures ParseNumeral(Render(d)).Some?
    ensures NumeralValue(ParseNumeral(Render(d)).value) == d
  {
    var n := Abs(d.mant);
    var negative := d.mant < 0;
    var sign := if negative then "-" else "";
    var whole := DigitsOf(HighPart(n, d.scale));
    var low := LowDigits(n, d.scale);
    SplitDigits(n, d.scale);
    if d.scale == 0 {
      ReadInteger(sign, negative, whole);
      IntegerNumeralValue(negative, whole);
      assert whole + low == whole;
    } else {
      ReadDecimal(sign, negative, whole, low);
    }
  }

  /** Number(text of d) is d. */
  lemma {:induction false} RenderReadsBack(d: Dec)
    ensures Number(Render(d)) == Some(d)
  {
    RenderParses(d);
    NumberOfNumeral(Render(d), ParseNumeral(Render(d)).value);
  }

  /** The text of d has no exponent marker. */
  lemma {:induction false} RenderHasNoMarker(d: Dec)
    ensures 'E' !in Render(d) && 'e' !in Render(d)
  {
    var n := Abs(d.mant);
    var sign := if d.mant < 0 then "-" else "";
    var whole := DigitsOf(HighPart(n, d.scale));
    var low := LowDigits(n, d.scale);
    DigitsAreFree(whole, Markers);
    DigitsAreFree(low, Markers);
    assert Free(sign, Markers) && Free(".", Markers);
    FreeAppend(whole, ".", Markers);
    FreeAppend(whole + ".", low, Markers);
    FreeAppend(sign, whole, Markers);
    FreeAppend(sign, whole + "." + low, Markers);
    var t := Render(d);
    assert Free(t, Markers);
  }

  /**
   * On the text of d, digitLength is d's scale and float2Fixed d's mantissa:
   * the pair (float2Fixed, digitLength) the operations compute with is
   * exactly (mant, scale).
   */
  lemma {:induction false} RenderDigits(d: Dec)
    ensures DigitLength(Render(d)) == d.scale
    ensures Float2Fixed(Render(d)) == Some(Dec(d.mant, 0))
    ensures Float2FixedAnyCase(Render(d)) == Some(Dec(d.mant, 0))
  {
    RenderParses(d);
    RenderHasNoMarker(d);
    Float2FixedReadsDigits(Render(d), ParseNumeral(Render(d)).value);
    Float2FixedAnyCaseReadsDigits(Render(d), ParseNumeral(Render(d)).value);
  }
}
