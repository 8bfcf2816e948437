/**
 * What digitLength and float2Fixed compute on the text of a decimal numeral:
 * digitLength is the number of places after the point of the value the
 * numeral stands for, and float2Fixed (when it takes the branch meant for
 * the numeral) is the value's digits as an integer. Together they are the
 * (mant, scale) pair the arithmetic layer works on.
 */
module TextProperties {
  import opened Prelude
  import opened ExactDecimal
  import opened DecimalText

  // ---------------------------------------------------------------------
  // Reading numerals back
  // ---------------------------------------------------------------------

  lemma {:induction false} FreeAppend(a: string, b: string, cs: set<char>)
    requires Free(a, cs) && Free(b, cs)
    ensures Free(a + b, cs)
  {
    forall i | 0 <= i < |a + b|
      ensures (a + b)[i] !in cs
    {
      if i < |a| {
        assert (a + b)[i] == a[i];
      } else {
        assert (a + b)[i] == b[i - |a|];
      }
    }
  }

  /** The sign part of a numeral: nothing, "-" or "+". */
  predicate SignText(sign: string, negative: bool)
  {
    (sign == "" && !negative) || (sign == "-" && negative) || (sign == "+" && !negative)
  }

  /** The text in front of what StripSign leaves is a sign. */
  lemma {:induction false} SignPrefix(t: string)
    ensures |StripSign(t).1| <= |t|
    ensures SignText(t[..|t| - |StripSign(t).1|], StripSign(t).0)
    ensures t == t[..|t| - |StripSign(t).1|] + StripSign(t).1
  {
    var (negative, body) := StripSign(t);
    if body == t {
      assert t[..0] == "";
    } else {
      assert t[..1] == [t[0]];
    }
  }

  /** The sign is read off a sign followed by a digit. */
  lemma {:induction false} StripSignOf(sign: string, negative: bool, body: string)
    requires SignText(sign, negative) && |body| > 0 && IsDigit(body[0])
    ensures StripSign(sign + body) == (negative, body)
  {
    if sign != "" {
      assert (sign + body)[1..] == body;
    } else {
      assert sign + body == body;
    }
  }

  /** Digits with neither point nor exponent read as an integer. */
  lemma {:induction false} ReadInteger(sign: string, negative: bool, w: string)
    requires SignText(sign, negative) && AllDigits(w) && |w| > 0
    ensures ParseNumeral(sign + w) == Some(Numeral(negative, w, "", 0))
  {
    StripSignOf(sign, negative, w);
    DigitsAreFree(w, Markers);
    DigitsAreFree(w, Point);
    SplitFree(w, Markers);
    SplitFree(w, Point);
  }

  /** Digits, a point and digits read as that numeral, with no exponent. */
  lemma {:induction false} ReadDecimal(sign: string, negative: bool, whole: string, fraction: string)
    requires SignText(sign, negative) && AllDigits(whole) && |whole| > 0 && AllDigits(fraction)
    ensures ParseNumeral(sign + (whole + "." + fraction)) == Some(Numeral(negative, whole, fraction, 0))
  {
    var body := whole + "." + fraction;
    assert body[0] == whole[0];
    StripSignOf(sign, negative, body);
    PointedDigitsFree(whole, fraction);
    SplitFree(body, Markers);
    PointedDigitsSplit(whole, fraction);
  }

  /** Digits, a point and digits hold no exponent marker. */
  lemma {:induction false} PointedDigitsFree(whole: string, fraction: string)
    requires AllDigits(whole) && AllDigits(fraction)
    ensures Free(whole + "." + fraction, Markers)
  {
    DigitsAreFree(whole, Markers);
    DigitsAreFree(fraction, Markers);
    FreeAppend(whole, ".", Markers);
    FreeAppend(whole + ".", fraction, Markers);
  }

  /** Digits, a point and digits split at the point into the two digit strings. */
  lemma {:induction false} PointedDigitsSplit(whole: string, fraction: string)
    requires AllDigits(whole) && AllDigits(fraction)
    ensures Split(whole + "." + fraction, Point) == [whole, fraction]
  {
    DigitsAreFree(whole, Point);
    DigitsAreFree(fraction, Point);
    SplitAtSeparator(whole, '.', fraction, Point);
    SplitFree(fraction, Point);
  }

  /** The integer value of an integer numeral. */
  lemma {:induction false} IntegerNumeralValue(negative: bool, w: string)
    requires AllDigits(w) && |w| > 0
    ensures NumeralValue(Numeral(negative, w, "", 0)).scale == 0
    ensures NumeralValue(Numeral(negative, w, "", 0)).mant == if negative then -(DigitsValue(w) as int) else DigitsValue(w)
  {
    assert w + "" == w;
  }

  /** digitLength's unary + on an exponent: Number reads a signed digit string as that integer. */
  lemma {:induction false} ExponentAsNumber(t: string, x: int)
    requires ReadExponent(t) == Some(x)
    ensures IntegerOf(Number(t)) == Some(x)
  {
    var (negative, digits) := StripSign(t);
    SignPrefix(t);
    ReadInteger(t[..|t| - |digits|], negative, digits);
    IntegerNumeralValue(negative, digits);
  }

  // ---------------------------------------------------------------------
  // digitLength
  // ---------------------------------------------------------------------

  /** The empty text has no numeral: Number reads it as 0 by its own rule. */
  lemma {:induction false} EmptyIsNoNumeral()
    ensures ParseNumeral("") == None
  {
    SplitFree("", Markers);
    SplitFree("", Point);
  }

  /** The pieces digitLength looks at are those of the numeral after its sign. */
  lemma {:induction false} SplitsOfNumeral(t: string)
    ensures var body := StripSign(t).1;
      var eSplit := Split(body, Markers);
      |Split(t, Markers)| == |eSplit|
      && (|eSplit| > 1 ==> Split(t, Markers)[1] == eSplit[1])
      && Part(Split(Split(t, Markers)[0], Point), 1) == Part(Split(eSplit[0], Point), 1)
  {
    var body := StripSign(t).1;
    SignPrefix(t);
    SplitsAfterSign(t[..|t| - |body|], StripSign(t).0, body);
  }

  /** A sign in front changes neither the number of pieces, nor the exponent, nor the fraction digits. */
  lemma {:induction false} SplitsAfterSign(sign: string, negative: bool, body: string)
    requires SignText(sign, negative)
    ensures var eSplit := Split(body, Markers);
      |Split(sign + body, Markers)| == |eSplit|
      && (|eSplit| > 1 ==> Split(sign + body, Markers)[1] == eSplit[1])
      && Part(Split(Split(sign + body, Markers)[0], Point), 1) == Part(Split(eSplit[0], Point), 1)
  {
    var eSplit := Split(body, Markers);
    assert Free(sign, Markers) && Free(sign, Point);
    SplitAfterFree(sign, body, Markers);
    SplitAfterFree(sign, eSplit[0], Point);
  }

  /**
   * digitLength of a numeral is the number of places after the point of its
   * value: the digits after the point minus the exponent, never below 0.
   */
  lemma {:induction false} DigitLengthIsScale(t: string, n: Numeral)
    requires ParseNumeral(t) == Some(n)
    ensures DigitLength(t) == NumeralValue(n).scale
  {
    var body := StripSign(t).1;
    var eSplit := Split(body, Markers);
    SplitsOfNumeral(t);
    if |eSplit| == 2 {
      ExponentAsNumber(eSplit[1], n.exponent);
    }
  }

  /** Text with no point and no exponent marker has digit length 0: integers have no places after the point. */
  lemma {:induction false} IntegerTextDigitLength(s: string)
    requires Free(s, {'.', 'e', 'E'})
    ensures DigitLength(s) == 0
  {
    assert Free(s, Markers) && Free(s, Point);
    SplitFree(s, Markers);
    SplitFree(s, Point);
  }

  // ---------------------------------------------------------------------
  // float2Fixed
  // ---------------------------------------------------------------------

  /** Number on a numeral. */
  lemma {:induction false} NumberOfNumeral(t: string, n: Numeral)
    requires ParseNumeral(t) == Some(n)
    ensures Number(t) == Some(NumeralValue(n))
  {
    if t == "" {
      EmptyIsNoNumeral();
    }
  }

  /** The exponent branch, exact here: the value times 10^digitLength is the numeral's digits. */
  lemma {:induction false} ExponentBranchReadsDigits(t: string, n: Numeral)
    requires ParseNumeral(t) == Some(n)
    ensures ScaleByDigitLength(t) == Some(Dec(NumeralValue(n).mant, 0))
  {
    var v := NumeralValue(n);
    NumberOfNumeral(t, n);
    DigitLengthIsScale(t, n);
  }

  /** The point-deleting branch on a numeral without exponent gives its digits. */
  lemma {:induction false} PlainBranchReadsDigits(t: string, n: Numeral)
    requires ParseNumeral(t) == Some(n) && 'e' !in t && 'E' !in t
    ensures Number(RemoveFirst(t, '.')) == Some(Dec(NumeralValue(n).mant, 0))
  {
    var (negative, body) := StripSign(t);
    SignPrefix(t);
    var sign := t[..|t| - |body|];
    MarkerFreeBody(t, sign, body);
    SplitFree(body, Markers);
    var dotSplit := Split(body, Point);
    if |dotSplit| == 1 {
      PlainInteger(t, n, sign, body);
    } else {
      PlainDecimal(t, n, sign, body);
    }
  }

  lemma {:induction false} MarkerFreeBody(t: string, sign: string, body: string)
    requires t == sign + body && 'e' !in t && 'E' !in t
    ensures Free(body, Markers)
  {
    forall i | 0 <= i < |body|
      ensures body[i] !in Markers
    {
      assert body[i] == t[|sign| + i];
    }
  }

  /** A numeral with no point: deleting the first point changes nothing. */
  lemma {:induction false} PlainInteger(t: string, n: Numeral, sign: string, body: string)
    requires WellFormed(n) && SignText(sign, n.negative) && t == sign + body
    requires Split(body, Point) == [body] && n == Numeral(n.negative, body, "", 0)
    ensures Number(RemoveFirst(t, '.')) == Some(Dec(NumeralValue(n).mant, 0))
  {
    FreeAppend(sign, body, Point);
    assert Point == {'.'};
    RemoveFirstAbsent(t, '.');
    assert body + "" == body;
    ReadsAsInteger(sign, n, body);
  }

  /** A numeral with a point: deleting it leaves the sign and all the digits. */
  lemma {:induction false} PlainDecimal(t: string, n: Numeral, sign: string, body: string)
    requires WellFormed(n) && SignText(sign, n.negative) && t == sign + body
    requires |Split(body, Point)| == 2 && n == Numeral(n.negative, Split(body, Point)[0], Split(body, Point)[1], 0)
    ensures Number(RemoveFirst(t, '.')) == Some(Dec(NumeralValue(n).mant, 0))
  {
    DecimalBody(body, n.whole, n.fraction);
    RemovePoint(sign, n.negative, n.whole, n.fraction);
    ReadsAsInteger(sign, n, n.whole + n.fraction);
  }

  /** Text that splits into two pieces at its point is the pieces joined by the point. */
  lemma {:induction false} DecimalBody(body: string, whole: string, fraction: string)
    requires |Split(body, Point)| == 2 && Split(body, Point)[0] == whole && Split(body, Point)[1] == fraction
    ensures body == whole + ['.'] + fraction
  {
    JoinSplit(body, '.');
    assert Point == {'.'};
    assert Split(body, Point)[1..][1..] == [];
  }

  /** Deleting the point of a signed decimal leaves the sign and the digits. */
  lemma {:induction false} RemovePoint(sign: string, negative: bool, whole: string, fraction: string)
    requires SignText(sign, negative) && AllDigits(whole)
    ensures RemoveFirst(sign + (whole + ['.'] + fraction), '.') == sign + (whole + fraction)
  {
    DigitsAreFree(whole, {'.'});
    FreeAppend(sign, whole, {'.'});
    RemoveFirstAt(sign + whole, '.', fraction);
    ConcatAssociates(sign, whole + ['.'], fraction);
    ConcatAssociates(sign, whole, ['.']);
    ConcatAssociates(sign, whole, fraction);
  }

  lemma {:induction false} ConcatAssociates(a: string, b: string, c: string)
    ensures a + (b + c) == a + b + c
  {
  }

  /** Deleting the first c where there is none leaves the text as it is. */
  lemma {:induction false} RemoveFirstAbsent(s: string, c: char)
    requires Free(s, {c})
    ensures RemoveFirst(s, c) == s
  {
    assert s[..|s|] == s;
    FirstOfUnique(s, {c}, |s|);
  }

  /** Deleting the first c removes exactly the c after c-free text. */
  lemma {:induction false} RemoveFirstAt(a: string, c: char, b: string)
    requires Free(a, {c})
    ensures RemoveFirst(a + [c] + b, c) == a + b
  {
    var s := a + [c] + b;
    FirstOfAfterFree(a, [c] + b, {c});
    assert a + ([c] + b) == s;
    assert s[..|a|] == a && s[|a| + 1..] == b;
  }

  /** A sign and the digits of a numeral with exponent 0 read as the numeral's mantissa. */
  lemma {:induction false} ReadsAsInteger(sign: string, n: Numeral, w: string)
    requires WellFormed(n) && n.exponent == 0 && SignText(sign, n.negative) && w == n.whole + n.fraction
    ensures Number(sign + w) == Some(Dec(NumeralValue(n).mant, 0))
  {
    DigitsValueAppend(n.whole, n.fraction);
    assert w[0] == if |n.whole| > 0 then n.whole[0] else n.fraction[0];
    ReadInteger(sign, n.negative, w);
    IntegerNumeralValue(n.negative, w);
    NumberOfNumeral(sign + w, Numeral(n.negative, w, "", 0));
    NumeralMantissa(n);
  }

  /** With exponent 0 the mantissa is the signed digits. */
  lemma {:induction false} NumeralMantissa(n: Numeral)
    requires WellFormed(n) && n.exponent == 0
    ensures NumeralValue(n).mant == if n.negative then -(DigitsValue(n.whole + n.fraction) as int) else DigitsValue(n.whole + n.fraction)
  {
  }

  /**
   * float2Fixed on a numeral with no uppercase E (every numeral JavaScript
   * itself prints) gives the numeral's digits: the value times 10^digitLength.
   */
  lemma {:induction false} Float2FixedReadsDigits(t: string, n: Numeral)
    requires ParseNumeral(t) == Some(n) && 'E' !in t
    ensures Float2Fixed(t) == Some(Dec(NumeralValue(n).mant, 0))
    ensures DigitLength(t) == NumeralValue(n).scale
  {
    DigitLengthIsScale(t, n);
    if 'e' in t {
      ExponentBranchReadsDigits(t, n);
    } else {
      PlainBranchReadsDigits(t, n);
    }
  }

  /** With both markers tested, float2Fixed gives the digits of every numeral. */
  lemma {:induction false} Float2FixedAnyCaseReadsDigits(t: string, n: Numeral)
    requires ParseNumeral(t) == Some(n)
    ensures Float2FixedAnyCase(t) == Some(Dec(NumeralValue(n).mant, 0))
  {
    if 'e' in t || 'E' in t {
      ExponentBranchReadsDigits(t, n);
    } else {
      PlainBranchReadsDigits(t, n);
    }
  }
}
