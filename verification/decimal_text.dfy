/**
 * The text layer: what the library reads off the decimal text of a number.
 * `digitLength` counts the digits after the point and corrects the count by
 * the exponent; `float2Fixed` deletes the point and reads the digits back as
 * a number. JavaScript's own `Number(text)` is modelled for the decimal
 * numerals it accepts, with the value as an exact decimal.
 */
module DecimalText {
  import opened Prelude
  import opened ExactDecimal

  // ---------------------------------------------------------------------
  // Searching and splitting (indexOf, split, replace)
  // ---------------------------------------------------------------------

  /** No character of s is one of cs. */
  predicate Free(s: string, cs: set<char>)
  {
    forall i :: 0 <= i < |s| ==> s[i] !in cs
  }

  /** indexOf for any of the characters cs: the first position holding one of them, |s| when there is none. */
  function FirstOf(s: string, cs: set<char>): (i: nat)
    ensures i <= |s|
    ensures i < |s| ==> s[i] in cs
    ensures Free(s[..i], cs)
  {
    if |s| == 0 || s[0] in cs then 0
    else
      var rest := FirstOf(s[1..], cs);
      assert s[..1 + rest] == [s[0]] + s[1..][..rest];
      1 + rest
  }

  /** The first occurrence is the only position that is one of cs with none of cs before it. */
  lemma {:induction false} FirstOfUnique(s: string, cs: set<char>, i: nat)
    requires i <= |s| && (i < |s| ==> s[i] in cs) && Free(s[..i], cs)
    ensures FirstOf(s, cs) == i
  {
  }

  /** Text free of cs in front of b moves the first occurrence by its length. */
  lemma {:induction false} FirstOfAfterFree(a: string, b: string, cs: set<char>)
    requires Free(a, cs)
    ensures FirstOf(a + b, cs) == |a| + FirstOf(b, cs)
  {
    var i := FirstOf(b, cs);
    var s := a + b;
    assert s[..|a| + i] == a + b[..i];
    if |a| + i < |s| {
      assert s[|a| + i] == b[i];
    }
    FirstOfUnique(s, cs, |a| + i);
  }

  /** String.prototype.split on a one-character separator (any of cs): the pieces between separators. */
  function Split(s: string, cs: set<char>): (parts: seq<string>)
    ensures |parts| >= 1
    ensures forall k :: 0 <= k < |parts| ==> Free(parts[k], cs)
    decreases |s|
  {
    var i := FirstOf(s, cs);
    if i == |s| then
      assert s[..i] == s;
      [s]
    else
      [s[..i]] + Split(s[i + 1..], cs)
  }

  /** The pieces joined with the separator between them. */
  function Join(parts: seq<string>, sep: char): string
    requires |parts| >= 1
  {
    if |parts| == 1 then parts[0] else parts[0] + [sep] + Join(parts[1..], sep)
  }

  /** Joining the pieces of a split with the separator gives the text back. */
  lemma {:induction false} JoinSplit(s: string, c: char)
    ensures Join(Split(s, {c}), c) == s
    decreases |s|
  {
    var i := FirstOf(s, {c});
    var parts := Split(s, {c});
    if i < |s| {
      var rest := Split(s[i + 1..], {c});
      JoinSplit(s[i + 1..], c);
      assert parts == [s[..i]] + rest;
      assert parts[1..] == rest;
      assert s == s[..i] + [c] + s[i + 1..];
    } else {
      assert parts == [s];
    }
  }

  /** Text without a separator is one piece. */
  lemma {:induction false} SplitFree(s: string, cs: set<char>)
    requires Free(s, cs)
    ensures Split(s, cs) == [s]
  {
    assert s[..|s|] == s;
    FirstOfUnique(s, cs, |s|);
  }

  /** Separator-free text in front extends the first piece only. */
  lemma {:induction false} SplitAfterFree(a: string, b: string, cs: set<char>)
    requires Free(a, cs)
    ensures Split(a + b, cs) == [a + Split(b, cs)[0]] + Split(b, cs)[1..]
  {
    var i := FirstOf(b, cs);
    var s := a + b;
    FirstOfAfterFree(a, b, cs);
    if i == |b| {
      assert s[..|a| + i] == s;
    } else {
      assert s[..|a| + i] == a + b[..i];
      assert s[|a| + i + 1..] == b[i + 1..];
    }
  }

  /** A separator right after separator-free text ends the first piece there. */
  lemma {:induction false} SplitAtSeparator(a: string, c: char, b: string, cs: set<char>)
    requires Free(a, cs) && c in cs
    ensures Split(a + [c] + b, cs) == [a] + Split(b, cs)
  {
    var s := a + [c] + b;
    FirstOfAfterFree(a, [c] + b, cs);
    assert a + ([c] + b) == s;
    assert s[..|a|] == a && s[|a| + 1..] == b;
  }

  /** `parts[k] || ''`: the k-th piece, or the empty text when there is none. */
  function Part(parts: seq<string>, k: nat): string
  {
    if k < |parts| then parts[k] else ""
  }

  /** replace(c, ''): the first occurrence of c deleted, the text unchanged when there is none. */
  function RemoveFirst(s: string, c: char): (r: string)
    ensures c !in s ==> r == s
    ensures c in s ==> |r| == |s| - 1
  {
    var i := FirstOf(s, {c});
    if i == |s| then s else s[..i] + s[i + 1..]
  }

  // ---------------------------------------------------------------------
  // Digits and numerals (JavaScript's Number on decimal text)
  // ---------------------------------------------------------------------

  predicate IsDigit(c: char)
  {
    '0' <= c <= '9'
  }

  predicate AllDigits(t: string)
  {
    forall i :: 0 <= i < |t| ==> IsDigit(t[i])
  }

  /** The number a digit string spells, most significant digit first. */
  function DigitsValue(t: string): nat
    requires AllDigits(t)
    decreases |t|
  {
    if |t| == 0 then 0 else 10 * DigitsValue(t[..|t| - 1]) + (t[|t| - 1] as int - '0' as int)
  }

  /** Digits written after a digit string shift it left by their count. */
  lemma {:induction false} DigitsValueAppend(a: string, b: string)
    requires AllDigits(a) && AllDigits(b)
    ensures AllDigits(a + b)
    ensures DigitsValue(a + b) == Shifted(DigitsValue(a), |b|) + DigitsValue(b)
    decreases |b|
  {
    assert AllDigits(a + b) by {
      forall i | 0 <= i < |a + b|
        ensures IsDigit((a + b)[i])
      {
        if i < |a| {
          assert (a + b)[i] == a[i];
        } else {
          assert (a + b)[i] == b[i - |a|];
        }
      }
    }
    if |b| > 0 {
      var b' := b[..|b| - 1];
      assert AllDigits(b');
      DigitsValueAppend(a, b');
      assert (a + b)[..|a + b| - 1] == a + b';
      assert (a + b)[|a + b| - 1] == b[|b| - 1];
    } else {
      assert a + b == a;
    }
  }

  /** Digits contain no sign, point or exponent marker. */
  lemma {:induction false} DigitsAreFree(t: string, cs: set<char>)
    requires AllDigits(t) && forall c :: c in cs ==> !IsDigit(c)
    ensures Free(t, cs)
  {
    forall i | 0 <= i < |t|
      ensures t[i] !in cs
    {
      assert IsDigit(t[i]);
    }
  }

  /** The sign a numeral may start with, and the text after it. */
  function StripSign(t: string): (r: (bool, string))
    ensures r.1 == t || (|t| > 0 && t[0] in {'-', '+'} && r.1 == t[1..])
    ensures r.0 <==> |t| > 0 && t[0] == '-'
  {
    if |t| > 0 && t[0] == '-' then (true, t[1..])
    else if |t| > 0 && t[0] == '+' then (false, t[1..])
    else (false, t)
  }

  /** A decimal numeral: sign, the digits before and after the point, and the exponent. */
  datatype Numeral = Numeral(negative: bool, whole: string, fraction: string, exponent: int)

  predicate WellFormed(n: Numeral)
  {
    AllDigits(n.whole) && AllDigits(n.fraction) && |n.whole| + |n.fraction| > 0
  }

  /** An exponent: an optional sign and at least one digit. */
  function ReadExponent(t: string): Option<int>
  {
    var (negative, digits) := StripSign(t);
    if |digits| > 0 && AllDigits(digits) then
      var magnitude: int := DigitsValue(digits);
      Some(if negative then -magnitude else magnitude)
    else None
  }

  const Markers: set<char> := {'e', 'E'}
  const Point: set<char> := {'.'}

  /**
   * Reads a decimal numeral the way Number does: an optional sign, digits
   * with at most one point and at least one digit, then at most one
   * exponent introduced by e or E.
   */
  function ParseNumeral(t: string): (r: Option<Numeral>)
    ensures r.Some? ==> WellFormed(r.value)
  {
    var (negative, body) := StripSign(t);
    var eSplit := Split(body, Markers);
    var dotSplit := Split(eSplit[0], Point);
    var whole := dotSplit[0];
    var fraction := Part(dotSplit, 1);
    var exponent := if |eSplit| == 2 then ReadExponent(eSplit[1]) else Some(0);
    if |eSplit| <= 2 && |dotSplit| <= 2 && AllDigits(whole) && AllDigits(fraction)
       && |whole| + |fraction| > 0 && exponent.Some?
    then Some(Numeral(negative, whole, fraction, exponent.value))
    else None
  }

  /** The exact decimal a numeral stands for: its digits, with the point moved by the exponent. */
  function NumeralValue(n: Numeral): Dec
    requires WellFormed(n)
  {
    var digits: int := DigitsValue(n.whole + n.fraction);
    var m := if n.negative then -digits else digits;
    var f := |n.fraction|;
    if n.exponent >= f then Dec(Shifted(m, n.exponent - f), 0) else Dec(m, f - n.exponent)
  }

  /** Number(t): the empty text reads as 0, a decimal numeral as its value, anything else as NaN (None). */
  function Number(t: string): Option<Dec>
  {
    if t == "" then Some(Dec(0, 0))
    else match ParseNumeral(t)
      case None => None
      case Some(n) => Some(NumeralValue(n))
  }

  /** The integer a number holds, None for NaN or a fraction. */
  function IntegerOf(v: Option<Dec>): (r: Option<int>)
    ensures r.Some? ==> v.Some? && Value(v.value) == r.value as real
  {
    match v
    case None => None
    case Some(d) =>
      var c := Normalize(d);
      if c.scale == 0 then
        IntegerValue(c.mant);
        Some(c.mant)
      else None
  }

  // ---------------------------------------------------------------------
  // digitLength and float2Fixed
  // ---------------------------------------------------------------------

  /**
   * digitLength: the digits after the point in the part before e/E, minus
   * the exponent, and 0 when that is not positive (or when the exponent is
   * not a number, since a comparison with NaN is false).
   */
  function DigitLength(s: string): nat
  {
    var eSplit := Split(s, Markers);
    var len := |Part(Split(eSplit[0], Point), 1)|;
    var exponent := if |eSplit| > 1 then IntegerOf(Number(eSplit[1])) else Some(0);
    match exponent
    case None => 0
    case Some(x) => if len - x > 0 then len - x else 0
  }

  /** v * 10^k, exactly: moving the result's point back k places gives v. */
  function ScaleUp(v: Dec, k: nat): (r: Dec)
    ensures Value(Dec(r.mant, r.scale + k)) == Value(v)
  {
    if k >= v.scale then
      AppendZerosTo(v.mant, v.scale, k);
      assert Dec(v.mant, v.scale) == v;
      Dec(Shifted(v.mant, k - v.scale), 0)
    else
      assert Dec(v.mant, v.scale - k + k) == v;
      Dec(v.mant, v.scale - k)
  }

  /**
   * float2Fixed as written: text without a lowercase e loses its first point
   * and is read back with Number; otherwise the number is multiplied by
   * 10^digitLength (exactly, here) when that is positive.
   */
  function Float2Fixed(s: string): Option<Dec>
  {
    if 'e' !in s then Number(RemoveFirst(s, '.'))
    else ScaleByDigitLength(s)
  }

  /** The exponent branch of float2Fixed: Number(s) times 10^digitLength(s), or Number(s) itself when that is 0. */
  function ScaleByDigitLength(s: string): Option<Dec>
  {
    var dLen := DigitLength(s);
    match Number(s)
    case None => None
    case Some(v) => if dLen > 0 then Some(ScaleUp(v, dLen)) else Some(v)
  }

  /** float2Fixed with the branch test looking for both exponent markers, as digitLength does. */
  function Float2FixedAnyCase(s: string): Option<Dec>
  {
    if 'e' !in s && 'E' !in s then Number(RemoveFirst(s, '.'))
    else ScaleByDigitLength(s)
  }
}
