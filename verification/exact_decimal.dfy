/**
 * Exact decimals. A JavaScript number that prints as a finite decimal is
 * modelled by `Dec(mant, scale)`, the value mant / 10^scale: `scale` is the
 * number of digits after the point (what the library calls the digit length)
 * and `mant` the integer those digits spell once the point is removed (what
 * the library calls the fixed-point form).
 */
module ExactDecimal {
  import opened Prelude
  import opened RealAlgebra

  datatype Dec = Dec(mant: int, scale: nat)

  /** The number d stands for. */
  function Value(d: Dec): real
  {
    Tenths(d.mant, d.scale)
  }

  /** m / 10^s: each digit after the point divides by ten once more. */
  function Tenths(m: int, s: nat): real
  {
    if s == 0 then m as real else Tenths(m, s - 1) / 10.0
  }

  /**
   * The form a number prints in: no trailing zero after the point. Results of
   * the library's operations are numbers, so the next operation sees this form.
   */
  predicate Canonical(d: Dec)
  {
    d.scale == 0 || d.mant % 10 != 0
  }

  lemma {:induction false} IntegerValue(n: int)
    ensures Value(Dec(n, 0)) == n as real
  {
  }

  /** m followed by k zeros: m * 10^k, written as k steps of multiplying by ten. */
  function Shifted(m: int, k: nat): int
    decreases k
  {
    if k == 0 then m else 10 * Shifted(m, k - 1)
  }

  lemma {:induction false} ShiftedIsProduct(m: int, k: nat)
    ensures Shifted(m, k) == m * Pow10(k)
  {
    if k > 0 {
      ShiftedIsProduct(m, k - 1);
      MulTen(m, Pow10(k - 1));
    }
  }

  lemma {:induction false} MulTen(x: int, y: int)
    ensures x * (10 * y) == 10 * (x * y)
  {
  }

  lemma {:induction false} ShiftedTwice(m: int, j: nat, k: nat)
    ensures Shifted(Shifted(m, j), k) == Shifted(m, j + k)
  {
    if k > 0 {
      ShiftedTwice(m, j, k - 1);
      assert Shifted(m, j + k) == 10 * Shifted(m, j + (k - 1));
    }
  }

  /** Multiplying the mantissa by ten and adding a digit after the point keeps the value. */
  lemma {:induction false} TimesTen(m: int, s: nat)
    ensures Value(Dec(10 * m, s + 1)) == Value(Dec(m, s))
  {
    TenthsTimesTen(m, s);
  }

  lemma {:induction false} TenthsTimesTen(m: int, s: nat)
    ensures Tenths(10 * m, s + 1) == Tenths(m, s)
  {
    if s > 0 {
      TenthsTimesTen(m, s - 1);
    }
  }

  /** Multiplying the value by 10^scale gives back the mantissa. */
  lemma {:induction false} ValueTimesPow(d: Dec)
    ensures Value(d) * Pow10(d.scale) as real == d.mant as real
    decreases d.scale
  {
    if d.scale > 0 {
      var e := Dec(d.mant, d.scale - 1);
      ValueTimesPow(e);
      assert Pow10(d.scale) as real == 10.0 * Pow10(e.scale) as real;
      TenthTimesTen(Value(d), Value(e), Pow10(d.scale) as real, Pow10(e.scale) as real, d.mant as real);
    }
  }

  lemma {:induction false} TenthTimesTen(v: real, ve: real, p: real, pe: real, m: real)
    requires v == ve / 10.0 && p == 10.0 * pe && ve * pe == m
    ensures v * p == m
  {
  }

  /** The value is zero exactly when the mantissa is. */
  lemma {:induction false} ValueZero(d: Dec)
    ensures Value(d) == 0.0 <==> d.mant == 0
    decreases d.scale
  {
    if d.scale > 0 {
      ValueZero(Dec(d.mant, d.scale - 1));
    }
  }

  /** The value has the sign of the mantissa. */
  lemma {:induction false} ValueSign(d: Dec)
    ensures Value(d) > 0.0 <==> d.mant > 0
    ensures Value(d) < 0.0 <==> d.mant < 0
    decreases d.scale
  {
    if d.scale > 0 {
      ValueSign(Dec(d.mant, d.scale - 1));
    }
  }

  /** The mantissa scales the value: k * m at a given scale is k times m at that scale. */
  lemma {:induction false} ScaleMantissa(k: int, m: int, s: nat)
    ensures Value(Dec(k * m, s)) == k as real * Value(Dec(m, s))
  {
    if s == 0 {
      CastMul(k, m);
    } else {
      ScaleMantissa(k, m, s - 1);
      FracScale(k as real, Value(Dec(m, s - 1)), 10.0);
    }
  }

  /** Mantissas at the same scale add. */
  lemma {:induction false} SumMantissas(m: int, n: int, s: nat)
    ensures Value(Dec(m + n, s)) == Value(Dec(m, s)) + Value(Dec(n, s))
  {
    if s > 0 {
      SumMantissas(m, n, s - 1);
    }
  }

  /** Negating the mantissa negates the value. */
  lemma {:induction false} NegateMantissa(m: int, s: nat)
    ensures Value(Dec(-m, s)) == -Value(Dec(m, s))
  {
    if s > 0 {
      NegateMantissa(m, s - 1);
    }
  }

  /** Appending k zeros to the mantissa and k places to the scale keeps the value. */
  lemma {:induction false} AppendZeros(m: int, s: nat, k: nat)
    ensures Value(Dec(Shifted(m, k), s + k)) == Value(Dec(m, s))
  {
    if k > 0 {
      var shorter := Shifted(m, k - 1);
      AppendZeros(m, s, k - 1);
      TimesTen(shorter, s + (k - 1));
      assert Dec(10 * shorter, s + (k - 1) + 1) == Dec(Shifted(m, k), s + k);
    }
  }

  /** Dropping one trailing zero after the point keeps the value. */
  lemma {:induction false} DropTrailingZero(d: Dec)
    requires d.scale > 0 && d.mant % 10 == 0
    ensures Value(Dec(d.mant / 10, d.scale - 1)) == Value(d)
  {
    var e := Dec(d.mant / 10, d.scale - 1);
    TimesTen(e.mant, e.scale);
    assert Dec(10 * e.mant, e.scale + 1) == d;
  }

  /** Strips trailing zeros after the point: the text JavaScript prints for the value. */
  function Normalize(d: Dec): (r: Dec)
    ensures Canonical(r) && Value(r) == Value(d) && r.scale <= d.scale
    decreases d.scale
  {
    if d.scale > 0 && d.mant % 10 == 0 then
      DropTrailingZero(d);
      Normalize(Dec(d.mant / 10, d.scale - 1))
    else
      d
  }

  /** At one scale, equal values mean equal mantissas. */
  lemma {:induction false} SameScale(m: int, n: int, s: nat)
    requires Value(Dec(m, s)) == Value(Dec(n, s))
    ensures m == n
  {
    if s > 0 {
      SameScale(m, n, s - 1);
    }
  }

  /** Each value has exactly one canonical form. */
  lemma {:induction false} CanonicalUnique(a: Dec, b: Dec)
    requires Canonical(a) && Canonical(b) && Value(a) == Value(b)
    ensures a == b
  {
    if a.scale <= b.scale {
      CanonicalUniqueOrdered(a, b);
    } else {
      CanonicalUniqueOrdered(b, a);
    }
  }

  lemma {:induction false} CanonicalUniqueOrdered(a: Dec, b: Dec)
    requires Canonical(a) && Canonical(b) && Value(a) == Value(b)
    requires a.scale <= b.scale
    ensures a == b
  {
    var k: nat := b.scale - a.scale;
    WidenToScale(a, b);
    ShiftedEndsInZero(a.mant, k);
    assert k == 0;
  }

  /** Widening a to the scale of an equal-valued b gives b's mantissa. */
  lemma {:induction false} WidenToScale(a: Dec, b: Dec)
    requires Value(a) == Value(b) && a.scale <= b.scale
    ensures Shifted(a.mant, b.scale - a.scale) == b.mant
  {
    AppendZerosTo(a.mant, a.scale, b.scale);
    assert a == Dec(a.mant, a.scale) && b == Dec(b.mant, b.scale);
    SameScale(Shifted(a.mant, b.scale - a.scale), b.mant, b.scale);
  }

  /** AppendZeros, stated by the target scale. */
  lemma {:induction false} AppendZerosTo(m: int, s: nat, t: nat)
    requires s <= t
    ensures Value(Dec(Shifted(m, t - s), t)) == Value(Dec(m, s))
  {
    AppendZeros(m, s, t - s);
    assert Dec(Shifted(m, t - s), s + (t - s)) == Dec(Shifted(m, t - s), t);
  }

  /** A mantissa widened by at least one zero ends in zero. */
  lemma {:induction false} ShiftedEndsInZero(m: int, k: nat)
    ensures k > 0 ==> Shifted(m, k) % 10 == 0
  {
    if k > 0 {
      TenfoldEndsInZero(Shifted(m, k - 1));
    }
  }

  lemma {:induction false} TenfoldEndsInZero(n: int)
    ensures (10 * n) % 10 == 0
  {
  }

  /** The canonical form of a decimal that holds an integer has no digits after the point. */
  lemma {:induction false} CanonicalInteger(d: Dec, n: int)
    requires Canonical(d) && Value(d) == n as real
    ensures d == Dec(n, 0)
  {
    CanonicalUnique(d, Dec(n, 0));
  }

  /** n / 10^k printed canonically needs at most k digits after the point. */
  lemma {:induction false} CanonicalScaleBound(d: Dec, n: int, k: nat)
    requires Canonical(d) && Value(d) == Value(Dec(n, k))
    ensures d.scale <= k
  {
    CanonicalUnique(d, Normalize(Dec(n, k)));
  }
}
