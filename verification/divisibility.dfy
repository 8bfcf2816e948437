/**
 * When a quotient of two integers has a finite decimal expansion. p / q has
 * one exactly when q divides p * 10^s for some s; this module proves that the
 * smallest such s is never larger than |q|, so a search for the number of
 * decimals that stops at |q| finds every terminating quotient.
 */
module Divisibility {
  import opened Prelude
  import opened ExactDecimal

  /** q divides p * 10^j: p / q has at most j decimals. */
  predicate DividesShifted(p: int, q: int, j: nat)
    requires q != 0
  {
    Shifted(p, j) % q == 0
  }

  /** A multiple of q leaves no remainder. */
  lemma {:induction false} MultipleHasNoRemainder(q: int, t: int)
    requires q != 0
    ensures (q * t) % q == 0
  {
    var x := q * t;
    var u := x / q;
    assert x == q * u + x % q;
    assert q * (t - u) == x % q;
    if t - u > 0 {
      Outgrows(q, t - u);
    } else if t - u < 0 {
      Outgrows(q, u - t);
    }
  }

  /** A non-zero multiple of q is at least |q| in magnitude. */
  lemma {:induction false} Outgrows(q: int, k: int)
    requires q != 0 && k > 0
    ensures Abs(q * k) >= Abs(q)
  {
    if k > 1 {
      Outgrows(q, k - 1);
      assert q * k == q * (k - 1) + q;
    }
  }

  /** Without remainder, x is q times its quotient. */
  lemma {:induction false} NoRemainderIsMultiple(x: int, q: int)
    requires q != 0 && x % q == 0
    ensures x == q * (x / q)
  {
  }

  /** Divisibility by q and by -q are the same. */
  lemma {:induction false} NegatedDivisor(x: int, q: int)
    requires q != 0
    ensures x % q == 0 <==> x % -q == 0
  {
    if x % q == 0 {
      NoRemainderIsMultiple(x, q);
      assert x == -q * -(x / q);
      MultipleHasNoRemainder(-q, -(x / q));
    }
    if x % -q == 0 {
      NoRemainderIsMultiple(x, -q);
      assert x == q * -(x / -q);
      MultipleHasNoRemainder(q, -(x / -q));
    }
  }

  /** Appending zeros to c * m appends them to m and multiplies by c. */
  lemma {:induction false} ShiftedFactor(c: int, m: int, k: nat)
    ensures Shifted(c * m, k) == c * Shifted(m, k)
  {
    if k > 0 {
      ShiftedFactor(c, m, k - 1);
      MulTen(c, Shifted(m, k - 1));
    }
  }

  /** One more decimal: p * 10^(k + 1) is (10p) * 10^k. */
  lemma {:induction false} ShiftedOnce(p: int, k: nat)
    ensures Shifted(p, k + 1) == Shifted(10 * p, k)
  {
    ShiftedTwice(p, 1, k);
    assert Shifted(p, 1) == 10 * p;
  }

  /** Dividing a factor c out of both sides of a divisibility. */
  lemma {:induction false} CancelFactor(c: int, h: int, x: int)
    requires c > 0 && h > 0 && (c * x) % (c * h) == 0
    ensures x % h == 0
  {
    var k := (c * x) / (c * h);
    NoRemainderIsMultiple(c * x, c * h);
    assert c * x == c * (h * k);
    MultipleHasNoRemainder(h, k);
  }

  /** Multiplying both sides of a divisibility by c. */
  lemma {:induction false} ScaleFactor(c: int, h: int, x: int)
    requires c > 0 && h > 0 && x % h == 0
    ensures (c * x) % (c * h) == 0
  {
    NoRemainderIsMultiple(x, h);
    assert c * x == (c * h) * (x / h);
    MultipleHasNoRemainder(c * h, x / h);
  }

  /**
   * A divisor with no factor 2 and no factor 5 that divides 10x divides x:
   * 10 (x % q) is a multiple v * q of q below 10q, and q's last digit
   * (1, 3, 7 or 9) times a digit v ends in 0 only when v is 0.
   */
  lemma {:induction false} CoprimeToTen(q: int, x: int)
    requires q > 0 && q % 2 != 0 && q % 5 != 0 && (10 * x) % q == 0
    ensures x % q == 0
  {
    var t, r := x / q, x % q;
    var u := (10 * x) / q;
    NoRemainderIsMultiple(10 * x, q);
    assert x == q * t + r;
    var v := u - 10 * t;
    assert q * v == 10 * r by {
      assert 10 * x == q * u;
      assert q * u == q * v + q * (10 * t);
    }
    DigitMultiple(q, v, r);
  }

  /** The last step of CoprimeToTen: q * v == 10r with 0 <= r < q forces r == 0. */
  lemma {:induction false} DigitMultiple(q: int, v: int, r: int)
    requires q > 0 && q % 2 != 0 && q % 5 != 0 && 0 <= r < q && q * v == 10 * r
    ensures r == 0
  {
    SingleDigit(q, v);
    OddFactor(q, v, 5 * r);
    PrimeFiveFactor(q, v, 2 * r);
  }

  /** A multiple q * v of q > 0 in [0, 10q) has 0 <= v < 10. */
  lemma {:induction false} SingleDigit(q: int, v: int)
    requires q > 0 && 0 <= q * v < 10 * q
    ensures 0 <= v < 10
  {
  }

  /** An odd q times v is even only when v is. */
  lemma {:induction false} OddFactor(q: int, v: int, x: int)
    requires q % 2 != 0 && q * v == 2 * x
    ensures v % 2 == 0
  {
    var a := q / 2;
    Distribute(2, a, 1, v);
    assert v == 2 * (x - a * v);
    MultipleHasNoRemainder(2, x - a * v);
  }

  /** q with no factor 5 times v is a multiple of 5 only when v is. */
  lemma {:induction false} PrimeFiveFactor(q: int, v: int, x: int)
    requires q % 5 != 0 && q * v == 5 * x
    ensures v % 5 == 0
  {
    var a, k := q / 5, q % 5;
    Distribute(5, a, k, v);
    FiveDividesMultiple(k, v, x - a * v);
  }

  /** (c * a + k) * v spread out, for q == c * a + k the quotient and remainder of q by c. */
  lemma {:induction false} Distribute(c: int, a: int, k: int, v: int)
    ensures (c * a + k) * v == c * (a * v) + k * v
  {
  }

  /**
   * c * v with c in 1..4 is a multiple of 5 only when v is: c has an inverse
   * modulo 5 (1, 3, 2, 4), and multiplying by it gives v back up to a
   * multiple of 5.
   */
  lemma {:induction false} FiveDividesMultiple(c: int, v: int, y: int)
    requires 1 <= c <= 4 && c * v == 5 * y
    ensures v % 5 == 0
  {
    SmallProduct(c, v);
    var w := if c == 1 then y else if c == 2 then 3 * y - v else if c == 3 then 2 * y - v else 4 * y - 3 * v;
    assert v == 5 * w;
    MultipleHasNoRemainder(5, w);
  }

  /** k * v for k in 1..4, as a sum of copies of v. */
  lemma {:induction false} SmallProduct(k: int, v: int)
    requires 1 <= k <= 4
    ensures k * v == if k == 1 then v else if k == 2 then 2 * v else if k == 3 then 3 * v else 4 * v
  {
  }

  /**
   * If q > 0 divides p * 10^s, it already divides p * 10^j for some j <= q:
   * a factor 2 or 5 of q costs one decimal each, and the rest of q divides p.
   */
  lemma {:induction false} FewestDecimals(p: int, q: int, s: nat) returns (j: nat)
    requires q > 0 && DividesShifted(p, q, s)
    ensures j <= q && DividesShifted(p, q, j)
    decreases q, s
  {
    if s == 0 {
      j := 0;
    } else if q % 2 == 0 {
      j := HalveDivisor(p, q, s, 2, 5);
    } else if q % 5 == 0 {
      j := HalveDivisor(p, q, s, 5, 2);
    } else {
      ShiftedOnce(p, s - 1);
      assert Shifted(p, s) == 10 * Shifted(p, s - 1);
      CoprimeToTen(q, Shifted(p, s - 1));
      j := FewestDecimals(p, q, s - 1);
    }
  }

  /** The step of FewestDecimals for q = c * h with c * d == 10: h divides (d p) * 10^(s - 1). */
  lemma {:induction false} HalveDivisor(p: int, q: int, s: nat, c: int, d: int) returns (j: nat)
    requires q > 0 && s > 0 && DividesShifted(p, q, s)
    requires (c == 2 && d == 5) || (c == 5 && d == 2)
    requires q % c == 0
    ensures j <= q && DividesShifted(p, q, j)
    decreases q, 0
  {
    var h := q / c;
    assert q == c * h;
    ShiftedOnce(p, s - 1);
    ShiftedFactor(c, d * p, s - 1);
    assert 10 * p == c * (d * p);
    CancelFactor(c, h, Shifted(d * p, s - 1));
    var i := FewestDecimals(d * p, h, s - 1);
    ScaleFactor(c, h, Shifted(d * p, i));
    ShiftedFactor(c, d * p, i);
    ShiftedOnce(p, i);
    j := i + 1;
  }

  /**
   * A quotient p / q with some finite number s of decimals has at most |q| of
   * them.
   */
  lemma {:induction false} WithinDivisor(p: int, q: int, s: nat) returns (j: nat)
    requires q != 0 && DividesShifted(p, q, s)
    ensures j <= Abs(q) && DividesShifted(p, q, j)
  {
    NegatedDivisor(Shifted(p, s), q);
    j := FewestDecimals(p, Abs(q), s);
    NegatedDivisor(Shifted(p, j), q);
  }
}
