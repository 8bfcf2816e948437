// The binary operations of the calculator: mul, add, sub, div and round,
// each computed on exact decimals the way the library computes it (scale the
// operands to integers, combine the integers, scale back) and each proved to
// give the exact rational result.

module Calc {
  import opened Prelude
  import opened ExactDecimal
  import opened Divisibility

  /** Number.MAX_SAFE_INTEGER and Number.MIN_SAFE_INTEGER: ±(2^53 - 1). */
  const MaxSafeInteger: int := 0x1F_FFFF_FFFF_FFFF
  const MinSafeInteger: int := -0x1F_FFFF_FFFF_FFFF

  /**
   * checkBoundary: whether an intermediate integer lies outside the range in
   * which a double holds every integer exactly, i.e. |n| >= 2^53.
   */
  function CheckBoundary(n: int): (outside: bool)
    ensures outside <==> Abs(n) >= 0x20_0000_0000_0000
    ensures !outside <==> MinSafeInteger <= n <= MaxSafeInteger
  {
    n > MaxSafeInteger || n < MinSafeInteger
  }

  /** The canonical decimal for Math.pow(10, e). */
  function PowerOfTen(e: int): (p: Dec)
    ensures Canonical(p)
    ensures Value(p) == Pow10Real(e)
    ensures p.mant == Pow10(if e >= 0 then e else 0)
    ensures p.scale == if e >= 0 then 0 else -e
  {
    var k: nat := if e >= 0 then e else 0;
    PowerOfTenValue(e, k);
    Dec(Pow10(k), k - e)
  }

  lemma {:induction false} PowerOfTenValue(e: int, k: nat)
    requires k == if e >= 0 then e else 0
    ensures Value(Dec(Pow10(k), k - e)) == Pow10Real(e)
  {
    if e >= 0 {
      IntegerValue(Pow10(e));
    } else {
      ReciprocalPower(-e);
      assert Dec(Pow10(k), k - e) == Dec(1, -e);
    }
  }

  lemma {:induction false} ReciprocalPower(k: nat)
    ensures Value(Dec(1, k)) == Pow10Real(-(k as int))
  {
    TenthsOfOne(k);
    if k > 0 {
      assert Pow10Real(-(k as int)) == TenthPower(k);
    }
  }

  lemma {:induction false} TenthsOfOne(k: nat)
    ensures Tenths(1, k) == TenthPower(k)
  {
    if k > 0 {
      TenthsOfOne(k - 1);
    }
  }

  /** Division of a decimal by 10^k: the digits stay, the point moves left by k. */
  function ScaleDown(x: Dec, k: nat): (r: Dec)
    ensures Canonical(r)
    ensures Value(r) == Value(Dec(x.mant, x.scale + k))
    ensures r.scale <= x.scale + k
  {
    Normalize(Dec(x.mant, x.scale + k))
  }

  /** An integer divided by 10^k is its digits with k of them after the point. */
  lemma {:induction false} ScaleDownInteger(n: int, k: nat)
    ensures Value(ScaleDown(Dec(n, 0), k)) == Value(Dec(n, k))
  {
    assert Dec(Dec(n, 0).mant, Dec(n, 0).scale + k) == Dec(n, k);
  }

  /** The product of two decimals is the product of their digits, scaled by the sum of their scales. */
  lemma {:induction false} MulValue(a: Dec, b: Dec)
    ensures Value(Dec(a.mant * b.mant, a.scale + b.scale)) == Value(a) * Value(b)
    decreases a.scale
  {
    if a.scale == 0 {
      ScaleMantissa(a.mant, b.mant, b.scale);
    } else {
      var shorter := Dec(a.mant, a.scale - 1);
      MulValue(shorter, b);
      TenthOfProduct(Value(shorter), Value(b));
    }
  }

  lemma {:induction false} TenthOfProduct(x: real, y: real)
    ensures (x * y) / 10.0 == (x / 10.0) * y
  {
  }

  /**
   * mul(a, b): the two operands' digit strings are multiplied as integers and
   * the product is divided by 10^(digitLength(a) + digitLength(b)).
   */
  function Mul(a: Dec, b: Dec): (r: Dec)
    ensures Canonical(r)
    ensures Value(r) == Value(a) * Value(b)
  {
    var leftValue := a.mant * b.mant;
    var baseNum := a.scale + b.scale;
    MulValue(a, b);
    ScaleDown(Dec(leftValue, 0), baseNum)
  }

  /** The shape of a product: the canonical form of the digit product at the summed scale. */
  lemma {:induction false} MulDigits(a: Dec, b: Dec)
    ensures Mul(a, b) == Normalize(Dec(a.mant * b.mant, a.scale + b.scale))
  {
    assert Dec(a.mant * b.mant, 0 + (a.scale + b.scale)) == Dec(a.mant * b.mant, a.scale + b.scale);
  }

  lemma {:induction false} MulCommutes(a: Dec, b: Dec)
    ensures Mul(a, b) == Mul(b, a)
  {
    CanonicalUnique(Mul(a, b), Mul(b, a));
  }

  /** The digits of x written at scale s >= x.scale (x times 10^s, as an integer). */
  function Align(x: Dec, s: nat): (m: int)
    requires x.scale <= s
    ensures Value(Dec(m, s)) == Value(x)
  {
    AppendZerosTo(x.mant, x.scale, s);
    assert x == Dec(x.mant, x.scale);
    Shifted(x.mant, s - x.scale)
  }

  /** The host's own + on two decimals (exact here). */
  function NativeSum(x: Dec, y: Dec): (r: Dec)
    ensures Canonical(r)
    ensures Value(r) == Value(x) + Value(y)
  {
    var s := Max(x.scale, y.scale);
    SumMantissas(Align(x, s), Align(y, s), s);
    Normalize(Dec(Align(x, s) + Align(y, s), s))
  }

  /** The host's own - on two decimals (exact here). */
  function NativeDifference(x: Dec, y: Dec): (r: Dec)
    ensures Canonical(r)
    ensures Value(r) == Value(x) - Value(y)
  {
    var s := Max(x.scale, y.scale);
    SumMantissas(Align(x, s), -Align(y, s), s);
    NegateMantissa(Align(y, s), s);
    Normalize(Dec(Align(x, s) - Align(y, s), s))
  }

  /** Multiplying an operand by 10^m, with m at least its scale, gives the integer of its aligned digits. */
  lemma {:induction false} ScaledOperandIsInteger(a: Dec, m: nat)
    requires a.scale <= m
    ensures Mul(a, Dec(Pow10(m), 0)) == Dec(Align(a, m), 0)
  {
    var aligned := Align(a, m);
    WidenedDigits(a.mant, a.scale, m);
    MulDigits(a, Dec(Pow10(m), 0));
    assert Dec(a.mant * Pow10(m), a.scale + 0) == Dec(Shifted(aligned, a.scale), a.scale);
    AppendZerosTo(aligned, 0, a.scale);
    IntegerValue(aligned);
    CanonicalInteger(Mul(a, Dec(Pow10(m), 0)), aligned);
  }

  /** m * 10^t is m aligned from scale s to t, then shifted s more places. */
  lemma {:induction false} WidenedDigits(m: int, s: nat, t: nat)
    requires s <= t
    ensures m * Pow10(t) == Shifted(Shifted(m, t - s), s)
  {
    ShiftedIsProduct(m, t);
    ShiftedTwice(m, t - s, s);
    assert t - s + s == t;
  }

  /** The host's + on two integers is their integer sum. */
  lemma {:induction false} IntegerSum(x: int, y: int)
    ensures NativeSum(Dec(x, 0), Dec(y, 0)) == Dec(x + y, 0)
  {
    IntegerValue(x);
    IntegerValue(y);
    IntegerValue(x + y);
    CanonicalInteger(NativeSum(Dec(x, 0), Dec(y, 0)), x + y);
  }

  lemma {:induction false} IntegerDifference(x: int, y: int)
    ensures NativeDifference(Dec(x, 0), Dec(y, 0)) == Dec(x - y, 0)
  {
    IntegerValue(x);
    IntegerValue(y);
    IntegerValue(x - y);
    CanonicalInteger(NativeDifference(Dec(x, 0), Dec(y, 0)), x - y);
  }

  /**
   * add(a, b): both operands are multiplied by 10^max(digitLength) with mul,
   * which makes them integers; the integers are added and the sum divided by
   * the same power of ten.
   */
  function Add(a: Dec, b: Dec): (r: Dec)
    ensures Canonical(r)
    ensures Value(r) == Value(a) + Value(b)
  {
    var m := Max(a.scale, b.scale);
    var baseNum := Dec(Pow10(m), 0);
    AddSteps(a, b, m);
    ScaleDown(NativeSum(Mul(a, baseNum), Mul(b, baseNum)), m)
  }

  lemma {:induction false} AddSteps(a: Dec, b: Dec, m: nat)
    requires a.scale <= m && b.scale <= m
    ensures Value(ScaleDown(NativeSum(Mul(a, Dec(Pow10(m), 0)), Mul(b, Dec(Pow10(m), 0))), m))
         == Value(a) + Value(b)
  {
    ScaledOperandIsInteger(a, m);
    ScaledOperandIsInteger(b, m);
    AddScaled(a, b, m);
  }

  /** Adding the aligned integers and moving the point back m places gives the sum. */
  lemma {:induction false} AddScaled(a: Dec, b: Dec, m: nat)
    requires a.scale <= m && b.scale <= m
    ensures Value(ScaleDown(NativeSum(Dec(Align(a, m), 0), Dec(Align(b, m), 0)), m)) == Value(a) + Value(b)
  {
    SumAtScale(Align(a, m), Align(b, m), m);
    AlignedValues(a, b, m);
  }

  /** Two integers added, then divided by 10^m, are the sum of the two divided by 10^m. */
  lemma {:induction false} SumAtScale(x: int, y: int, m: nat)
    ensures Value(ScaleDown(NativeSum(Dec(x, 0), Dec(y, 0)), m)) == Value(Dec(x, m)) + Value(Dec(y, m))
  {
    IntegerSum(x, y);
    ScaleDownInteger(x + y, m);
    SumMantissas(x, y, m);
  }

  lemma {:induction false} AlignedValues(a: Dec, b: Dec, m: nat)
    requires a.scale <= m && b.scale <= m
    ensures Value(Dec(Align(a, m), m)) + Value(Dec(Align(b, m), m)) == Value(a) + Value(b)
    ensures Value(Dec(Align(a, m), m)) - Value(Dec(Align(b, m), m)) == Value(a) - Value(b)
  {
  }

  /** sub(a, b): as add, with the scaled integers subtracted. */
  function Sub(a: Dec, b: Dec): (r: Dec)
    ensures Canonical(r)
    ensures Value(r) == Value(a) - Value(b)
  {
    var m := Max(a.scale, b.scale);
    var baseNum := Dec(Pow10(m), 0);
    SubSteps(a, b, m);
    ScaleDown(NativeDifference(Mul(a, baseNum), Mul(b, baseNum)), m)
  }

  lemma {:induction false} SubSteps(a: Dec, b: Dec, m: nat)
    requires a.scale <= m && b.scale <= m
    ensures Value(ScaleDown(NativeDifference(Mul(a, Dec(Pow10(m), 0)), Mul(b, Dec(Pow10(m), 0))), m))
         == Value(a) - Value(b)
  {
    ScaledOperandIsInteger(a, m);
    ScaledOperandIsInteger(b, m);
    SubScaled(a, b, m);
  }

  /** Subtracting the aligned integers and moving the point back m places gives the difference. */
  lemma {:induction false} SubScaled(a: Dec, b: Dec, m: nat)
    requires a.scale <= m && b.scale <= m
    ensures Value(ScaleDown(NativeDifference(Dec(Align(a, m), 0), Dec(Align(b, m), 0)), m)) == Value(a) - Value(b)
  {
    DifferenceAtScale(Align(a, m), Align(b, m), m);
    AlignedValues(a, b, m);
  }

  lemma {:induction false} DifferenceAtScale(x: int, y: int, m: nat)
    ensures Value(ScaleDown(NativeDifference(Dec(x, 0), Dec(y, 0)), m)) == Value(Dec(x, m)) - Value(Dec(y, m))
  {
    IntegerDifference(x, y);
    ScaleDownInteger(x - y, m);
    SumMantissas(x, -y, m);
    NegateMantissa(y, m);
  }

  lemma {:induction false} AddCommutes(a: Dec, b: Dec)
    ensures Add(a, b) == Add(b, a)
  {
    CanonicalUnique(Add(a, b), Add(b, a));
  }

  lemma {:induction false} AddUndoesSub(a: Dec, b: Dec)
    ensures Add(Sub(a, b), b) == Normalize(a)
  {
    var difference := Sub(a, b);
    CanonicalUnique(Add(difference, b), Normalize(a));
  }

  lemma {:induction false} SubUndoesAdd(a: Dec, b: Dec)
    ensures Sub(Add(a, b), b) == Normalize(a)
  {
    var sum := Add(a, b);
    CanonicalUnique(Sub(sum, b), Normalize(a));
  }

  lemma {:induction false} SubAntiCommutes(a: Dec, b: Dec)
    ensures Value(Sub(a, b)) == -Value(Sub(b, a))
  {
  }

  /**
   * The host's own / on two integers when the quotient terminates: the first
   * k <= |q| for which q divides p * 10^k gives the quotient with k decimals.
   * None stands for a quotient with no finite decimal expansion, which the
   * host would round to the nearest double.
   */
  function NativeQuotient(p: int, q: int): (r: Option<Dec>)
    requires q != 0
    ensures r.Some? ==> Canonical(r.value) && Times(Value(r.value), q as real) == p as real
    ensures r.None? <==> forall j: nat :: 0 <= j <= Abs(q) ==> !DividesShifted(p, q, j)
  {
    QuotientSearch(p, q, 0)
  }

  function QuotientSearch(p: int, q: int, k: nat): (r: Option<Dec>)
    requires q != 0
    ensures r.Some? ==> Canonical(r.value) && Times(Value(r.value), q as real) == p as real
    ensures r.None? <==> forall j: nat :: k <= j <= Abs(q) ==> !DividesShifted(p, q, j)
    decreases Abs(q) + 1 - k
  {
    if Abs(q) < k then None
    else if DividesShifted(p, q, k) then Some(ExactQuotient(p, q, k))
    else
      var r := QuotientSearch(p, q, k + 1);
      SearchStep(p, q, k);
      r
  }

  /** When q does not divide p * 10^k, the search from k fails exactly when the search from k + 1 does. */
  lemma {:induction false} SearchStep(p: int, q: int, k: nat)
    requires q != 0 && !DividesShifted(p, q, k)
    ensures (forall j: nat :: k <= j <= Abs(q) ==> !DividesShifted(p, q, j))
      <==> (forall j: nat :: k + 1 <= j <= Abs(q) ==> !DividesShifted(p, q, j))
  {
    if forall j: nat :: k + 1 <= j <= Abs(q) ==> !DividesShifted(p, q, j) {
      forall j: nat | k <= j <= Abs(q)
        ensures !DividesShifted(p, q, j)
      {
        if j > k {
          assert k + 1 <= j <= Abs(q);
        }
      }
    }
  }

  /** The quotient p / q written with k decimals, when q divides p * 10^k. */
  function ExactQuotient(p: int, q: int, k: nat): (r: Dec)
    requires q != 0 && DividesShifted(p, q, k)
    ensures Canonical(r) && Times(Value(r), q as real) == p as real
  {
    var d := Dec(Shifted(p, k) / q, k);
    QuotientValue(p, q, k);
    SubstituteFactor(Value(Normalize(d)), Value(d), q as real, p as real);
    Normalize(d)
  }

  lemma {:induction false} SubstituteFactor(x': real, x: real, y: real, z: real)
    requires x' == x && x * y == z
    ensures Times(x', y) == z
  {
  }

  lemma {:induction false} QuotientValue(p: int, q: int, k: nat)
    requires q != 0 && DividesShifted(p, q, k)
    ensures Value(Dec(Shifted(p, k) / q, k)) * q as real == p as real
  {
    var digits := Shifted(p, k) / q;
    assert Shifted(p, k) == q * digits;
    ScaleMantissa(q, digits, k);
    AppendZerosTo(p, 0, k);
    assert Dec(q * digits, k) == Dec(Shifted(p, k - 0), k);
    IntegerValue(p);
    Commute(q as real, Value(Dec(digits, k)), p as real);
  }

  lemma {:induction false} Commute(x: real, y: real, z: real)
    requires x * y == z
    ensures y * x == z
  {
  }


  /** Both sides at s more places: equal values stay equal, and only equal values become equal. */
  lemma {:induction false} ScaleBoth(m: int, sm: nat, n: int, sn: nat, s: nat)
    ensures Value(Dec(m, sm + s)) == Value(Dec(n, sn + s)) <==> Value(Dec(m, sm)) == Value(Dec(n, sn))
  {
    if s > 0 {
      ScaleBoth(m, sm, n, sn, s - 1);
      assert Value(Dec(m, sm + s)) == Value(Dec(m, sm + (s - 1))) / 10.0;
      assert Value(Dec(n, sn + s)) == Value(Dec(n, sn + (s - 1))) / 10.0;
    }
  }

  /** 10^(b.scale - a.scale) times b is b's digits with a.scale places after the point. */
  lemma {:induction false} ShiftPoint(a: Dec, b: Dec)
    ensures Value(Mul(PowerOfTen(b.scale - a.scale), b)) == Value(Dec(b.mant, a.scale))
  {
    var p := PowerOfTen(b.scale - a.scale);
    MulDigits(p, b);
    if a.scale <= b.scale {
      var k: nat := b.scale - a.scale;
      ShiftedIsProduct(b.mant, k);
      assert Dec(p.mant * b.mant, p.scale + b.scale) == Dec(Shifted(b.mant, k), b.scale);
      AppendZerosTo(b.mant, a.scale, b.scale);
    } else {
      assert Dec(p.mant * b.mant, p.scale + b.scale) == Dec(b.mant, a.scale);
    }
  }

  /** mul is associative on values. */
  lemma {:induction false} MulAssociates(a: Dec, b: Dec, c: Dec)
    ensures Value(Mul(Mul(a, b), c)) == Value(Mul(a, Mul(b, c)))
  {
    ProductValue(a, b);
    ProductValue(b, c);
    ProductValue(Mul(a, b), c);
    ProductValue(a, Mul(b, c));
    ProductsRegroup(a, b, c, Mul(a, b), Mul(b, c));
  }

  /** The value of a product, as a lemma whose instances are created at the call. */
  lemma {:induction false} ProductValue(x: Dec, y: Dec)
    ensures Value(Mul(x, y)) == Times(Value(x), Value(y))
  {
  }

  lemma {:induction false} ProductsRegroup(a: Dec, b: Dec, c: Dec, ab: Dec, bc: Dec)
    requires Value(ab) == Times(Value(a), Value(b)) && Value(bc) == Times(Value(b), Value(c))
    ensures Times(Value(ab), Value(c)) == Times(Value(a), Value(bc))
  {
  }

  /** mul gives equal values for operands of equal value. */
  lemma {:induction false} MulCongruence(c: Dec, a: Dec, b: Dec)
    requires Value(a) == Value(b)
    ensures Value(Mul(c, a)) == Value(Mul(c, b))
  {
    ProductValue(c, a);
    ProductValue(c, b);
  }

  /** x * y as a function: equal factors then give equal products without arithmetic. */
  function Times(x: real, y: real): real
  {
    x * y
  }

  /** Value(q) * b.mant == a.mant: the same digits q times b's digits at a's scale give a. */
  lemma {:induction false} ScaleQuotient(a: Dec, b: Dec, q: Dec)
    requires Value(q) * b.mant as real == a.mant as real
    ensures Value(Mul(q, Dec(b.mant, a.scale))) == Value(a)
  {
    var digits := q.mant * b.mant;
    MulDigits(q, Dec(b.mant, a.scale));
    assert Mul(q, Dec(b.mant, a.scale)) == Normalize(Dec(digits, q.scale + a.scale));
    MantissaTimes(q, b);
    IntegerValue(a.mant);
    ScaleBoth(digits, q.scale, a.mant, 0, a.scale);
    assert Dec(a.mant, 0 + a.scale) == a;
  }

  /** Multiplying the mantissa by an integer multiplies the value. */
  lemma {:induction false} MantissaTimes(q: Dec, b: Dec)
    ensures Value(Dec(q.mant * b.mant, q.scale)) == Value(q) * b.mant as real
  {
    ScaleMantissa(b.mant, q.mant, q.scale);
    assert b.mant * q.mant == q.mant * b.mant;
    assert Dec(q.mant, q.scale) == q;
  }

  /** The digit quotient q, multiplied by 10^(b.scale - a.scale) with mul, times b gives a back. */
  lemma {:induction false} DivProduct(a: Dec, b: Dec, q: Dec)
    requires Value(q) * b.mant as real == a.mant as real
    ensures Value(Mul(Mul(q, PowerOfTen(b.scale - a.scale)), b)) == Value(a)
  {
    MulAssociates(q, PowerOfTen(b.scale - a.scale), b);
    ShiftPoint(a, b);
    MulCongruence(q, Mul(PowerOfTen(b.scale - a.scale), b), Dec(b.mant, a.scale));
    ScaleQuotient(a, b, q);
  }

  /**
   * div(a, b): the digit strings are divided with the host's /, and the
   * quotient multiplied (with mul) by 10^(digitLength(b) - digitLength(a)).
   * The result is None when that digit quotient has no finite decimal
   * expansion; otherwise multiplying it back by b gives a.
   */
  function Div(a: Dec, b: Dec): (r: Option<Dec>)
    requires b.mant != 0
    ensures r.Some? ==> Canonical(r.value) && Value(Mul(r.value, b)) == Value(a)
    ensures r.None? <==> forall j: nat :: 0 <= j <= Abs(b.mant) ==> !DividesShifted(a.mant, b.mant, j)
  {
    match NativeQuotient(a.mant, b.mant)
    case None => None
    case Some(q) =>
      QuotientOf(a, b, q);
      DivProduct(a, b, q);
      Some(Mul(q, PowerOfTen(b.scale - a.scale)))
  }

  /** The digit quotient, stated for the operands' digits. */
  lemma {:induction false} QuotientOf(a: Dec, b: Dec, q: Dec)
    requires b.mant != 0 && NativeQuotient(a.mant, b.mant) == Some(q)
    ensures Value(q) * b.mant as real == a.mant as real
  {
  }

  /** A terminating quotient is the exact quotient of the values. */
  lemma {:induction false} DivIsQuotient(a: Dec, b: Dec, r: Dec)
    requires b.mant != 0 && Div(a, b) == Some(r)
    ensures Value(r) * Value(b) == Value(a)
  {
    ProductValue(r, b);
  }

  /**
   * The search up to |q| decimals misses nothing: when q divides p * 10^s for
   * any s, native / finds a quotient.
   */
  lemma {:induction false} QuotientFound(p: int, q: int, s: nat)
    requires q != 0 && DividesShifted(p, q, s)
    ensures NativeQuotient(p, q).Some?
  {
    var j := WithinDivisor(p, q, s);
  }

  /** Whenever some decimal d times q is p, native / gives d in canonical form. */
  lemma {:induction false} QuotientIsFound(p: int, q: int, d: Dec)
    requires q != 0 && Times(Value(d), q as real) == p as real
    ensures NativeQuotient(p, q) == Some(Normalize(d))
  {
    ScaleMantissa(q, d.mant, d.scale);
    IntegerValue(p);
    assert d == Dec(d.mant, d.scale);
    CommonScale(q * d.mant, d.scale, p, 0);
    MultipleHasNoRemainder(q, d.mant);
    QuotientFound(p, q, d.scale);
    var r := NativeQuotient(p, q).value;
    CancelFactorReal(Value(r), Value(d), q as real);
    CanonicalUnique(r, Normalize(d));
  }

  /** Two decimals of equal value, widened to the larger scale, have the same digits. */
  lemma {:induction false} CommonScale(m: int, sm: nat, n: int, sn: nat)
    requires Value(Dec(m, sm)) == Value(Dec(n, sn))
    ensures Shifted(m, Max(sm, sn) - sm) == Shifted(n, Max(sm, sn) - sn)
  {
    var t := Max(sm, sn);
    AppendZerosTo(m, sm, t);
    AppendZerosTo(n, sn, t);
    SameScale(Shifted(m, t - sm), Shifted(n, t - sn), t);
  }

  /** Equal products with a non-zero factor have equal cofactors. */
  lemma {:induction false} CancelFactorReal(x: real, y: real, z: real)
    requires z != 0.0 && Times(x, z) == Times(y, z)
    ensures x == y
  {
  }

  /**
   * div finds every exact quotient: when d times b is a, div(a, b) is d in
   * canonical form. So div gives None only when no decimal times b is a.
   */
  lemma {:induction false} DivFindsQuotient(a: Dec, b: Dec, d: Dec)
    requires b.mant != 0 && Value(d) * Value(b) == Value(a)
    ensures Div(a, b) == Some(Normalize(d))
  {
    var k := Max(d.scale + b.scale, a.scale) - (d.scale + b.scale);
    MulValue(d, b);
    assert a == Dec(a.mant, a.scale);
    CommonScale(d.mant * b.mant, d.scale + b.scale, a.mant, a.scale);
    assert d.mant * b.mant == b.mant * d.mant;
    ShiftedFactor(b.mant, d.mant, k);
    MultipleHasNoRemainder(b.mant, Shifted(d.mant, k));
    QuotientFound(a.mant, b.mant, Max(d.scale + b.scale, a.scale) - a.scale);
    var r := Div(a, b).value;
    DivIsQuotient(a, b, r);
    ValueZero(b);
    CancelFactorReal(Value(r), Value(d), Value(b));
    CanonicalUnique(r, Normalize(d));
  }

  /** div undoes mul: div(mul(a, b), b) is a in canonical form. */
  lemma {:induction false} DivUndoesMul(a: Dec, b: Dec)
    requires b.mant != 0
    ensures Div(Mul(a, b), b) == Some(Normalize(a))
  {
    DivFindsQuotient(Mul(a, b), b, a);
  }

  lemma {:induction false} DivSelf(a: Dec)
    requires a.mant != 0
    ensures Div(a, a).Some? && Div(a, a).value.mant == 1 && Div(a, a).value.scale == 0
  {
    assert DividesShifted(a.mant, a.mant, 0);
    SelfQuotient(a, Div(a, a).value);
  }

  lemma {:induction false} SelfQuotient(a: Dec, r: Dec)
    requires a.mant != 0 && Div(a, a) == Some(r)
    ensures r.mant == 1 && r.scale == 0
  {
    DivIsQuotient(a, a, r);
    ValueZero(a);
    UnitQuotient(r, a);
    CanonicalInteger(r, 1);
  }

  lemma {:induction false} UnitQuotient(r: Dec, a: Dec)
    requires Value(a) != 0.0 && Value(r) * Value(a) == Value(a)
    ensures Value(r) == 1.0
  {
  }

  /** n * p is a multiple of p. */
  lemma {:induction false} MultipleMod(n: int, p: int)
    requires p > 0
    ensures (n * p) % p == 0
  {
    var t := n * p;
    var d := n - t / p;
    assert t == p * (t / p) + t % p;
    assert p * d == t % p;
    ProductBounds(p, d);
  }

  lemma {:induction false} ProductBounds(p: int, d: int)
    requires p > 0
    ensures d >= 1 ==> p * d >= p
    ensures d <= -1 ==> p * d <= -p
  {
  }

  /** Dividing an integer by a power of ten always terminates. */
  lemma {:induction false} DivByPowerOfTen(n: int, e: int)
    ensures PowerOfTen(e).mant != 0
    ensures Div(Dec(n, 0), PowerOfTen(e)).Some?
  {
    var j: nat := if e >= 0 then e else 0;
    var base := PowerOfTen(e);
    MultipleMod(n, Pow10(j));
    ShiftedIsProduct(n, j);
    Pow10Exceeds(j);
    assert 0 <= j <= Abs(base.mant) && DividesShifted(n, base.mant, j);
  }

  /** Math.round: the integer nearest to v, ties rounding up. */
  function JsRound(v: real): (n: int)
    ensures n as real <= v + 0.5 < n as real + 1.0
  {
    (v + 0.5).Floor
  }

  /**
   * round(x, ratio): x is scaled by 10^ratio with mul, rounded with
   * Math.round and scaled back with div; scaling the result by 10^ratio
   * gives exactly that rounded integer.
   */
  function Round(x: Dec, ratio: int): (r: Dec)
    ensures Canonical(r)
    ensures Value(Mul(r, PowerOfTen(ratio))) == JsRound(Value(Mul(x, PowerOfTen(ratio)))) as real
  {
    var base := PowerOfTen(ratio);
    var n := JsRound(Value(Mul(x, base)));
    DivByPowerOfTen(n, ratio);
    IntegerValue(n);
    Div(Dec(n, 0), base).value
  }

  /** round's result times 10^ratio is Math.round of x times 10^ratio. */
  lemma {:induction false} RoundValue(x: Dec, ratio: int, r: Dec)
    requires r == Round(x, ratio)
    ensures Value(r) * Pow10Real(ratio) == JsRound(Value(x) * Pow10Real(ratio)) as real
  {
    ScaledValue(r, ratio);
    ScaledValue(x, ratio);
  }

  /** Multiplying by PowerOfTen(e) with mul multiplies the value by 10^e. */
  lemma {:induction false} ScaledValue(d: Dec, e: int)
    ensures Value(Mul(d, PowerOfTen(e))) == Value(d) * Pow10Real(e)
  {
    var p := PowerOfTen(e);
    ProductValue(d, p);
  }

  /** For ratio >= 0, round gives the canonical form of Math.round(x * 10^ratio) / 10^ratio. */
  lemma {:induction false} RoundIsScaledInteger(x: Dec, ratio: nat, r: Dec)
    requires r == Round(x, ratio)
    ensures r == Normalize(Dec(JsRound(Value(x) * Pow10Real(ratio)), ratio))
  {
    var n := JsRound(Value(x) * Pow10Real(ratio));
    var d := Dec(n, ratio);
    RoundValue(x, ratio, r);
    ValueTimesPow(d);
    RoundCancel(r, d, ratio, n);
    CanonicalUnique(r, Normalize(d));
  }

  lemma {:induction false} RoundCancel(r: Dec, d: Dec, ratio: nat, n: int)
    requires d.scale == ratio
    requires Value(r) * Pow10Real(ratio) == n as real && Value(d) * Pow10(d.scale) as real == n as real
    ensures Value(r) == Value(d)
  {
    assert Pow10Real(ratio) == Pow10(ratio) as real;
  }

  /** The rounded value is within half a unit in the last kept place, ties going up. */
  lemma {:induction false} RoundIsNearest(x: Dec, ratio: int, r: Dec)
    requires r == Round(x, ratio)
    ensures -0.5 < (Value(r) - Value(x)) * Pow10Real(ratio) <= 0.5
  {
    RoundValue(x, ratio, r);
    Distribute(r, x, ratio);
  }

  lemma {:induction false} Distribute(r: Dec, x: Dec, e: int)
    ensures (Value(r) - Value(x)) * Pow10Real(e) == Value(r) * Pow10Real(e) - Value(x) * Pow10Real(e)
  {
  }

  /** The rounded value has no more than max(ratio, 0) digits after the point. */
  lemma {:induction false} RoundScale(x: Dec, ratio: int)
    ensures Round(x, ratio).scale <= if ratio > 0 then ratio else 0
  {
    var r := Round(x, ratio);
    var n := JsRound(Value(Mul(x, PowerOfTen(ratio))));
    if ratio >= 0 {
      ScaleBoundFromProduct(r, n, ratio);
    } else {
      IntegerFromProduct(r, n, -ratio);
    }
  }

  lemma {:induction false} ScaleBoundFromProduct(r: Dec, n: int, t: nat)
    requires Canonical(r) && Value(Mul(r, PowerOfTen(t))) == n as real
    ensures r.scale <= t
  {
    var p := PowerOfTen(t);
    MulDigits(r, p);
    ShiftedIsProduct(r.mant, t);
    assert Dec(r.mant * p.mant, r.scale + p.scale) == Dec(Shifted(r.mant, t), r.scale);
    IntegerValue(n);
    ScaleBoth(Shifted(r.mant, t), r.scale, n, 0, t);
    AppendZeros(r.mant, r.scale, t);
    assert Dec(r.mant, r.scale) == r && Dec(n, 0 + t) == Dec(n, t);
    CanonicalScaleBound(r, n, t);
  }

  lemma {:induction false} IntegerFromProduct(r: Dec, n: int, k: nat)
    requires Canonical(r) && Value(Mul(r, PowerOfTen(-(k as int)))) == n as real
    ensures r.scale == 0
  {
    var p := PowerOfTen(-(k as int));
    MulDigits(r, p);
    assert Dec(r.mant * p.mant, r.scale + p.scale) == Dec(r.mant, r.scale + k);
    IntegerValue(n);
    AppendZerosTo(n, 0, k);
    ScaleBoth(r.mant, r.scale, Shifted(n, k), 0, k);
    assert Dec(r.mant, r.scale) == r && Dec(Shifted(n, k), 0 + k) == Dec(Shifted(n, k), k);
    IntegerValue(Shifted(n, k));
    CanonicalInteger(r, Shifted(n, k));
  }

  /** Rounding an already rounded value changes nothing. */
  lemma {:induction false} RoundIdempotent(x: Dec, ratio: int)
    ensures Round(Round(x, ratio), ratio) == Round(x, ratio)
  {
    var r := Round(x, ratio);
    var n := JsRound(Value(Mul(x, PowerOfTen(ratio))));
    FloorOfInteger(n);
    assert JsRound(Value(Mul(r, PowerOfTen(ratio)))) == n;
  }

  lemma {:induction false} FloorOfInteger(n: int)
    ensures JsRound(n as real) == n
  {
  }
}
