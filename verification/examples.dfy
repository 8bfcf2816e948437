/**
 * The calls the library documents and checks, worked out on the model.
 * Integer operands are the decimals with scale 0; 2.125 is Dec(2125, 3).
 */
module Examples {
  import opened Prelude
  import opened ExactDecimal
  import opened Calc
  import opened Divisibility
  import opened Variadic

  /** add(2, 2) is 4. */
  lemma {:induction false} AddTwoTwo()
    ensures Add(Dec(2, 0), Dec(2, 0)) == Dec(4, 0)
  {
    CanonicalInteger(Add(Dec(2, 0), Dec(2, 0)), 4);
  }

  /** sub(4, 2) is 2. */
  lemma {:induction false} SubFourTwo()
    ensures Sub(Dec(4, 0), Dec(2, 0)) == Dec(2, 0)
  {
    CanonicalInteger(Sub(Dec(4, 0), Dec(2, 0)), 2);
  }

  /** mul(2, 2) is 4. */
  lemma {:induction false} MulTwoTwo()
    ensures Mul(Dec(2, 0), Dec(2, 0)) == Dec(4, 0)
  {
    CanonicalInteger(Mul(Dec(2, 0), Dec(2, 0)), 4);
  }

  /** 0.1 + 0.2 is exactly 0.3. */
  lemma {:induction false} AddTenths()
    ensures Add(Dec(1, 1), Dec(2, 1)) == Dec(3, 1)
  {
    CanonicalUnique(Add(Dec(1, 1), Dec(2, 1)), Dec(3, 1));
  }

  /** div(2, 2) is 1. */
  lemma {:induction false} DivTwoTwo()
    ensures Div(Dec(2, 0), Dec(2, 0)) == Some(Dec(1, 0))
  {
    DivSelf(Dec(2, 0));
  }

  /** 2.125 * 10 is 21.25. */
  lemma {:induction false} ScaledByTen(x: Dec, ratio: nat)
    requires ratio == 1 && x == Dec(2125, 3)
    ensures Value(x) * Pow10Real(ratio) == 21.25
  {
    assert Value(x) == 2.125;
    assert Pow10Real(ratio) == 10.0;
  }

  /** round(2.125, 1) is 2.1: 21.25 rounds to 21. */
  lemma {:induction false} RoundTwoPointOneTwoFive()
    ensures Round(Dec(2125, 3), 1) == Dec(21, 1)
  {
    var r := Round(Dec(2125, 3), 1);
    RoundTwoPointOneTwoFiveOf(Dec(2125, 3), r);
    assert r == Dec(r.mant, r.scale);
  }

  /** The same, for an operand given by its fields. */
  lemma {:induction false} RoundTwoPointOneTwoFiveOf(x: Dec, r: Dec)
    requires x.mant == 2125 && x.scale == 3 && r == Round(x, 1)
    ensures r.mant == 21 && r.scale == 1
  {
    var ratio: nat := 1;
    RoundIsScaledInteger(x, ratio, r);
    ScaledByTen(x, ratio);
    assert JsRound(21.25) == 21;
  }

  /** 2.1235 * 100 is 212.35. */
  lemma {:induction false} ScaledByHundred(x: Dec, ratio: nat)
    requires ratio == 2 && x == Dec(21235, 4)
    ensures Value(x) * Pow10Real(ratio) == 212.35
  {
    assert Value(x) == 2.1235;
    assert Pow10Real(ratio) == 100.0;
  }

  /** round(2.1235, 2) is 2.12: 212.35 rounds to 212. */
  lemma {:induction false} RoundToTwoPlaces()
    ensures Round(Dec(21235, 4), 2) == Dec(212, 2)
  {
    var r := Round(Dec(21235, 4), 2);
    RoundToTwoPlacesOf(Dec(21235, 4), r);
    assert r == Dec(r.mant, r.scale);
  }

  /** The same, for an operand given by its fields. */
  lemma {:induction false} RoundToTwoPlacesOf(x: Dec, r: Dec)
    requires x.mant == 21235 && x.scale == 4 && r == Round(x, 2)
    ensures r.mant == 212 && r.scale == 2
  {
    var ratio: nat := 2;
    RoundIsScaledInteger(x, ratio, r);
    ScaledByHundred(x, ratio);
    assert JsRound(212.35) == 212;
  }

  /** 2.1235 * 1000 is 2123.5. */
  lemma {:induction false} ScaledByThousand(x: Dec, ratio: nat)
    requires ratio == 3 && x == Dec(21235, 4)
    ensures Value(x) * Pow10Real(ratio) == 2123.5
  {
    assert Value(x) == 2.1235;
    assert Pow10Real(ratio) == 1000.0;
  }

  /** round(2.1235, 3) is 2.124: the tie 2123.5 rounds up. */
  lemma {:induction false} RoundToThreePlaces()
    ensures Round(Dec(21235, 4), 3) == Dec(2124, 3)
  {
    var r := Round(Dec(21235, 4), 3);
    RoundToThreePlacesOf(Dec(21235, 4), r);
    assert r == Dec(r.mant, r.scale);
  }

  /** The same, for an operand given by its fields. */
  lemma {:induction false} RoundToThreePlacesOf(x: Dec, r: Dec)
    requires x.mant == 21235 && x.scale == 4 && r == Round(x, 3)
    ensures r.mant == 2124 && r.scale == 3
  {
    var ratio: nat := 3;
    RoundIsScaledInteger(x, ratio, r);
    ScaledByThousand(x, ratio);
    assert JsRound(2123.5) == 2124;
  }

  /** -2.5 * 10^0 is -2.5. */
  lemma {:induction false} ScaledByOne(x: Dec, ratio: nat)
    requires ratio == 0 && x == Dec(-25, 1)
    ensures Value(x) * Pow10Real(ratio) == -2.5
  {
    assert Value(x) == -2.5;
    assert Pow10Real(ratio) == 1.0;
  }

  /** round(-2.5, 0) is -2: Math.round takes a tie up, toward +infinity, also below zero. */
  lemma {:induction false} NegativeTieRoundsUp(x: Dec, r: Dec)
    requires x.mant == -25 && x.scale == 1 && r == Round(x, 0)
    ensures r.mant == -2 && r.scale == 0
  {
    var ratio: nat := 0;
    RoundIsScaledInteger(x, ratio, r);
    ScaledByOne(x, ratio);
    assert JsRound(-2.5) == -2;
  }

  /** mul(2, 2, 2) is 8. */
  lemma {:induction false} MulThreeTwos()
    ensures MulAll(Dec(2, 0), Dec(2, 0), [Dec(2, 0)]) == Dec(8, 0)
  {
    var r := MulAll(Dec(2, 0), Dec(2, 0), [Dec(2, 0)]);
    MulThreeTwosOf(Dec(2, 0));
    assert r == Dec(r.mant, r.scale);
  }

  /** The same, for an operand given by its fields. */
  lemma {:induction false} MulThreeTwosOf(two: Dec)
    requires two.mant == 2 && two.scale == 0
    ensures MulAll(two, two, [two]).mant == 8 && MulAll(two, two, [two]).scale == 0
  {
    var r := MulAll(two, two, [two]);
    assert ProductOf([two]) == 2.0;
    CanonicalInteger(r, 8);
  }

  /** add(2, 2, 2) is 6. */
  lemma {:induction false} AddThreeTwos()
    ensures AddAll(Dec(2, 0), Dec(2, 0), [Dec(2, 0)]) == Dec(6, 0)
  {
    AddThreeTwosOf(Dec(2, 0));
  }

  /** The same, for an operand given by its fields. */
  lemma {:induction false} AddThreeTwosOf(two: Dec)
    requires two.mant == 2 && two.scale == 0
    ensures AddAll(two, two, [two]).mant == 6 && AddAll(two, two, [two]).scale == 0
  {
    var r := AddAll(two, two, [two]);
    AddAllOfThree(two, two, two);
    assert Value(two) == 2.0;
    CanonicalInteger(r, 6);
  }

  /** Three operands: the value of the fold is the sum of the three values. */
  lemma {:induction false} AddAllOfThree(a: Dec, b: Dec, c: Dec)
    ensures Value(AddAll(a, b, [c])) == Value(a) + Value(b) + Value(c)
  {
    assert [c][1..] == [];
  }

  /** sub(2, 2, 2) is -2. */
  lemma {:induction false} SubThreeTwos()
    ensures SubAll(Dec(2, 0), Dec(2, 0), [Dec(2, 0)]) == Dec(-2, 0)
  {
    var r := SubAll(Dec(2, 0), Dec(2, 0), [Dec(2, 0)]);
    SubThreeTwosOf(Dec(2, 0));
    assert r == Dec(r.mant, r.scale);
  }

  /** The same, for an operand given by its fields. */
  lemma {:induction false} SubThreeTwosOf(two: Dec)
    requires two.mant == 2 && two.scale == 0
    ensures SubAll(two, two, [two]).mant == -2 && SubAll(two, two, [two]).scale == 0
  {
    var r := SubAll(two, two, [two]);
    SubAllOfThree(two, two, two);
    assert Value(two) == 2.0;
    CanonicalInteger(r, -2);
  }

  /** Three operands: the value of the fold is the first value minus the other two. */
  lemma {:induction false} SubAllOfThree(a: Dec, b: Dec, c: Dec)
    ensures Value(SubAll(a, b, [c])) == Value(a) - Value(b) - Value(c)
  {
    assert [c][1..] == [];
  }

  /** div(2, 2, 2) is 0.5. */
  lemma {:induction false} DivThreeTwos()
    ensures NonZero([Dec(2, 0)])
    ensures DivAll(Dec(2, 0), Dec(2, 0), [Dec(2, 0)]) == Some(Dec(5, 1))
  {
    DivTwoTwo();
    DivAllOfThree(Dec(2, 0), Dec(2, 0), Dec(2, 0), Dec(1, 0));
    OneHalf(Dec(1, 0), Dec(2, 0));
  }

  /** Three operands: the fold divides the first quotient by the third operand. */
  lemma {:induction false} DivAllOfThree(a: Dec, b: Dec, c: Dec, q: Dec)
    requires b.mant != 0 && c.mant != 0 && Div(a, b) == Some(q)
    ensures NonZero([c])
    ensures DivAll(a, b, [c]) == Div(q, c)
  {
    assert [c][1..] == [];
  }

  /** 1 / 2 is 0.5: 2 divides 1 * 10, and the quotient times 2 is 1. */
  lemma {:induction false} OneHalf(one: Dec, two: Dec)
    requires one.mant == 1 && one.scale == 0 && two.mant == 2 && two.scale == 0
    ensures Div(one, two).Some? && Div(one, two).value.mant == 5 && Div(one, two).value.scale == 1
  {
    assert DividesShifted(one.mant, two.mant, 1);
    var r := Div(one, two).value;
    QuotientTimes(one, two, r);
    assert Value(one) == 1.0 && Value(two) == 2.0;
    Half(Value(r), Value(two), Value(one));
    CanonicalUnique(r, Dec(5, 1));
  }

  lemma {:induction false} Half(v: real, t: real, u: real)
    requires t == 2.0 && u == 1.0 && Times(v, t) == u
    ensures v == 0.5
  {
  }
}
