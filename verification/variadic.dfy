/**
 * mul, add, sub and div take any number of operands past the first two: the
 * extra ones are folded in from the left, each step one call of the binary
 * operation on the result so far and the next operand.
 */
module Variadic {
  import opened Prelude
  import opened ExactDecimal
  import opened Calc

  /** The sum of the values of xs. */
  function SumOf(xs: seq<Dec>): real
  {
    if |xs| == 0 then 0.0 else Value(xs[0]) + SumOf(xs[1..])
  }

  /** The product of the values of xs. */
  function ProductOf(xs: seq<Dec>): real
  {
    if |xs| == 0 then 1.0 else Times(Value(xs[0]), ProductOf(xs[1..]))
  }

  /** Every operand is non-zero, so each division step has a divisor. */
  predicate NonZero(xs: seq<Dec>)
  {
    forall i :: 0 <= i < |xs| ==> xs[i].mant != 0
  }

  /** mul(a, b, ...rest): the product of all the operands, exactly. */
  function MulAll(a: Dec, b: Dec, rest: seq<Dec>): (r: Dec)
    ensures Canonical(r)
    ensures Value(r) == Times(Times(Value(a), Value(b)), ProductOf(rest))
    decreases |rest|
  {
    if |rest| == 0 then
      ProductValue(a, b);
      Mul(a, b)
    else
      var r := MulAll(Mul(a, b), rest[0], rest[1..]);
      MulStep(a, b, rest, r);
      r
  }

  /** Multiplying a * b by the rest is multiplying a by b and then by the product of the rest. */
  lemma {:induction false} MulStep(a: Dec, b: Dec, rest: seq<Dec>, r: Dec)
    requires |rest| > 0
    requires Value(r) == Times(Times(Value(Mul(a, b)), Value(rest[0])), ProductOf(rest[1..]))
    ensures Value(r) == Times(Times(Value(a), Value(b)), ProductOf(rest))
  {
    ProductValue(a, b);
    Regroup(Value(a), Value(b), Value(rest[0]), ProductOf(rest[1..]), Value(Mul(a, b)), Value(r));
  }

  lemma {:induction false} Regroup(x: real, y: real, z: real, w: real, xy: real, r: real)
    requires xy == Times(x, y) && r == Times(Times(xy, z), w)
    ensures r == Times(Times(x, y), Times(z, w))
  {
  }

  /** add(a, b, ...rest): the sum of all the operands, exactly. */
  function AddAll(a: Dec, b: Dec, rest: seq<Dec>): (r: Dec)
    ensures Canonical(r)
    ensures Value(r) == Value(a) + Value(b) + SumOf(rest)
    decreases |rest|
  {
    if |rest| == 0 then Add(a, b)
    else AddAll(Add(a, b), rest[0], rest[1..])
  }

  /** sub(a, b, ...rest): the first operand minus all the others, exactly. */
  function SubAll(a: Dec, b: Dec, rest: seq<Dec>): (r: Dec)
    ensures Canonical(r)
    ensures Value(r) == Value(a) - Value(b) - SumOf(rest)
    decreases |rest|
  {
    if |rest| == 0 then Sub(a, b)
    else SubAll(Sub(a, b), rest[0], rest[1..])
  }

  /**
   * div(a, b, ...rest): the first operand divided by all the others. None as
   * soon as one step's digit quotient has no finite decimal expansion;
   * otherwise the result times every divisor gives back a.
   */
  function DivAll(a: Dec, b: Dec, rest: seq<Dec>): (r: Option<Dec>)
    requires b.mant != 0 && NonZero(rest)
    ensures r.Some? ==> Canonical(r.value) && Times(Value(r.value), Times(Value(b), ProductOf(rest))) == Value(a)
    ensures Div(a, b).None? ==> r.None?
    decreases |rest|
  {
    match Div(a, b)
    case None => None
    case Some(q) =>
      if |rest| == 0 then
        LastStep(a, b, q, rest);
        Some(q)
      else
        var r := DivAll(q, rest[0], rest[1..]);
        NextStep(a, b, q, rest, r);
        r
  }

  /** A quotient times its divisor is the dividend. */
  lemma {:induction false} QuotientTimes(a: Dec, b: Dec, q: Dec)
    requires b.mant != 0 && Div(a, b) == Some(q)
    ensures Times(Value(q), Value(b)) == Value(a)
  {
    ProductValue(q, b);
  }

  /** One division left: the quotient times the divisor is the dividend. */
  lemma {:induction false} LastStep(a: Dec, b: Dec, q: Dec, rest: seq<Dec>)
    requires b.mant != 0 && Div(a, b) == Some(q) && |rest| == 0
    ensures Times(Value(q), Times(Value(b), ProductOf(rest))) == Value(a)
  {
    QuotientTimes(a, b, q);
    LastDivisor(Value(q), Value(b), Value(a));
  }

  /** Dividing first by b and then by the rest is dividing by the product of all of them. */
  lemma {:induction false} NextStep(a: Dec, b: Dec, q: Dec, rest: seq<Dec>, r: Option<Dec>)
    requires b.mant != 0 && Div(a, b) == Some(q) && |rest| > 0
    requires r.Some? ==> Times(Value(r.value), Times(Value(rest[0]), ProductOf(rest[1..]))) == Value(q)
    ensures r.Some? ==> Times(Value(r.value), Times(Value(b), ProductOf(rest))) == Value(a)
  {
    if r.Some? {
      QuotientTimes(a, b, q);
      Unwind(Value(r.value), Value(b), Value(rest[0]), ProductOf(rest[1..]), Value(q), Value(a));
    }
  }

  lemma {:induction false} LastDivisor(q: real, b: real, a: real)
    requires Times(q, b) == a
    ensures Times(q, Times(b, 1.0)) == a
  {
  }

  lemma {:induction false} Unwind(r: real, b: real, c: real, p: real, q: real, a: real)
    requires Times(r, Times(c, p)) == q && Times(q, b) == a
    ensures Times(r, Times(b, Times(c, p))) == a
  {
  }

  /** The operands enter a product in any order: swapping the first two changes nothing. */
  lemma {:induction false} MulAllSwap(a: Dec, b: Dec, rest: seq<Dec>)
    ensures MulAll(a, b, rest) == MulAll(b, a, rest)
  {
    CanonicalUnique(MulAll(a, b, rest), MulAll(b, a, rest));
  }

  /** The operands enter a sum in any order: swapping the first two changes nothing. */
  lemma {:induction false} AddAllSwap(a: Dec, b: Dec, rest: seq<Dec>)
    ensures AddAll(a, b, rest) == AddAll(b, a, rest)
  {
    CanonicalUnique(AddAll(a, b, rest), AddAll(b, a, rest));
  }

  /** Subtracting several operands is subtracting their sum in one step. */
  lemma {:induction false} SubAllIsSubOfSum(a: Dec, b: Dec, rest: seq<Dec>)
    requires |rest| > 0
    ensures SubAll(a, b, rest) == Sub(a, AddAll(b, rest[0], rest[1..]))
  {
    SumOfCons(rest);
    CanonicalUnique(SubAll(a, b, rest), Sub(a, AddAll(b, rest[0], rest[1..])));
  }

  lemma {:induction false} SumOfCons(xs: seq<Dec>)
    requires |xs| > 0
    ensures SumOf(xs) == Value(xs[0]) + SumOf(xs[1..])
  {
  }
}
