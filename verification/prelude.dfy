/**
 * Small definitions shared by the text layer and the arithmetic layer:
 * an optional value (JavaScript's NaN and the non-terminating quotient are
 * both represented by `None`) and exact powers of ten.
 */
module Prelude {

  datatype Option<+T> = None | Some(value: T)

  function Abs(n: int): nat
  {
    if n < 0 then -n else n
  }

  function Max(m: nat, n: nat): nat
  {
    if m < n then n else m
  }

  /** 10^n, exactly (what `Math.pow(10, n)` computes when no rounding occurs). */
  function Pow10(n: nat): (p: nat)
    ensures p >= 1
  {
    if n == 0 then 1 else 10 * Pow10(n - 1)
  }

  /** 10^n outgrows n, so a search up to 10^n reaches n. */
  lemma {:induction false} Pow10Exceeds(n: nat)
    ensures n < Pow10(n)
  {
    if n > 0 {
      Pow10Exceeds(n - 1);
    }
  }

  /** 10^-k, exactly: k steps of dividing by ten. */
  function TenthPower(k: nat): (u: real)
    ensures u > 0.0
  {
    if k == 0 then 1.0 else TenthPower(k - 1) / 10.0
  }

  /** 10^e for a signed exponent, as a real number: a negative exponent divides by ten -e times. */
  function Pow10Real(e: int): (p: real)
    ensures p > 0.0
  {
    if e >= 0 then Pow10(Abs(e)) as real else TenthPower(Abs(e))
  }
}

/** One-step facts of real arithmetic, stated over plain variables so that each proof stays small. */
module RealAlgebra {

  lemma {:induction false} CastMul(a: int, b: int)
    ensures (a * b) as real == a as real * b as real
  {
  }

  lemma {:induction false} FracScale(k: real, x: real, p: real)
    requires p != 0.0
    ensures (k * x) / p == k * (x / p)
  {
  }
}
