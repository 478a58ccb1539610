/** The maths helpers built on the big integers (high_precision_digit.hpp):
    factorial and power by repeated multiplication. */
module BigMaths {
  import opened Wrappers
  import opened Arith
  import Bigint
  import BigintOpt

  /** big_fac: multiplies 1 by 2, 3, ..., n. Any n below 2 gives 1; n ==
      INT_MAX is excluded because the int counter would overflow past it. */
  method BigFac(n: int) returns (r: Bigint.BigInt)
    requires INT_MIN <= n < INT_MAX
    ensures Bigint.Canonical(r) && Bigint.Value(r) == Factorial(if n < 0 then 0 else n)
  {
    r := Bigint.FromInt(1);
    var i := 2;
    while i <= n
      invariant 2 <= i <= (if n < 2 then 2 else n + 1)
      invariant Bigint.Canonical(r) && Bigint.Value(r) == Factorial(i - 1)
    {
      var f := Bigint.FromInt(i);
      r := Bigint.Mul(r, f);
      FactorialStep(i);
      i := i + 1;
    }
    FactorialOfSmall(n, i);
  }

  lemma FactorialStep(i: nat)
    requires i >= 1
    ensures Factorial(i - 1) * i == Factorial(i)
  {
  }

  /** Where the counting loops stop: for n >= 2 at i == n + 1, otherwise at
      i == 2, and then (i - 1)! is n! (or 1 == 0!). */
  lemma FactorialOfSmall(n: int, i: int)
    requires 2 <= i <= (if n < 2 then 2 else n + 1) && i > n
    ensures Factorial(i - 1) == Factorial(if n < 0 then 0 else n)
  {
    if n < 2 {
      assert i == 2;
      assert Factorial(1) == 1 * Factorial(0);
    }
  }

  /** big_fac_opt: the same loop on bigint_opt. Every factor i is below
      10^18 and so has at most two limbs, which keeps each product on the
      naive path: the result is always exact. */
  method BigFacOpt(n: int) returns (r: BigintOpt.BigIntOpt)
    requires INT_MIN <= n < INT_MAX
    ensures BigintOpt.Canonical(r) && BigintOpt.Value(r) == Factorial(if n < 0 then 0 else n)
  {
    r := BigintOpt.FromInt(1);
    var i := 2;
    while i <= n
      invariant 2 <= i <= (if n < 2 then 2 else n + 1)
      invariant BigintOpt.Canonical(r) && BigintOpt.Value(r) == Factorial(i - 1)
    {
      var f := BigintOpt.FromInt(i);
      var m := BigintOpt.Mul(r, f);
      r := m.value;
      FactorialStep(i);
      i := i + 1;
    }
    FactorialOfSmall(n, i);
  }

  /** big_pow: multiplies 1 by the base exp times; exp <= 0 gives 1. */
  method BigPow(base: Bigint.BigInt, exp: int) returns (r: Bigint.BigInt)
    requires Bigint.Canonical(base)
    ensures Bigint.Canonical(r) && Bigint.Value(r) == Power(Bigint.Value(base), if exp < 0 then 0 else exp)
  {
    r := Bigint.FromInt(1);
    var i := 0;
    while i < exp
      invariant 0 <= i <= (if exp < 0 then 0 else exp)
      invariant Bigint.Canonical(r) && Bigint.Value(r) == Power(Bigint.Value(base), i)
    {
      r := Bigint.Mul(r, base);
      PowerStep(Bigint.Value(base), i);
      i := i + 1;
    }
  }

  /** Power(b, i + 1) is Power(b, i) times b. */
  lemma PowerStep(b: int, i: nat)
    ensures Power(b, i) * b == Power(b, i + 1)
  {
  }

  /** big_pow_opt: the same loop on bigint_opt; a product that takes the
      Karatsuba path can fail, and then so does the power. */
  method BigPowOpt(base: BigintOpt.BigIntOpt, exp: int) returns (r: Result<BigintOpt.BigIntOpt>)
    requires BigintOpt.Canonical(base)
    ensures r.Failure? ==> r.error == KaratsubaFault
    ensures exp <= 0 ==> r.Success? && BigintOpt.Value(r.value) == 1
    ensures |base.digits| <= BigintOpt.KARATSUBA_THRESHOLD ==> r.Success?
    ensures r.Success? ==> BigintOpt.Canonical(r.value)
    ensures r.Success? ==> BigintOpt.Value(r.value) == Power(BigintOpt.Value(base), if exp < 0 then 0 else exp)
  {
    var result := BigintOpt.FromInt(1);
    var i := 0;
    while i < exp
      invariant 0 <= i <= (if exp < 0 then 0 else exp)
      invariant BigintOpt.Canonical(result) && BigintOpt.Value(result) == Power(BigintOpt.Value(base), i)
    {
      var m := BigintOpt.Mul(result, base);
      if m.Failure? {
        return Failure(m.error);
      }
      result := m.value;
      PowerStep(BigintOpt.Value(base), i);
      i := i + 1;
    }
    return Success(result);
  }
}
