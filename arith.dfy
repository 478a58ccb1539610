/** Integer reference definitions shared by the models: powers, factorials,
    C++ integer limits and C++'s truncating division. */
module Arith {

  const INT_MAX: int := 0x7fff_ffff
  const INT_MIN: int := -0x8000_0000
  const LLONG_MAX: int := 0x7fff_ffff_ffff_ffff
  const LLONG_MIN: int := -0x8000_0000_0000_0000
  /** 2^64: unsigned long long arithmetic wraps modulo this. */
  const ULL_MODULUS: int := 0x1_0000_0000_0000_0000

  function Abs(x: int): nat {
    if x < 0 then -x else x
  }

  /** x raised to the e-th power. */
  function Power(x: int, e: nat): int {
    if e == 0 then 1 else x * Power(x, e - 1)
  }

  /** n! (1 for n = 0). */
  function Factorial(n: nat): nat {
    if n == 0 then 1 else n * Factorial(n - 1)
  }

  /** 20! is 2432902008176640000. */
  lemma Factorial20()
    ensures Factorial(20) == 2432902008176640000
  {
    assert Factorial(5) == 120;
    assert Factorial(10) == 3628800;
    assert Factorial(15) == 1307674368000;
  }

  /** C++ integer division: the quotient truncated toward zero. */
  function TruncDiv(a: int, b: int): int
    requires b != 0
  {
    if (a < 0) == (b < 0) then Abs(a) / Abs(b) else -(Abs(a) / Abs(b))
  }

  /** C++ `%`: the remainder that goes with TruncDiv; it takes the sign of `a`. */
  function TruncRem(a: int, b: int): int
    requires b != 0
  {
    a - TruncDiv(a, b) * b
  }

  /** The quotient of the magnitudes, negated when exactly one operand is
      negative, is the C++ quotient. */
  lemma TruncDivBySigns(x: int, y: int, q: int, negative: bool)
    requires y != 0 && q == Abs(x) / Abs(y) && negative == ((x < 0) != (y < 0))
    ensures (if negative then -q else q) == TruncDiv(x, y)
  {
  }

  lemma TruncDivNonNegative(a: int, b: int)
    requires a >= 0 && b > 0
    ensures TruncDiv(a, b) == a / b && TruncRem(a, b) == a % b
  {
  }

  /** The C++ remainder has the magnitude of the remainder of the magnitudes
      and the sign of the dividend. */
  lemma TruncRemMagnitude(a: int, b: int)
    requires b != 0
    ensures Abs(TruncRem(a, b)) == Abs(a) % Abs(b)
    ensures a >= 0 ==> TruncRem(a, b) >= 0
    ensures a <= 0 ==> TruncRem(a, b) <= 0
    ensures Abs(TruncDiv(a, b)) * Abs(b) <= Abs(a)
  {
    var A, B := Abs(a), Abs(b);
    var q: int, r: int := A / B, A % B;
    DivModParts(A, B);
    var t := TruncDiv(a, b);
    assert t == q || t == -q;
    assert Abs(t) == q;
    if a >= 0 {
      assert t * b == q * B by { SignedProduct(q, b); }
      assert TruncRem(a, b) == r;
    } else {
      assert t * b == -(q * B) by { SignedProduct(-q, b); }
      assert TruncRem(a, b) == -r;
    }
  }

  lemma DivModParts(A: int, B: int)
    requires B > 0
    ensures A == (A / B) * B + A % B && 0 <= A % B < B
  {
  }

  lemma SignedProduct(q: int, b: int)
    ensures (if b < 0 then -q else q) * b == q * Abs(b)
  {
  }

  /** Multiplying sign-and-magnitude numbers: the magnitudes multiply and the
      sign is the XOR of the signs. */
  lemma SignedMagnitudes(va: int, vb: int, na: bool, nb: bool)
    ensures (if na != nb then -(va * vb) else va * vb) == (if na then -va else va) * (if nb then -vb else vb)
  {
  }

  lemma Distribute(u: int, v: int, w: int)
    ensures (u + v) * w == u * w + v * w
  {
  }

  lemma MulMonotone(a: int, b: int, c: int)
    requires a >= 0 && b <= c
    ensures a * b <= a * c
  {
  }

  lemma AbsProduct(x: int, y: int)
    ensures Abs(x * y) == Abs(x) * Abs(y)
  {
    if x < 0 && y < 0 {
      assert x * y == (-x) * (-y);
    } else if x < 0 {
      assert -(x * y) == (-x) * y;
    } else if y < 0 {
      assert -(x * y) == x * (-y);
    }
  }

  lemma {:induction false} PowerAdd(x: int, m: nat, n: nat)
    ensures Power(x, m + n) == Power(x, m) * Power(x, n)
  {
    if n > 0 {
      PowerAdd(x, m, n - 1);
      calc {
        Power(x, m + n);
        x * Power(x, m + n - 1);
        x * (Power(x, m) * Power(x, n - 1));
        Power(x, m) * (x * Power(x, n - 1));
      }
    }
  }

  lemma {:induction false} PowerPositive(x: int, e: nat)
    requires x > 0
    ensures Power(x, e) > 0
  {
    if e > 0 {
      PowerPositive(x, e - 1);
    }
  }

  lemma {:induction false} PowerMonotone(x: int, m: nat, n: nat)
    requires x >= 1 && m <= n
    ensures 1 <= Power(x, m) <= Power(x, n)
  {
    if n > m {
      PowerMonotone(x, m, n - 1);
      PowerPositive(x, n - 1);
    } else {
      PowerPositive(x, m);
    }
  }

  lemma {:induction false} PowerOfProduct(x: int, y: int, e: nat)
    ensures Power(x * y, e) == Power(x, e) * Power(y, e)
  {
    if e > 0 {
      PowerOfProduct(x, y, e - 1);
      var px, py := Power(x, e - 1), Power(y, e - 1);
      assert Power(x * y, e) == x * y * (px * py);
      Regroup(x, y, px, py);
    }
  }

  lemma Regroup(x: int, y: int, a: int, b: int)
    ensures x * y * (a * b) == (x * a) * (y * b)
  {
  }

  lemma {:induction false} PowerAbs(x: int, e: nat)
    ensures Abs(Power(x, e)) == Power(Abs(x), e)
  {
    if e > 0 {
      PowerAbs(x, e - 1);
      assert Abs(x * Power(x, e - 1)) == Abs(x) * Abs(Power(x, e - 1));
    }
  }

  /** The square-and-multiply step: x^e == (x*x)^(e/2) * (x if e is odd). */
  lemma PowerHalve(x: int, e: nat)
    ensures Power(x, e) == Power(x * x, e / 2) * (if e % 2 == 1 then x else 1)
  {
    PowerOfProduct(x, x, e / 2);
    PowerAdd(x, e / 2, e / 2);
    if e % 2 == 1 {
      PowerAdd(x, e - 1, 1);
      assert e - 1 == e / 2 + e / 2;
    } else {
      assert e == e / 2 + e / 2;
    }
  }

  /** One round of square-and-multiply on plain values: when p splits as
      h times the odd factor, multiplying the accumulator by that factor
      leaves res * p unchanged. */
  lemma AccumulatorStep(res: int, b: int, p: int, h: int, odd: bool)
    requires p == h * (if odd then b else 1)
    ensures res * p == (if odd then res * b else res) * h
  {
    if odd {
      assert res * (h * b) == (res * b) * h;
    }
  }

  /** Quotient and remainder are determined by n == q * d + r with 0 <= r < d. */
  lemma DivisionUnique(n: int, d: int, q: int, r: int)
    requires d > 0 && n == q * d + r && 0 <= r < d
    ensures q == n / d && r == n % d
  {
    var q', r' := n / d, n % d;
    DivModParts(n, d);
    assert (q - q') * d == r' - r;
    ZeroMultiple(q - q', d);
  }

  /** Dividing by p and then by 3 is dividing by 3 * p. */
  lemma NestedQuotient(a: int, p: int)
    requires a >= 0 && p > 0
    ensures a / p / 3 == a / (3 * p)
  {
    var q1, r1 := a / p, a % p;
    DivModParts(a, p);
    var q2, r2 := q1 / 3, q1 % 3;
    DivModParts(q1, 3);
    MulMonotone(p, r2, 2);
    Distribute(q2 * 3, r2, p);
    assert q2 * 3 * p == q2 * (3 * p);
    assert a == q2 * (3 * p) + (r2 * p + r1);
    DivisionUnique(a, 3 * p, q2, r2 * p + r1);
  }

  /** A quotient by a positive divisor never exceeds the dividend. */
  lemma QuotientAtMost(x: int, d: int)
    requires x >= 0 && d >= 1
    ensures 0 <= x / d <= x
  {
    DivModParts(x, d);
    MulMonotone(x / d, 1, d);
  }

  lemma ZeroMultiple(k: int, d: int)
    requires d > 0 && -d < k * d < d
    ensures k == 0
  {
    if k >= 1 {
      MulAtLeastOne(k, d);
    } else if k <= -1 {
      MulAtLeastOne(-k, d);
    }
  }

  lemma MulAtLeastOne(k: int, d: int)
    requires k >= 1 && d > 0
    ensures k * d >= d
  {
  }

  // ---------------------------------------------------------------------------
  // The remainder of the big-integer operator%

  /** What the big-integer operator% computes: the C++ remainder, with the
      divisor added once when that remainder is negative. */
  function AdjustedRem(a: int, b: int): int
    requires b != 0
  {
    var r := TruncRem(a, b);
    if r < 0 then r + b else r
  }

  /** For a positive divisor the adjustment yields the mathematical
      (Euclidean) remainder. */
  lemma AdjustedRemPositive(a: int, b: int)
    requires b > 0
    ensures AdjustedRem(a, b) == a % b
    ensures 0 <= AdjustedRem(a, b) < b
  {
    TruncRemMagnitude(a, b);
    var t := TruncDiv(a, b);
    var r := TruncRem(a, b);
    DivModParts(a, b);
    if r < 0 {
      DivisionUnique(a, b, t - 1, r + b);
    } else {
      DivisionUnique(a, b, t, r);
    }
  }

  /** For a non-negative dividend the adjustment never fires, so quotient and
      remainder recombine to the dividend. */
  lemma AdjustedRemIdentity(a: int, b: int)
    requires a >= 0 && b != 0
    ensures AdjustedRem(a, b) == TruncRem(a, b) >= 0
    ensures TruncDiv(a, b) * b + AdjustedRem(a, b) == a
  {
    TruncRemMagnitude(a, b);
  }

  /** Negative operands: -7 / 2 is -3 while -7 % 2 is 1, so the pair no
      longer recombines to -7; and -7 % -2 is -3, larger in magnitude than
      the divisor. */
  lemma AdjustedRemNegativeOperands()
    ensures TruncDiv(-7, 2) == -3 && AdjustedRem(-7, 2) == 1
    ensures TruncDiv(-7, 2) * 2 + AdjustedRem(-7, 2) != -7
    ensures AdjustedRem(-7, -2) == -3
  {
  }

  // ---------------------------------------------------------------------------
  // The binary search for an integer square root

  /** r is the integer square root of n. */
  predicate IsSquareRoot(r: int, n: int) {
    0 <= r && r * r <= n < (r + 1) * (r + 1)
  }

  /** The state of the sqrt binary search over [left, right] for n >= 2:
      everything below left squares to at most n, everything above right
      squares past n, and result is the last candidate that fitted. */
  predicate SqrtSearch(n: int, left: int, right: int, result: int) {
    n >= 2 && 1 <= left <= right + 1 && right <= n &&
    (left - 1) * (left - 1) <= n && n < (right + 1) * (right + 1) &&
    result >= 1 && result * result <= n && (left == 1 || result == left - 1)
  }

  lemma SqrtStart(n: int)
    requires n >= 2
    ensures SqrtSearch(n, 1, n, 1)
  {
    assert (n + 1) * (n + 1) == n * n + 2 * n + 1;
    MulAtLeastOne(n, n);
  }

  /** The midpoint lies in the range. */
  lemma SqrtMid(left: int, right: int, mid: int)
    requires 1 <= left <= right && mid == (left + right) / 2
    ensures left <= mid <= right
  {
  }

  lemma SqrtLow(n: int, left: int, right: int, result: int, mid: int, left': int)
    requires SqrtSearch(n, left, right, result) && left <= mid <= right && mid * mid < n
    requires left' == mid + 1
    ensures SqrtSearch(n, left', right, mid)
  {
  }

  lemma SqrtHigh(n: int, left: int, right: int, result: int, mid: int, right': int)
    requires SqrtSearch(n, left, right, result) && left <= mid <= right && mid * mid > n
    requires right' == mid - 1
    ensures SqrtSearch(n, left, right', result)
  {
  }

  lemma SqrtExact(m: int, n: int)
    requires m >= 0 && m * m == n
    ensures IsSquareRoot(m, n)
  {
    assert (m + 1) * (m + 1) == m * m + 2 * m + 1;
  }

  /** The state of a sqrt search whose midpoint may fall outside [left,
      right]: the candidate squares to at most n, n is below (right + 1)²,
      and left sits just above the candidate once one has been taken. */
  predicate LooseSqrtSearch(n: int, left: int, right: int, result: int) {
    n >= 2 && left >= 1 && 0 <= result && result * result <= n &&
    right >= 1 && n < (right + 1) * (right + 1) &&
    ((left == 1 && result == 1) || left == result + 1)
  }

  lemma LooseSqrtStart(n: int)
    requires n >= 2
    ensures LooseSqrtSearch(n, 1, n, 1)
  {
    SqrtStart(n);
  }

  /** mid·mid < n: left moves past mid and mid becomes the candidate,
      wherever mid lies. */
  lemma LooseSqrtLow(n: int, left: int, right: int, result: int, mid: int)
    requires LooseSqrtSearch(n, left, right, result) && mid >= 0 && mid * mid < n
    ensures LooseSqrtSearch(n, mid + 1, right, mid)
  {
  }

  /** mid·mid > n: mid is at least 2, and right drops to mid - 1. */
  lemma LooseSqrtHigh(n: int, left: int, right: int, result: int, mid: int)
    requires LooseSqrtSearch(n, left, right, result) && mid >= 0 && mid * mid > n
    ensures LooseSqrtSearch(n, left, mid - 1, result)
  {
    if mid <= 1 {
      MulMonotone(mid, mid, 1);
    }
  }

  /** Once left passes right, the candidate is the integer square root. */
  lemma LooseSqrtEnd(n: int, left: int, right: int, result: int)
    requires LooseSqrtSearch(n, left, right, result) && left > right
    ensures IsSquareRoot(result, n)
  {
    MulMonotone(right + 1, right + 1, result + 1);
    MulMonotone(result + 1, right + 1, result + 1);
  }

  /** When the range is empty the last fitting candidate is the root. */
  lemma SqrtEnd(n: int, left: int, right: int, result: int)
    requires SqrtSearch(n, left, right, result) && left > right
    ensures IsSquareRoot(result, n)
  {
  }
}
