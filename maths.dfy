/** The integer helpers of maths.hpp: factorial, Fibonacci, primality, gcd
    and lcm on C++ `int`/`long long`, and the compile-time templates Fac, Fib
    and Pow. functions/mathematics.hpp repeats the same functions and the
    Fac/Fib templates, so these members model both files. */
module Maths {
  import opened Wrappers
  import opened Arith

  /** The Fibonacci numbers: 0, 1, 1, 2, 3, 5, ... */
  function Fibonacci(n: nat): nat {
    if n < 2 then n else Fibonacci(n - 1) + Fibonacci(n - 2)
  }

  /** d divides n; only 0 is divisible by 0. */
  predicate Divides(d: nat, n: int) {
    if d == 0 then n == 0 else n % d == 0
  }

  /** n is prime: at least 2 and without a divisor in [2, n). */
  predicate Prime(n: int) {
    n >= 2 && forall d :: 2 <= d < n ==> n % d != 0
  }

  // ---------------------------------------------------------------------------
  // The templates

  /** Fac<N>::value: N * Fac<N - 1>::value down to the specialisation
      Fac<1> == 1, in unsigned long long, which wraps modulo 2^64. Fac<N>
      for N < 1 never reaches the specialisation and does not compile. */
  function FacTemplate(n: int): nat
    requires n >= 1
  {
    if n == 1 then 1 else (n * FacTemplate(n - 1)) % ULL_MODULUS
  }

  /** Fib<N>::value: Fib<N - 1> + Fib<N - 2> above the specialisations
      Fib<0> == 0 and Fib<1> == 1, in unsigned long long. A negative N never
      reaches them and does not compile. */
  function FibTemplate(n: int): nat
    requires n >= 0
  {
    if n < 2 then n else (FibTemplate(n - 1) + FibTemplate(n - 2)) % ULL_MODULUS
  }

  /** Pow<B, E>::value: B * Pow<B, E - 1>::value above Pow<B, 0> == 1, in
      long long. A constant expression that overflows makes the program
      ill-formed, so an overflowing instantiation is None here. */
  function PowTemplate(b: int, e: int): (r: Option<int>)
    requires INT_MIN <= b <= INT_MAX && e >= 0
    ensures r.Some? ==> r.value == Power(b, e) && LLONG_MIN <= r.value <= LLONG_MAX
  {
    if e == 0 then Some(1)
    else
      match PowTemplate(b, e - 1)
      case None => None
      case Some(v) => if LLONG_MIN <= b * v <= LLONG_MAX then Some(b * v) else None
  }

  /** Fac<N> is N! reduced modulo 2^64, so it equals N! up to N = 20. */
  lemma FacTemplateValue(n: int)
    requires n >= 1
    ensures FacTemplate(n) == Factorial(n) % ULL_MODULUS
    ensures n <= 20 ==> FacTemplate(n) == Factorial(n)
  {
    FacTemplateMod(n);
    if n <= 20 {
      FactorialBound(n);
      SmallMod(Factorial(n), ULL_MODULUS);
    }
  }

  lemma {:induction false} FacTemplateMod(n: int)
    requires n >= 1
    ensures FacTemplate(n) == Factorial(n) % ULL_MODULUS
  {
    if n > 1 {
      FacTemplateMod(n - 1);
      ModProduct(n, Factorial(n - 1), ULL_MODULUS);
    }
  }

  /** Fib<N> is the N-th Fibonacci number reduced modulo 2^64, so it is
      exact up to N = 93. */
  lemma FibTemplateValue(n: int)
    requires n >= 0
    ensures FibTemplate(n) == Fibonacci(n) % ULL_MODULUS
    ensures n <= 93 ==> FibTemplate(n) == Fibonacci(n)
  {
    FibTemplateMod(n);
    if n <= 93 {
      FibonacciBound(n);
      SmallMod(Fibonacci(n), ULL_MODULUS);
    }
  }

  lemma {:induction false} FibTemplateMod(n: int)
    requires n >= 0
    ensures FibTemplate(n) == Fibonacci(n) % ULL_MODULUS
  {
    if n >= 2 {
      FibTemplateMod(n - 1);
      FibTemplateMod(n - 2);
      ModSum(Fibonacci(n - 1), Fibonacci(n - 2), ULL_MODULUS);
    }
  }

  lemma SmallMod(x: int, m: int)
    requires 0 <= x < m
    ensures x % m == x
  {
  }

  /** Pow<B, E> compiles whenever every power B^0 .. B^E fits in long long. */
  lemma {:induction false} PowTemplateFits(b: int, e: nat)
    requires INT_MIN <= b <= INT_MAX
    requires forall k | 0 <= k <= e :: LLONG_MIN <= Power(b, k) <= LLONG_MAX
    ensures PowTemplate(b, e) == Some(Power(b, e))
  {
    if e > 0 {
      PowTemplateFits(b, e - 1);
    }
  }

  /** Fac<20> is 20!, while Fac<21> has wrapped past 2^64. */
  lemma FacTemplateExamples()
    ensures FacTemplate(20) == 2432902008176640000
    ensures FacTemplate(21) != Factorial(21)
  {
    FacTemplateValue(20);
    Factorial20();
    FacTemplateMod(21);
    assert Factorial(21) == 21 * Factorial(20);
  }

  /** Fib<20> is 6765, as fib(20). */
  lemma FibTemplateExample()
    ensures FibTemplate(20) == 6765
  {
    FibTemplateValue(20);
    FibonacciUpTo20();
  }

  /** Pow<2, 20> is 1048576. */
  lemma PowTemplateExample()
    ensures PowTemplate(2, 20) == Some(1048576)
  {
    assert Power(2, 5) == 32;
    assert Power(2, 10) == 1024;
    assert Power(2, 15) == 32768;
    assert Power(2, 20) == 1048576;
    forall k | 0 <= k <= 20
      ensures LLONG_MIN <= Power(2, k) <= LLONG_MAX
    {
      PowerMonotone(2, k, 20);
    }
    PowTemplateFits(2, 20);
  }

  lemma ModProduct(n: int, f: int, m: int)
    requires m > 0
    ensures (n * (f % m)) % m == (n * f) % m
  {
    DivModParts(f, m);
    var q := f / m;
    assert n * f == n * (f % m) + (n * q) * m;
    ModShift(n * (f % m), n * q, m);
  }

  lemma ModSum(x: int, y: int, m: int)
    requires m > 0
    ensures (x % m + y % m) % m == (x + y) % m
  {
    DivModParts(x, m);
    DivModParts(y, m);
    assert x + y == (x % m + y % m) + (x / m + y / m) * m;
    ModShift(x % m + y % m, x / m + y / m, m);
  }

  /** Adding a multiple of m does not change the remainder. */
  lemma ModShift(x: int, k: int, m: int)
    requires m > 0
    ensures (x + k * m) % m == x % m
  {
    DivModParts(x, m);
    DivisionUnique(x + k * m, m, x / m + k, x % m);
  }

  // ---------------------------------------------------------------------------
  // fac

  /** fac: for n < 0 reports through ikun_error::throw_inv_arg, which
      throws std::runtime_error; 1 for n = 0 and n = 1,
      otherwise fac(n - 1) * n. Past 20 the long long product overflows,
      which C++ leaves undefined, so n <= 20 is required. */
  function Fac(n: int): (r: Result<int>)
    requires INT_MIN <= n <= 20
    ensures r.Failure? <==> n < 0
    ensures r.Failure? ==> r.error == NegativeFactorial
    ensures r.Success? ==> r.value == Factorial(n) && 1 <= r.value <= LLONG_MAX
  {
    if n < 0 then Failure(NegativeFactorial)
    else if n == 0 then Success(1)
    else if n == 1 then Success(1)
    else
      FactorialBound(n);
      Success(Fac(n - 1).value * n)
  }

  lemma {:induction false} FactorialMonotone(m: nat, n: nat)
    requires m <= n
    ensures 1 <= Factorial(m) <= Factorial(n)
  {
    if m < n {
      FactorialMonotone(m, n - 1);
    } else {
      FactorialPositive(n);
    }
  }

  lemma {:induction false} FactorialPositive(n: nat)
    ensures Factorial(n) >= 1
  {
    if n > 0 {
      FactorialPositive(n - 1);
    }
  }

  /** Every factorial up to 20! fits in long long. */
  lemma FactorialBound(n: nat)
    requires n <= 20
    ensures 1 <= Factorial(n) <= LLONG_MAX
  {
    FactorialMonotone(n, 20);
    Factorial20();
  }

  // ---------------------------------------------------------------------------
  // fib

  /** fib: n itself for n <= 1 (negative n included); otherwise the loop
      that steps (a, b) to (b, a + b) from (0, 1), giving the n-th Fibonacci
      number. From n = 93 on, a + b overflows long long, so n <= 92. */
  method Fib(n: int) returns (r: int)
    requires INT_MIN <= n <= 92
    ensures n <= 1 ==> r == n
    ensures n >= 0 ==> r == Fibonacci(n)
    ensures LLONG_MIN <= r <= LLONG_MAX
  {
    if n <= 1 {
      return n;
    }
    var a, b := 0, 1;
    var i := 2;
    while i <= n
      invariant 2 <= i <= n + 1
      invariant a == Fibonacci(i - 2) && b == Fibonacci(i - 1)
    {
      FibonacciBound(i);
      var temp := a + b;
      assert temp <= LLONG_MAX;
      a := b;
      b := temp;
      i := i + 1;
    }
    FibonacciBound(n);
    return b;
  }

  lemma {:induction false} FibonacciMonotone(m: nat, n: nat)
    requires m <= n
    ensures Fibonacci(m) <= Fibonacci(n)
  {
    if m < n {
      FibonacciMonotone(m, n - 1);
      if n >= 2 {
        assert Fibonacci(n) == Fibonacci(n - 1) + Fibonacci(n - 2);
      }
    }
  }

  /** Fibonacci numbers at the limits of long long and unsigned long long,
      and fib(20) == 6765. */
  lemma FibonacciValues()
    ensures Fibonacci(20) == 6765
    ensures Fibonacci(92) == 7540113804746346429
    ensures Fibonacci(93) == 12200160415121876738
  {
    FibonacciUpTo92();
    assert Fibonacci(93) == Fibonacci(92) + Fibonacci(91);
  }

  /** Fibonacci numbers computed four at a time. */
  lemma FibonacciUpTo20()
    ensures Fibonacci(20) == 6765 && Fibonacci(21) == 10946
  {
    assert Fibonacci(4) == 3 && Fibonacci(5) == 5;
    assert Fibonacci(8) == 21 && Fibonacci(9) == 34;
    assert Fibonacci(12) == 144 && Fibonacci(13) == 233;
    assert Fibonacci(16) == 987 && Fibonacci(17) == 1597;
    assert Fibonacci(20) == 6765 && Fibonacci(21) == 10946;
  }
  lemma FibonacciUpTo44()
    ensures Fibonacci(44) == 701408733 && Fibonacci(45) == 1134903170
  {
    FibonacciUpTo20();
    assert Fibonacci(24) == 46368 && Fibonacci(25) == 75025;
    assert Fibonacci(28) == 317811 && Fibonacci(29) == 514229;
    assert Fibonacci(32) == 2178309 && Fibonacci(33) == 3524578;
    assert Fibonacci(36) == 14930352 && Fibonacci(37) == 24157817;
    assert Fibonacci(40) == 102334155 && Fibonacci(41) == 165580141;
    assert Fibonacci(44) == 701408733 && Fibonacci(45) == 1134903170;
  }
  lemma FibonacciUpTo68()
    ensures Fibonacci(68) == 72723460248141 && Fibonacci(69) == 117669030460994
  {
    FibonacciUpTo44();
    assert Fibonacci(48) == 4807526976 && Fibonacci(49) == 7778742049;
    assert Fibonacci(52) == 32951280099 && Fibonacci(53) == 53316291173;
    assert Fibonacci(56) == 225851433717 && Fibonacci(57) == 365435296162;
    assert Fibonacci(60) == 1548008755920 && Fibonacci(61) == 2504730781961;
    assert Fibonacci(64) == 10610209857723 && Fibonacci(65) == 17167680177565;
    assert Fibonacci(68) == 72723460248141 && Fibonacci(69) == 117669030460994;
  }
  lemma FibonacciUpTo92()
    ensures Fibonacci(20) == 6765 && Fibonacci(92) == 7540113804746346429 && Fibonacci(93) == 12200160415121876738
  {
    FibonacciUpTo68();
    FibonacciUpTo20();
    assert Fibonacci(72) == 498454011879264 && Fibonacci(73) == 806515533049393;
    assert Fibonacci(76) == 3416454622906707 && Fibonacci(77) == 5527939700884757;
    assert Fibonacci(80) == 23416728348467685 && Fibonacci(81) == 37889062373143906;
    assert Fibonacci(84) == 160500643816367088 && Fibonacci(85) == 259695496911122585;
    assert Fibonacci(88) == 1100087778366101931 && Fibonacci(89) == 1779979416004714189;
    assert Fibonacci(92) == 7540113804746346429 && Fibonacci(93) == 12200160415121876738;
  }
  /** Fibonacci numbers up to the 92nd fit in long long, up to the 93rd in
      unsigned long long. */
  lemma FibonacciBound(n: nat)
    ensures n <= 92 ==> Fibonacci(n) <= LLONG_MAX
    ensures n <= 93 ==> Fibonacci(n) < ULL_MODULUS
  {
    FibonacciValues();
    if n <= 92 {
      FibonacciMonotone(n, 92);
    }
    if n <= 93 {
      FibonacciMonotone(n, 93);
    }
  }

  // ---------------------------------------------------------------------------
  // is_prime

  /** is_prime: false below 2, true for 2 and 3, false for multiples of 2 or
      3, then trial division by i and i + 2 for i = 5, 11, 17, ... while
      i * i <= n. */
  method IsPrime(n: int) returns (b: bool)
    requires INT_MIN <= n <= INT_MAX
    ensures b <==> Prime(n)
  {
    if n <= 1 {
      return false;
    }
    if n <= 3 {
      SmallPrime(n);
      return true;
    }
    if n % 2 == 0 || n % 3 == 0 {
      HasFactor(n, if n % 2 == 0 then 2 else 3);
      return false;
    }
    var i := 5;
    WheelStart(n);
    while i * i <= n
      invariant i >= 5 && i % 6 == 5
      invariant forall d :: 2 <= d < i ==> n % d != 0
      decreases n - i
    {
      SquareAtLeast(i, n);
      if n % i == 0 || n % (i + 2) == 0 {
        TrialDivisor(n, i, if n % i == 0 then i else i + 2);
        return false;
      }
      WheelStep(n, i);
      i := i + 6;
    }
    NoSmallFactor(n, i);
    return true;
  }

  lemma SmallPrime(n: int)
    requires 2 <= n <= 3
    ensures Prime(n)
  {
  }

  /** A divisor strictly between 1 and n rules out primality. */
  lemma HasFactor(n: int, d: int)
    requires 2 <= d < n && n % d == 0
    ensures !Prime(n)
  {
  }

  /** A trial divisor i or i + 2 with i * i <= n that divides n is a proper
      factor of n. */
  lemma TrialDivisor(n: int, i: int, d: int)
    requires i >= 5 && i * i <= n && (d == i || d == i + 2) && n % d == 0
    ensures !Prime(n)
  {
    assert i * i >= 5 * i;
    HasFactor(n, d);
  }

  /** With n coprime to 2 and 3, nothing in [2, 5) divides n. */
  lemma WheelStart(n: int)
    requires n > 3 && n % 2 != 0 && n % 3 != 0
    ensures forall d :: 2 <= d < 5 ==> n % d != 0
  {
    forall d | 2 <= d < 5
      ensures n % d != 0
    {
      if d == 4 && n % 4 == 0 {
        FactorOfFactor(n, 4, 2);
      }
    }
  }

  /** A divisor of n's divisor divides n. */
  lemma FactorOfFactor(n: int, d: int, e: int)
    requires e > 0 && d > 0 && d % e == 0 && n % d == 0
    ensures n % e == 0
  {
    DivModParts(n, d);
    DivModParts(d, e);
    var k, j := n / d, d / e;
    assert n == (k * j) * e by {
      assert n == k * d && d == j * e;
    }
    DivisionUnique(n, e, k * j, 0);
  }

  /** One round of the 6k +- 1 wheel: with n coprime to 2 and 3, the
      numbers i + 1, i + 3, i + 4 and i + 5 (multiples of 2 or 3) cannot
      divide n, and i and i + 2 were just tested. */
  lemma WheelStep(n: int, i: int)
    requires n > 3 && n % 2 != 0 && n % 3 != 0 && i >= 5 && i % 6 == 5
    requires forall d :: 2 <= d < i ==> n % d != 0
    requires n % i != 0 && n % (i + 2) != 0
    ensures (i + 6) % 6 == 5
    ensures forall d :: 2 <= d < i + 6 ==> n % d != 0
  {
    forall d | i <= d < i + 6
      ensures n % d != 0
    {
      if d == i + 1 || d == i + 3 || d == i + 5 {
        assert d % 2 == 0;
        if n % d == 0 {
          FactorOfFactor(n, d, 2);
        }
      } else if d == i + 4 {
        assert d % 3 == 0;
        if n % d == 0 {
          FactorOfFactor(n, d, 3);
        }
      }
    }
  }

  /** A trial divisor whose square is at most n is at most n. */
  lemma SquareAtLeast(i: int, n: int)
    requires i >= 1 && i * i <= n
    ensures i <= n
  {
    assert i * i == i + i * (i - 1);
    assert i * (i - 1) >= 0;
  }

  /** Without a divisor below i, and i * i > n, n has no divisor at all. */
  lemma NoSmallFactor(n: int, i: int)
    requires n >= 2 && i >= 2 && i * i > n
    requires forall d :: 2 <= d < i ==> n % d != 0
    ensures Prime(n)
  {
    forall d | i <= d < n
      ensures n % d != 0
    {
      if n % d == 0 {
        DivModParts(n, d);
        var e := n / d;
        assert n == e * d;
        CoFactorSmall(n, d, e, i);
        DivisionUnique(n, e, d, 0);
        assert false;
      }
    }
  }

  /** The cofactor of a divisor d >= i of n < i * i lies in [2, i). */
  lemma CoFactorSmall(n: int, d: int, e: int, i: int)
    requires 2 <= i <= d < n && n == e * d && i * i > n
    ensures 2 <= e < i
  {
    assert (e - 1) * d == n - d > 0;
    PositiveFactorOf((e - 1), d);
    assert (i - e) * d == i * d - n;
    assert i * d - n >= i * i - n > 0 by {
      assert i * d - i * i == i * (d - i) >= 0;
    }
    PositiveFactorOf(i - e, d);
  }

  lemma PositiveFactorOf(x: int, d: int)
    requires d > 0 && x * d > 0
    ensures x > 0
  {
    SignOfProduct(x, d);
  }

  lemma SignOfProduct(x: int, d: int)
    ensures x <= 0 && d > 0 ==> x * d <= 0
  {
  }

  /** The examples of test.cpp: 5 is prime and 10 is not. */
  lemma PrimeExamples()
    ensures Prime(5) && !Prime(10)
  {
    assert 10 % 2 == 0;
  }

  // ---------------------------------------------------------------------------
  // gcd and lcm

  /** Euclid's algorithm on magnitudes. */
  function Euclid(a: nat, b: nat): (g: nat)
    ensures g == 0 <==> a == 0 && b == 0
    decreases b
  {
    if b == 0 then a else Euclid(b, a % b)
  }

  /** gcd: while b != 0, (a, b) becomes (b, a % b) with C++'s truncating %;
      the result is a. The only pairs C++ leaves undefined are those where
      INT_MIN % -1 would be computed. The magnitudes follow Euclid's
      algorithm, so the result is the greatest common divisor up to sign. */
  method Gcd(a: int, b: int) returns (r: int)
    requires INT_MIN <= a <= INT_MAX && INT_MIN <= b <= INT_MAX
    requires !(a == INT_MIN && b == -1) && !(a == -1 && b == INT_MIN)
    ensures Arith.Abs(r) == Euclid(Arith.Abs(a), Arith.Abs(b))
    ensures a >= 0 && b >= 0 ==> r >= 0
    ensures INT_MIN <= r <= INT_MAX
  {
    var x, y := a, b;
    while y != 0
      invariant INT_MIN <= x <= INT_MAX && INT_MIN <= y <= INT_MAX
      invariant !(x == INT_MIN && y == -1) && !(x == -1 && y == INT_MIN)
      invariant Euclid(Arith.Abs(x), Arith.Abs(y)) == Euclid(Arith.Abs(a), Arith.Abs(b))
      invariant a >= 0 && b >= 0 ==> x >= 0 && y >= 0
      decreases Arith.Abs(y)
    {
      TruncRemMagnitude(x, y);
      var temp := y;
      y := TruncRem(x, y);
      x := temp;
    }
    return x;
  }

  /** Euclid's result divides both arguments. */
  lemma {:induction false} EuclidDivides(a: nat, b: nat)
    ensures Divides(Euclid(a, b), a) && Divides(Euclid(a, b), b)
    decreases b
  {
    if b > 0 {
      EuclidDivides(b, a % b);
      var g := Euclid(a, b);
      DivModParts(a, b);
      if g > 0 {
        Combination(g, b, a % b, a / b, 1);
        assert a == (a / b) * b + 1 * (a % b);
      }
    } else if a > 0 {
      DivisionUnique(a, a, 1, 0);
    }
  }

  /** Euclid's result is a * x + b * y for some integers x and y. */
  lemma {:induction false} Bezout(a: nat, b: nat) returns (x: int, y: int)
    ensures a * x + b * y == Euclid(a, b)
    decreases b
  {
    if b == 0 {
      return 1, 0;
    }
    var x', y' := Bezout(b, a % b);
    DivModParts(a, b);
    var q := a / b;
    x, y := y', x' - q * y';
    calc {
      a * x + b * y;
      a * y' + b * x' - b * (q * y');
      { assert b * (q * y') == (q * b) * y'; }
      b * x' + (a - q * b) * y';
      b * x' + (a % b) * y';
    }
  }

  /** A divisor of x and y divides k * x + j * y. */
  lemma Combination(d: nat, x: int, y: int, k: int, j: int)
    requires d > 0 && x % d == 0 && y % d == 0
    ensures (k * x + j * y) % d == 0
  {
    DivModParts(x, d);
    DivModParts(y, d);
    var p, q := x / d, y / d;
    assert k * x + j * y == (k * p + j * q) * d by {
      assert x == p * d && y == q * d;
    }
    DivisionUnique(k * x + j * y, d, k * p + j * q, 0);
  }

  /** Euclid's result is the greatest common divisor: every common divisor
      of a and b divides it. */
  lemma EuclidGreatest(a: nat, b: nat, d: nat)
    requires Divides(d, a) && Divides(d, b)
    ensures Divides(d, Euclid(a, b))
  {
    var x, y := Bezout(a, b);
    if d > 0 {
      Combination(d, a, b, x, y);
    }
  }

  /** lcm: a / gcd(a, b) * b. lcm(0, 0) divides by gcd(0, 0) == 0 and is
      left out. INT_MIN is kept only beside 0, where gcd is INT_MIN and the
      result is 0; beside any other operand the lcm's magnitude is at least
      2^31 and does not fit an int. */
  method Lcm(a: int, b: int) returns (r: int)
    requires INT_MIN <= a <= INT_MAX && INT_MIN <= b <= INT_MAX && (a != 0 || b != 0)
    requires (a == INT_MIN || b == INT_MIN) ==> (a == 0 || b == 0)
    requires Arith.Abs(a) / Euclid(Arith.Abs(a), Arith.Abs(b)) * Arith.Abs(b) <= INT_MAX
    ensures Divides(Arith.Abs(a), r) && Divides(Arith.Abs(b), r)
    ensures forall m :: Divides(Arith.Abs(a), m) && Divides(Arith.Abs(b), m) ==> Divides(Arith.Abs(r), m)
    ensures a > 0 && b > 0 ==> r > 0
  {
    var g := Gcd(a, b);
    var A, B, G := Arith.Abs(a), Arith.Abs(b), Arith.Abs(g);
    EuclidDivides(A, B);
    DivModParts(A, G);
    var k := A / G;
    assert A == k * G;
    TruncDivExact(a, g, k);
    var q := TruncDiv(a, g);
    r := q * b;
    Arith.AbsProduct(q, b);
    LcmMeaning(A, B, G, k, r);
  }

  /** Dividing a by a divisor g of it leaves +-k exactly. */
  lemma TruncDivExact(a: int, g: int, k: int)
    requires g != 0 && Arith.Abs(a) == k * Arith.Abs(g) && k >= 0
    ensures Arith.Abs(TruncDiv(a, g)) == k
    ensures a > 0 && g > 0 ==> TruncDiv(a, g) == k
    ensures TruncDiv(a, g) * g == a
  {
    DivisionUnique(Arith.Abs(a), Arith.Abs(g), k, 0);
  }

  /** A / G * B is a common multiple of A and B that divides every other. */
  lemma LcmMeaning(A: nat, B: nat, G: nat, k: nat, r: int)
    requires G > 0 && G == Euclid(A, B) && A == k * G && Arith.Abs(r) == k * B
    ensures Divides(A, r) && Divides(B, r)
    ensures forall m :: Divides(A, m) && Divides(B, m) ==> Divides(Arith.Abs(r), m)
  {
    EuclidDivides(A, B);
    var L := k * B;
    if B > 0 {
      DivModParts(B, G);
      var j := B / G;
      assert B == j * G;
      assert L == j * A by {
        assert k * (j * G) == j * (k * G);
      }
      MultipleDivisible(A, j, r);
    } else {
      assert r == 0;
    }
    MultipleDivisible(B, k, r);
    forall m | Divides(A, m) && Divides(B, m)
      ensures Divides(Arith.Abs(r), m)
    {
      LcmDividesMultiple(A, B, G, k, m);
    }
  }

  /** A number of magnitude c * d is divisible by d. */
  lemma MultipleDivisible(d: nat, c: nat, r: int)
    requires Arith.Abs(r) == c * d
    ensures Divides(d, r)
  {
    if d > 0 {
      if r >= 0 {
        DivisionUnique(r, d, c, 0);
      } else {
        DivisionUnique(r, d, -(c as int), 0);
      }
    }
  }

  /** Every common multiple m of A and B is a multiple of A / G * B: with
      A * x + B * y == G, m * G == A * B * (t * x + s * y) where m == A * s
      == B * t. */
  lemma LcmDividesMultiple(A: nat, B: nat, G: nat, k: nat, m: int)
    requires G > 0 && G == Euclid(A, B) && A == k * G
    requires Divides(A, m) && Divides(B, m)
    ensures Divides(k * B, m)
  {
    if A == 0 || B == 0 {
      if A == 0 {
        assert m == 0;
      } else {
        assert m == 0;
      }
      return;
    }
    var x, y := Bezout(A, B);
    DivModParts(m, A);
    DivModParts(m, B);
    var s, t := m / A, m / B;
    var L, c := k * B, t * x + s * y;
    LcmAlgebra(m, A, B, G, k, x, y, s, t, L, c);
    PositiveProduct(k, B);
    DivisionUnique(m, L, c, 0);
  }

  lemma PositiveProduct(x: int, y: int)
    requires x > 0 && y > 0
    ensures x * y > 0
  {
  }

  lemma LcmAlgebra(m: int, A: int, B: int, G: int, k: int, x: int, y: int, s: int, t: int, L: int, c: int)
    requires G > 0 && A * x + B * y == G && m == s * A && m == t * B && A == k * G
    requires L == k * B && c == t * x + s * y
    ensures m == c * L
  {
    assert m * G == m * A * x + m * B * y by {
      assert m * (A * x + B * y) == m * (A * x) + m * (B * y);
    }
    assert m * A * x == A * B * (t * x) by {
      assert m * A == (t * B) * A;
    }
    assert m * B * y == A * B * (s * y) by {
      assert m * B == (s * A) * B;
    }
    assert m * G == A * B * c;
    assert A * B * c == ((k * B) * c) * G by {
      assert A * B * c == (k * G) * B * c;
    }
    CancelFactor(m, (k * B) * c, G);
  }

  lemma CancelFactor(x: int, y: int, g: int)
    requires g > 0 && x * g == y * g
    ensures x == y
  {
    assert (x - y) * g == 0;
  }

  /** The examples of test.cpp: gcd(91, 78) == 13 and lcm(91, 78) == 546. */
  lemma GcdExamples()
    ensures Euclid(91, 78) == 13
    ensures 91 / Euclid(91, 78) * 78 == 546
  {
  }
}
