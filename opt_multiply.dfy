/** The two multiplication routines of bigint_opt (high_precision_digit.hpp):
    the schoolbook naive_multiply and the recursive karatsuba_multiply, both on
    little-endian limb vectors in base 10^9.

    karatsuba_multiply does not always compute the product: its z1 borrow adds
    BASE only once, the combined buffer can be too short for z2, and a carry
    bumps the next limb once without propagating. The model runs the routine
    step by step and reports Failure(KaratsubaFault) at each point where the
    C++ leaves the product: a write past the end of the buffer (undefined
    behaviour), a borrow or carry that falls off the top, or a limb that ends
    outside [0, BASE). Everywhere else it proves the result exact. */
module OptMultiply {
  import opened Wrappers
  import opened Arith
  import opened Limbs

  /** bigint_opt's limb base, 10^9. */
  const BASE: int := 1_000_000_000

  /** At or below this many limbs karatsuba_multiply calls naive_multiply. */
  const KARATSUBA_CUTOFF: int := 32

  function Max(x: int, y: int): int {
    if x > y then x else y
  }

  function Min(x: int, y: int): int {
    if x < y then x else y
  }

  // ---------------------------------------------------------------------------
  // naive_multiply

  /** naive_multiply: the schoolbook product into |a| + |b| zeroed limbs, then
      the most-significant zero limbs popped. */
  method NaiveMultiply(a: seq<int>, b: seq<int>) returns (r: seq<int>)
    requires IsLimbs(a, BASE) && IsLimbs(b, BASE) && |a| + |b| >= 1
    ensures IsLimbs(r, BASE) && Trimmed(r) && |r| <= |a| + |b|
    ensures Val(r, BASE) == Val(a, BASE) * Val(b, BASE)
  {
    var full := MulLimbs(a, b, BASE);
    r := StripZeros(full);
    StrippedValue(full, r, BASE);
  }

  /** One step of naive_multiply's inner loop, with an old limb, a carry and
      both factors below BASE, stays inside long long and leaves a carry below
      BASE. */
  lemma NaiveStepFits(old_: int, x: int, y: int, carry: int)
    requires 0 <= old_ < BASE && 0 <= x < BASE && 0 <= y < BASE && 0 <= carry < BASE
    ensures 0 <= old_ + carry + x * y <= LLONG_MAX
    ensures (old_ + carry + x * y) / BASE < BASE
  {
    LimbProductBound(x, y, BASE);
    CarryBound(old_, x * y, carry, BASE);
  }

  // ---------------------------------------------------------------------------
  // The pieces of karatsuba_multiply

  lemma SplitValueLong(a: seq<int>, m: nat)
    requires IsLimbs(a, BASE) && m < |a| <= 2 * m
    ensures IsLimbs(a[..m], BASE) && IsLimbs(a[m..], BASE)
    ensures Val(a, BASE) == Val(a[..m], BASE) + Power(BASE, m) * Val(a[m..], BASE)
  {
    assert forall i | 0 <= i < |a[m..]| :: a[m..][i] == a[m + i];
    ValSplit(a, m, BASE);
  }

  /** low and high are limb sequences that split the value of a at limb m. */
  predicate SplitsAt(a: seq<int>, m: nat, low: seq<int>, high: seq<int>) {
    IsLimbs(low, BASE) && IsLimbs(high, BASE) &&
    Val(a, BASE) == Val(low, BASE) + Power(BASE, m) * Val(high, BASE)
  }

  /** The split of karatsuba_multiply: the low half is the first min(m, |a|)
      limbs, the high half the rest or a single zero limb. */
  method Split(a: seq<int>, m: nat) returns (low: seq<int>, high: seq<int>)
    requires IsLimbs(a, BASE) && |a| <= 2 * m
    ensures low == a[..Min(m, |a|)] && high == if |a| > m then a[m..] else [0]
    ensures |low| <= m && 1 <= |high| <= Max(m, 1)
    ensures SplitsAt(a, m, low, high)
  {
    low := a[..Min(m, |a|)];
    if |a| > m {
      high := a[m..];
      SplitValueLong(a, m);
    } else {
      high := [0];
      assert low == a;
      SingleZeroLimb(Power(BASE, m));
    }
  }

  /** A lone zero limb is worth nothing, whatever its position. */
  lemma SingleZeroLimb(p: int)
    ensures Val([0], BASE) == 0 && p * Val([0], BASE) == 0
  {
    assert Val([0], BASE) == Val([], BASE) + 0 * Power(BASE, 0);
  }

  /** The a_sum / b_sum fill loop: the limb-wise sums of the two halves, in
      m + 1 zeroed limbs. */
  method SumHalves(low: seq<int>, high: seq<int>, m: nat) returns (s: seq<int>)
    requires IsLimbs(low, BASE) && IsLimbs(high, BASE) && |low| <= m && |high| <= m
    ensures |s| == m + 1 && s[m] == 0
    ensures forall i | 0 <= i < m :: 0 <= s[i] <= 2 * BASE - 2
    ensures Val(s, BASE) == Val(low, BASE) + Val(high, BASE)
  {
    s := Zeros(m + 1);
    SumStart(low, high, m);
    var i := 0;
    while i < m
      invariant 0 <= i <= m
      invariant SumState(low, high, s, i, m)
    {
      var av := if i < |low| then low[i] else 0;
      var bv := if i < |high| then high[i] else 0;
      SumHalvesStep(low, high, s, i, m, av + bv);
      s := s[i := av + bv];
      i := i + 1;
    }
    assert LowPart(low, i) == low && LowPart(high, i) == high;
  }

  /** The fill loop's state after i passes: limbs below i hold sums of two
      limbs, limbs from i up are still zero, and the value is the sum of the
      halves' low i limbs. */
  ghost predicate SumState(low: seq<int>, high: seq<int>, s: seq<int>, i: nat, m: nat) {
    i <= m && |s| == m + 1 &&
    (forall k | i <= k <= m :: s[k] == 0) &&
    (forall k | 0 <= k < i :: 0 <= s[k] <= 2 * BASE - 2) &&
    Val(s, BASE) == Val(LowPart(low, i), BASE) + Val(LowPart(high, i), BASE)
  }

  lemma SumStart(low: seq<int>, high: seq<int>, m: nat)
    ensures SumState(low, high, Zeros(m + 1), 0, m)
  {
    ValOfZeros(m + 1, BASE);
    assert LowPart(low, 0) == [] && LowPart(high, 0) == [];
  }

  lemma SumHalvesStep(low: seq<int>, high: seq<int>, s: seq<int>, i: nat, m: nat, v: int)
    requires IsLimbs(low, BASE) && IsLimbs(high, BASE)
    requires i < m && SumState(low, high, s, i, m)
    requires v == (if i < |low| then low[i] else 0) + (if i < |high| then high[i] else 0)
    ensures SumState(low, high, s[i := v], i + 1, m)
  {
    ValUpdate(s, i, v, BASE);
    LowPartStep(low, i, BASE);
    LowPartStep(high, i, BASE);
    var li, hi := (if i < |low| then low[i] else 0), (if i < |high| then high[i] else 0);
    StepAlgebra(Val(s[i := v], BASE), Val(s, BASE), v, li, hi, Power(BASE, i),
                Val(LowPart(low, i + 1), BASE), Val(LowPart(low, i), BASE),
                Val(LowPart(high, i + 1), BASE), Val(LowPart(high, i), BASE));
  }

  lemma StepAlgebra(vs': int, vs: int, v: int, li: int, hi: int, p: int, a': int, a: int, b': int, b: int)
    requires vs' == vs + (v - 0) * p && a' == a + li * p && b' == b + hi * p
    requires vs == a + b && v == li + hi
    ensures vs' == a' + b'
  {
    Distribute(li, hi, p);
  }

  /** The carry loop of karatsuba_multiply on one of a_sum, b_sum (the C++
      loop treats the two vectors independently in one pass): a limb that
      reached BASE drops by BASE and bumps the next limb by one. */
  method CarryOnce(s0: seq<int>, m: nat) returns (s: seq<int>)
    requires |s0| == m + 1 && s0[m] == 0
    requires forall i | 0 <= i < m :: 0 <= s0[i] <= 2 * BASE - 2
    ensures |s| == m + 1 && IsLimbs(s, BASE)
    ensures Val(s, BASE) == Val(s0, BASE)
  {
    s := s0;
    var i := 0;
    while i < m
      invariant 0 <= i <= m && |s| == m + 1 && Val(s, BASE) == Val(s0, BASE)
      invariant forall k | 0 <= k < i :: 0 <= s[k] < BASE
      invariant i < m ==> 0 <= s[i] <= 2 * BASE - 1
      invariant forall k | i < k < m :: s[k] == s0[k]
      invariant 0 <= s[m] <= 1 && (i < m ==> s[m] == 0)
    {
      if s[i] >= BASE {
        CarryMoves(s, i);
        s := s[i := s[i] - BASE];
        if i + 1 < m + 1 {
          s := s[i + 1 := s[i + 1] + 1];
        }
      }
      i := i + 1;
    }
  }

  /** a_sum (or b_sum) after the fill and the carry loop: m + 1 limbs holding
      the sum of the two halves. */
  method SumOfHalves(low: seq<int>, high: seq<int>, m: nat) returns (s: seq<int>)
    requires IsLimbs(low, BASE) && IsLimbs(high, BASE) && |low| <= m && |high| <= m
    ensures |s| == m + 1 && IsLimbs(s, BASE)
    ensures Val(s, BASE) == Val(low, BASE) + Val(high, BASE)
  {
    var s0 := SumHalves(low, high, m);
    s := CarryOnce(s0, m);
  }

  /** Taking BASE off one limb and adding one to the next keeps the value. */
  lemma CarryMoves(s: seq<int>, i: nat)
    requires i + 1 < |s|
    ensures Val(s[i := s[i] - BASE][i + 1 := s[i + 1] + 1], BASE) == Val(s, BASE)
  {
    var t := s[i := s[i] - BASE];
    ValUpdate(s, i, s[i] - BASE, BASE);
    ValUpdate(t, i + 1, s[i + 1] + 1, BASE);
    assert Power(BASE, i + 1) == BASE * Power(BASE, i);
  }

  /** The z1 loop: z1_temp - z0 - z2 limb by limb into max-length zeroed limbs;
      a negative limb gets BASE added once and passes a borrow of -1 on. The
      borrow left after the top limb is returned; the C++ drops it. */
  method SubtractProducts(t: seq<int>, z0: seq<int>, z2: seq<int>) returns (z1: seq<int>, borrow: int)
    ensures |z1| == Max(|t|, Max(|z0|, |z2|))
    ensures borrow == 0 || borrow == -1
    ensures Val(z1, BASE) + borrow * Power(BASE, |z1|) == Val(t, BASE) - Val(z0, BASE) - Val(z2, BASE)
  {
    var maxLen := Max(|t|, Max(|z0|, |z2|));
    z1 := Zeros(maxLen);
    borrow := 0;
    var i := 0;
    SubtractStart(t, z0, z2, maxLen);
    while i < maxLen
      invariant 0 <= i <= maxLen
      invariant SubtractState(t, z0, z2, z1, i, borrow, maxLen)
    {
      var v := borrow + (if i < |t| then t[i] else 0) - (if i < |z0| then z0[i] else 0) - (if i < |z2| then z2[i] else 0);
      var newBorrow := if v < 0 then -1 else 0;
      var limb := if v < 0 then v + BASE else v;
      SubtractStep(t, z0, z2, z1, i, borrow, limb, newBorrow, maxLen);
      z1 := z1[i := limb];
      borrow := newBorrow;
      i := i + 1;
    }
    assert LowPart(t, i) == t && LowPart(z0, i) == z0 && LowPart(z2, i) == z2;
  }

  /** The z1 loop's state after i passes: limbs from i up are still zero, the
      borrow is 0 or -1, and z1 with the borrow at position i is the
      difference of the low i limbs of z1_temp, z0 and z2. */
  ghost predicate SubtractState(t: seq<int>, z0: seq<int>, z2: seq<int>, z1: seq<int>, i: nat, borrow: int, maxLen: nat) {
    i <= maxLen && |z1| == maxLen && (borrow == 0 || borrow == -1) &&
    (forall k | i <= k < maxLen :: z1[k] == 0) &&
    Val(z1, BASE) + borrow * Power(BASE, i)
      == Val(LowPart(t, i), BASE) - Val(LowPart(z0, i), BASE) - Val(LowPart(z2, i), BASE)
  }

  lemma SubtractStart(t: seq<int>, z0: seq<int>, z2: seq<int>, maxLen: nat)
    ensures SubtractState(t, z0, z2, Zeros(maxLen), 0, 0, maxLen)
  {
    ValOfZeros(maxLen, BASE);
    assert LowPart(t, 0) == [] && LowPart(z0, 0) == [] && LowPart(z2, 0) == [];
  }

  lemma SubtractStep(t: seq<int>, z0: seq<int>, z2: seq<int>, z1: seq<int>, i: nat, borrow: int, limb: int, newBorrow: int,
                     maxLen: nat)
    requires i < maxLen && SubtractState(t, z0, z2, z1, i, borrow, maxLen)
    requires newBorrow == 0 || newBorrow == -1
    requires limb + newBorrow * BASE
          == borrow + (if i < |t| then t[i] else 0) - (if i < |z0| then z0[i] else 0) - (if i < |z2| then z2[i] else 0)
    ensures SubtractState(t, z0, z2, z1[i := limb], i + 1, newBorrow, maxLen)
  {
    SubtractValueStep(t, z0, z2, z1, i, borrow, limb, newBorrow);
  }

  lemma SubtractValueStep(t: seq<int>, z0: seq<int>, z2: seq<int>, z1: seq<int>, i: nat, borrow: int, limb: int, newBorrow: int)
    requires i < |z1| && z1[i] == 0
    requires Val(z1, BASE) + borrow * Power(BASE, i)
          == Val(LowPart(t, i), BASE) - Val(LowPart(z0, i), BASE) - Val(LowPart(z2, i), BASE)
    requires limb + newBorrow * BASE
          == borrow + (if i < |t| then t[i] else 0) - (if i < |z0| then z0[i] else 0) - (if i < |z2| then z2[i] else 0)
    ensures Val(z1[i := limb], BASE) + newBorrow * Power(BASE, i + 1)
         == Val(LowPart(t, i + 1), BASE) - Val(LowPart(z0, i + 1), BASE) - Val(LowPart(z2, i + 1), BASE)
  {
    ValUpdate(z1, i, limb, BASE);
    LowPartStep(t, i, BASE);
    LowPartStep(z0, i, BASE);
    LowPartStep(z2, i, BASE);
    var p := Power(BASE, i);
    assert Power(BASE, i + 1) == BASE * p;
    BorrowAlgebra(limb, newBorrow, borrow, if i < |t| then t[i] else 0, if i < |z0| then z0[i] else 0,
                  if i < |z2| then z2[i] else 0, p);
  }

  lemma BorrowAlgebra(limb: int, newBorrow: int, borrow: int, ti: int, xi: int, yi: int, p: int)
    requires limb + newBorrow * BASE == borrow + ti - xi - yi
    ensures limb * p + newBorrow * (BASE * p) == borrow * p + ti * p - xi * p - yi * p
  {
    assert limb * p + newBorrow * (BASE * p) == (limb + newBorrow * BASE) * p;
    assert (borrow + ti - xi - yi) * p == borrow * p + ti * p - xi * p - yi * p;
  }

  /** The first combine loop: z0 copied into the low limbs of a zeroed buffer. */
  method CopyLow(z0: seq<int>, size: nat) returns (result: seq<int>)
    requires |z0| <= size
    ensures |result| == size && Val(result, BASE) == Val(z0, BASE)
  {
    result := Zeros(size);
    var i := 0;
    while i < |z0|
      invariant 0 <= i <= |z0| && |result| == size
      invariant forall k | 0 <= k < i :: result[k] == z0[k]
      invariant forall k | i <= k < size :: result[k] == 0
    {
      result := result[i := z0[i]];
      i := i + 1;
    }
    ValHighZeros(result, |z0|, BASE);
    assert result[..|z0|] == z0;
  }

  /** The z1 and z2 combine loops: z * BASE^shift added into result limb by
      limb; a limb that reaches BASE drops by BASE and bumps the next limb once
      when there is a next limb. None when a write would land past the end
      (undefined behaviour in the C++) or a carry falls off the end. */
  method AddShifted(result0: seq<int>, z: seq<int>, shift: nat) returns (r: Option<seq<int>>)
    ensures r.Some? ==> |r.value| == |result0|
    ensures r.Some? ==> Val(r.value, BASE) == Val(result0, BASE) + Power(BASE, shift) * Val(z, BASE)
    ensures |z| >= 1 && |z| + shift > |result0| ==> r.None?
  {
    var result := result0;
    var i := 0;
    while i < |z|
      invariant 0 <= i <= |z| && |result| == |result0|
      invariant i > 0 ==> i - 1 + shift < |result0|
      invariant Val(result, BASE) == Val(result0, BASE) + Power(BASE, shift) * Val(z[..i], BASE)
    {
      if i + shift >= |result| {
        return None;
      }
      var k := i + shift;
      var cell := result[k] + z[i];
      ValUpdate(result, k, cell, BASE);
      var next := result[k := cell];
      if cell >= BASE {
        if k + 1 < |result| {
          CarryMoves(next, k);
          next := next[k := cell - BASE][k + 1 := next[k + 1] + 1];
        } else {
          return None;
        }
      }
      ShiftedPrefixStep(z, i, shift);
      result := next;
      i := i + 1;
    }
    assert z[..i] == z;
    return Some(result);
  }

  /** One more limb of z, at limb i + shift, extends the shifted prefix. */
  lemma ShiftedPrefixStep(z: seq<int>, i: nat, shift: nat)
    requires i < |z|
    ensures Power(BASE, shift) * Val(z[..i + 1], BASE)
         == Power(BASE, shift) * Val(z[..i], BASE) + z[i] * Power(BASE, i + shift)
  {
    ValPrefixStep(z, i, BASE);
    PowerAdd(BASE, shift, i);
    ghost var ps, pi, vz := Power(BASE, shift), Power(BASE, i), Val(z[..i], BASE);
    assert ps * (vz + z[i] * pi) == ps * vz + z[i] * (ps * pi);
  }

  /** The three partial products recombine to the product of the operands. */
  lemma KaratsubaAlgebra(al: int, ah: int, bl: int, bh: int, p: int, p2: int,
                         z0: int, z2: int, t: int, z1: int)
    requires p2 == p * p
    requires z0 == al * bl && z2 == ah * bh && t == (al + ah) * (bl + bh) && z1 == t - z0 - z2
    ensures z0 + p * z1 + p2 * z2 == (al + p * ah) * (bl + p * bh)
  {
    assert z1 == al * bh + ah * bl;
    assert p * z1 == p * (al * bh) + p * (ah * bl);
    assert p2 * z2 == (p * ah) * (p * bh);
  }

  /** The recursion shrinks: every sub-multiplication has fewer limbs in its
      longer operand than the current one. */
  lemma SplitShrinks(n0: nat, n: nat, m: nat)
    requires n0 > KARATSUBA_CUTOFF && (n == n0 || n == n0 + 1) && n % 2 == 0 && m == n / 2
    ensures m + 1 < n0 && n0 <= 2 * m && Max(n0 - m, 1) < n0
  {
  }

  // ---------------------------------------------------------------------------
  // karatsuba_multiply

  /** karatsuba_multiply: naive_multiply at or below 32 limbs; otherwise the
      split at m = n/2 (n the longer length rounded up to even), the products
      z0 = low*low and z2 = high*high, z1 = (low sums)*(high sums) - z0 - z2,
      and the recombination z0 + z1*BASE^m + z2*BASE^(2m) in |z0| + 2m limbs.
      A success is the exact product in normal form. */
  method Karatsuba(a: seq<int>, b: seq<int>) returns (r: Result<seq<int>>)
    requires IsLimbs(a, BASE) && IsLimbs(b, BASE) && |a| >= 1 && |b| >= 1
    ensures r.Success? ==> IsLimbs(r.value, BASE) && Trimmed(r.value)
    ensures r.Success? ==> Val(r.value, BASE) == Val(a, BASE) * Val(b, BASE)
    ensures r.Failure? ==> r.error == KaratsubaFault && Max(|a|, |b|) > KARATSUBA_CUTOFF
    decreases Max(|a|, |b|)
  {
    var n0 := Max(|a|, |b|);
    if n0 <= KARATSUBA_CUTOFF {
      var p := NaiveMultiply(a, b);
      return Success(p);
    }
    var m, ap, bp := Halves(a, b);
    var aLow, aHigh, aSum := ap.low, ap.high, ap.sum;
    var bLow, bHigh, bSum := bp.low, bp.high, bp.sum;

    var z0 := Karatsuba(aLow, bLow);
    if z0.Failure? {
      return Failure(KaratsubaFault);
    }
    var z2 := Karatsuba(aHigh, bHigh);
    if z2.Failure? {
      return Failure(KaratsubaFault);
    }

    var z1Temp := Karatsuba(aSum, bSum);
    if z1Temp.Failure? {
      return Failure(KaratsubaFault);
    }

    ghost var al, ah, bl, bh := Val(aLow, BASE), Val(aHigh, BASE), Val(bLow, BASE), Val(bHigh, BASE);
    ghost var p := Power(BASE, m);
    SameProduct(Val(z1Temp.value, BASE), Val(aSum, BASE), Val(bSum, BASE), al + ah, bl + bh);
    r := Recombine(z0.value, z2.value, z1Temp.value, m, al, ah, bl, bh);
    if r.Success? {
      SameProduct(Val(r.value, BASE), al + p * ah, bl + p * bh, Val(a, BASE), Val(b, BASE));
    }
  }

  /** One operand's share of karatsuba_multiply's split at m: its low and
      high halves and their limb-wise sum. */
  datatype Parts = Parts(low: seq<int>, high: seq<int>, sum: seq<int>)

  /** The parts of a at m: limb sequences, the halves at most m limbs long
      and splitting the value of a at limb m, the sum m + 1 limbs long and
      worth low + high. */
  predicate PartsOf(a: seq<int>, m: nat, p: Parts) {
    SplitsAt(a, m, p.low, p.high) && IsLimbs(p.sum, BASE) &&
    1 <= |p.low| <= m && 1 <= |p.high| <= m && |p.sum| == m + 1 &&
    Val(p.sum, BASE) == Val(p.low, BASE) + Val(p.high, BASE)
  }

  /** The operands of the three sub-multiplications of karatsuba_multiply:
      n is the longer length rounded up to even, m = n/2, and both operands
      split at m with the sums of their halves. Every part is shorter than
      the operands, which is what ends the recursion. */
  method Halves(a: seq<int>, b: seq<int>) returns (m: nat, ap: Parts, bp: Parts)
    requires IsLimbs(a, BASE) && IsLimbs(b, BASE) && |a| >= 1 && |b| >= 1
    requires Max(|a|, |b|) > KARATSUBA_CUTOFF
    ensures PartsOf(a, m, ap) && PartsOf(b, m, bp)
    ensures m + 1 < Max(|a|, |b|)
  {
    var n0 := Max(|a|, |b|);
    var n := n0;
    if n % 2 == 1 {
      n := n + 1;
    }
    m := n / 2;
    SplitShrinks(n0, n, m);
    ap := SplitAndSum(a, m);
    bp := SplitAndSum(b, m);
  }

  /** One operand's share of Halves: its two halves at m and their sum in
      m + 1 limbs. */
  method SplitAndSum(a: seq<int>, m: nat) returns (p: Parts)
    requires IsLimbs(a, BASE) && 1 <= |a| <= 2 * m
    ensures PartsOf(a, m, p)
  {
    var low, high := Split(a, m);
    var sum := SumOfHalves(low, high, m);
    p := Parts(low, high, sum);
  }

  /** A product stays the same product when its factors are renamed. */
  lemma SameProduct(v: int, x: int, y: int, x': int, y': int)
    requires v == x * y && x == x' && y == y'
    ensures v == x' * y'
  {
  }

  /** The tail of karatsuba_multiply: z1 = z1_temp - z0 - z2, then the
      recombination. Given the three partial products of the halves, a success
      is the product of the recombined operands. */
  method Recombine(z0: seq<int>, z2: seq<int>, t: seq<int>, m: nat, ghost al: int, ghost ah: int, ghost bl: int, ghost bh: int)
    returns (r: Result<seq<int>>)
    requires |z0| >= 1
    requires Val(z0, BASE) == al * bl && Val(z2, BASE) == ah * bh && Val(t, BASE) == (al + ah) * (bl + bh)
    ensures r.Success? ==> IsLimbs(r.value, BASE) && Trimmed(r.value)
    ensures r.Success? ==> Val(r.value, BASE) == (al + Power(BASE, m) * ah) * (bl + Power(BASE, m) * bh)
    ensures r.Failure? ==> r.error == KaratsubaFault
  {
    var z1, borrow := SubtractProducts(t, z0, z2);
    if borrow != 0 {
      return Failure(KaratsubaFault);
    }
    r := Combine(z0, z1, z2, m);
    if r.Failure? {
      return Failure(KaratsubaFault);
    }
    PowerAdd(BASE, m, m);
    KaratsubaAlgebra(al, ah, bl, bh, Power(BASE, m), Power(BASE, 2 * m),
                     Val(z0, BASE), Val(z2, BASE), Val(t, BASE), Val(z1, BASE));
  }

  /** The recombination of karatsuba_multiply: z0 copied into |z0| + 2m zeroed
      limbs, z1 added at limb m and z2 at limb 2m, the top zero limbs popped.
      A success is normal-form limbs whose value is z0 + z1*BASE^m + z2*BASE^(2m). */
  method Combine(z0: seq<int>, z1: seq<int>, z2: seq<int>, m: nat) returns (r: Result<seq<int>>)
    requires |z0| >= 1
    ensures r.Success? ==> IsLimbs(r.value, BASE) && Trimmed(r.value)
    ensures r.Success? ==>
              Val(r.value, BASE) == Val(z0, BASE) + Power(BASE, m) * Val(z1, BASE) + Power(BASE, 2 * m) * Val(z2, BASE)
    ensures r.Failure? ==> r.error == KaratsubaFault
    ensures |z2| > |z0| ==> r.Failure?
  {
    var result := CopyLow(z0, |z0| + 2 * m);
    var withZ1 := AddShifted(result, z1, m);
    if withZ1.None? {
      return Failure(KaratsubaFault);
    }
    var withZ2 := AddShifted(withZ1.value, z2, 2 * m);
    if withZ2.None? {
      return Failure(KaratsubaFault);
    }
    var stripped := StripZeros(withZ2.value);
    StrippedValue(withZ2.value, stripped, BASE);
    if !IsLimbs(stripped, BASE) {
      return Failure(KaratsubaFault);
    }
    return Success(stripped);
  }

}
