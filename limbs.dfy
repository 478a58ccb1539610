/** Magnitudes stored as little-endian limb sequences, as both big-integer
    classes of high_precision_digit.hpp store them: `digits[0]` is the least
    significant limb. `base` is 10 for bigint and 10^9 for bigint_opt. The
    loops shared by both classes (trim's popping loop, compare_abs, sub_abs,
    the schoolbook multiplication) are here, proved against `Val`. */
module Limbs {
  import opened Arith

  /** The magnitude a limb sequence denotes: the sum of s[i] * base^i. */
  function Val(s: seq<int>, base: int): int {
    if |s| == 0 then 0 else Val(s[..|s| - 1], base) + s[|s| - 1] * Power(base, |s| - 1)
  }

  /** Every limb lies in [0, base). */
  predicate IsLimbs(s: seq<int>, base: int) {
    forall i | 0 <= i < |s| :: 0 <= s[i] < base
  }

  /** The normal form: at least one limb, and no most-significant zero limb
      unless the whole sequence is [0]. */
  predicate Trimmed(s: seq<int>) {
    |s| >= 1 && (|s| > 1 ==> s[|s| - 1] != 0)
  }

  function Zeros(n: nat): (z: seq<int>)
    ensures |z| == n && forall i | 0 <= i < n :: z[i] == 0
  {
    seq(n, _ => 0)
  }

  // ---------------------------------------------------------------------------
  // The value of a limb sequence

  lemma ValAppend(s: seq<int>, d: int, base: int)
    ensures Val(s + [d], base) == Val(s, base) + d * Power(base, |s|)
  {
    assert (s + [d])[..|s|] == s;
  }

  lemma ValPrefixStep(s: seq<int>, k: nat, base: int)
    requires k < |s|
    ensures Val(s[..k + 1], base) == Val(s[..k], base) + s[k] * Power(base, k)
  {
    assert s[..k + 1][..k] == s[..k];
  }

  /** Cutting a limb sequence at k: the low part plus base^k times the high part. */
  lemma {:induction false} ValSplit(s: seq<int>, k: nat, base: int)
    requires k <= |s|
    ensures Val(s, base) == Val(s[..k], base) + Power(base, k) * Val(s[k..], base)
  {
    if |s| > k {
      var n := |s|;
      var s' := s[..n - 1];
      ValSplit(s', k, base);
      assert s'[..k] == s[..k];
      var hi := s[k..];
      assert hi[..|hi| - 1] == s'[k..];
      assert hi[|hi| - 1] == s[n - 1];
      PowerAdd(base, k, n - 1 - k);
      SplitAlgebra(Val(s[..k], base), Power(base, k), Val(s'[k..], base), s[n - 1], Power(base, n - 1 - k));
    } else {
      assert s[..k] == s;
      assert s[k..] == [];
    }
  }

  lemma SplitAlgebra(l: int, p: int, h: int, d: int, q: int)
    ensures l + p * h + d * (p * q) == l + p * (h + d * q)
  {
    assert p * (h + d * q) == p * h + p * (d * q);
  }

  /** Putting a limb below the others multiplies them by the base. */
  lemma ValCons(d: int, s: seq<int>, base: int)
    ensures Val([d] + s, base) == d + base * Val(s, base)
  {
    ValSplit([d] + s, 1, base);
    assert ([d] + s)[..1] == [d];
    assert ([d] + s)[1..] == s;
    assert Val([d], base) == Val([], base) + d * Power(base, 0);
  }

  /** Low zero limbs multiply the value by a power of the base. */
  lemma ValShifted(k: nat, s: seq<int>, base: int)
    ensures Val(Zeros(k) + s, base) == Power(base, k) * Val(s, base)
  {
    ValSplit(Zeros(k) + s, k, base);
    assert (Zeros(k) + s)[..k] == Zeros(k);
    assert (Zeros(k) + s)[k..] == s;
    ValOfZeros(k, base);
  }

  lemma {:induction false} ValOfZeros(n: nat, base: int)
    ensures Val(Zeros(n), base) == 0
  {
    if n > 0 {
      assert Zeros(n)[..n - 1] == Zeros(n - 1);
      ValOfZeros(n - 1, base);
    }
  }

  /** High zero limbs do not change the value. */
  lemma {:induction false} ValHighZeros(s: seq<int>, k: nat, base: int)
    requires k <= |s|
    requires forall i | k <= i < |s| :: s[i] == 0
    ensures Val(s, base) == Val(s[..k], base)
  {
    if |s| > k {
      ValHighZeros(s[..|s| - 1], k, base);
      assert s[..|s| - 1][..k] == s[..k];
    } else {
      assert s[..k] == s;
    }
  }

  lemma {:induction false} ValUpdate(s: seq<int>, k: nat, v: int, base: int)
    requires k < |s|
    ensures Val(s[k := v], base) == Val(s, base) + (v - s[k]) * Power(base, k)
  {
    var n := |s|;
    var t := s[k := v];
    if k == n - 1 {
      assert t[..n - 1] == s[..n - 1];
    } else {
      assert t[..n - 1] == s[..n - 1][k := v];
      ValUpdate(s[..n - 1], k, v, base);
    }
  }

  lemma {:induction false} ValBounds(s: seq<int>, base: int)
    requires base >= 2 && IsLimbs(s, base)
    ensures 0 <= Val(s, base) < Power(base, |s|)
  {
    if |s| > 0 {
      var n := |s|;
      ValBounds(s[..n - 1], base);
      PowerPositive(base, n - 1);
      LimbBelow(Val(s[..n - 1], base), s[n - 1], Power(base, n - 1), base);
    }
  }

  /** v + d * p stays below base * p for a limb d and v below p. */
  lemma LimbBelow(v: int, d: int, p: int, base: int)
    requires 0 <= v < p && 0 <= d < base
    ensures 0 <= v + d * p < base * p
  {
    assert d * p <= (base - 1) * p;
    assert (base - 1) * p == base * p - p;
  }

  /** A sequence whose top limb is not zero is at least base^(|s| - 1). */
  lemma TopLimbBound(s: seq<int>, base: int)
    requires base >= 2 && IsLimbs(s, base) && |s| >= 1 && s[|s| - 1] != 0
    ensures Val(s, base) >= Power(base, |s| - 1)
  {
    var n := |s|;
    ValBounds(s[..n - 1], base);
    PowerPositive(base, n - 1);
    AtLeastOnce(s[n - 1], Power(base, n - 1));
  }

  lemma AtLeastOnce(d: int, p: int)
    requires d >= 1 && p > 0
    ensures d * p >= p
  {
  }

  /** A limb sequence is in normal form whenever its value needs all its limbs. */
  lemma TrimmedByValue(s: seq<int>, base: int)
    requires base >= 2 && IsLimbs(s, base) && |s| >= 1
    requires |s| == 1 || Val(s, base) >= Power(base, |s| - 1)
    ensures Trimmed(s)
  {
    if |s| > 1 && s[|s| - 1] == 0 {
      ValBounds(s[..|s| - 1], base);
    }
  }

  /** A value below base^k fits in k limbs of the normal form. */
  lemma TrimmedLength(s: seq<int>, k: nat, base: int)
    requires base >= 2 && IsLimbs(s, base) && Trimmed(s) && k >= 1
    requires Val(s, base) < Power(base, k)
    ensures |s| <= k
  {
    if |s| > k {
      TopLimbBound(s, base);
      PowerMonotone(base, k, |s| - 1);
    }
  }

  /** Zero has exactly one normal form, [0]. */
  lemma ZeroForm(s: seq<int>, base: int)
    requires base >= 2 && IsLimbs(s, base) && Trimmed(s)
    ensures Val(s, base) == 0 <==> s == [0]
  {
    if |s| > 1 {
      TopLimbBound(s, base);
      PowerPositive(base, |s| - 1);
    } else {
      assert Val(s, base) == Val([], base) + s[0] * Power(base, 0);
    }
  }

  /** The lowest limb decides the parity when the base is even. */
  lemma {:induction false} ValParity(s: seq<int>, base: int)
    requires base >= 2 && base % 2 == 0 && |s| >= 1
    ensures Val(s, base) % 2 == s[0] % 2
  {
    ValSplit(s, 1, base);
    assert s[..1] == [s[0]];
    assert Val([s[0]], base) == s[0] by {
      assert Val([s[0]], base) == Val([], base) + s[0] * Power(base, 0);
    }
    var h := Val(s[1..], base);
    assert Power(base, 1) == base;
    var b2 := base / 2;
    var t := b2 * h;
    assert base * h == 2 * t;
    EvenShift(s[0], t);
  }

  lemma EvenShift(x: int, t: int)
    ensures (x + 2 * t) % 2 == x % 2
  {
  }

  // ---------------------------------------------------------------------------
  // compare_abs

  /** Compares the limbs below position k from the top; the first difference decides. */
  function CmpFrom(a: seq<int>, b: seq<int>, k: nat): int
    requires |a| == |b| && k <= |a|
  {
    if k == 0 then 0
    else if a[k - 1] != b[k - 1] then (if a[k - 1] > b[k - 1] then 1 else -1)
    else CmpFrom(a, b, k - 1)
  }

  /** compare_abs: the longer sequence is larger; equal lengths compare limb by limb from the top. */
  function CmpAbs(a: seq<int>, b: seq<int>): int {
    if |a| != |b| then (if |a| > |b| then 1 else -1) else CmpFrom(a, b, |a|)
  }

  lemma {:induction false} CmpFromMeaning(a: seq<int>, b: seq<int>, k: nat, base: int)
    requires base >= 2 && IsLimbs(a, base) && IsLimbs(b, base)
    requires |a| == |b| && k <= |a|
    ensures CmpFrom(a, b, k) == 0 <==> a[..k] == b[..k]
    ensures CmpFrom(a, b, k) < 0 <==> Val(a[..k], base) < Val(b[..k], base)
    ensures CmpFrom(a, b, k) > 0 <==> Val(a[..k], base) > Val(b[..k], base)
  {
    if k > 0 {
      var j := k - 1;
      ValPrefixStep(a, j, base);
      ValPrefixStep(b, j, base);
      if a[j] != b[j] {
        assert a[..k][j] != b[..k][j];
        assert IsLimbs(a[..j], base) && IsLimbs(b[..j], base);
        ValBounds(a[..j], base);
        ValBounds(b[..j], base);
        PowerPositive(base, j);
        if a[j] > b[j] {
          TopDecides(Val(a[..j], base), Val(b[..j], base), a[j], b[j], Power(base, j));
        } else {
          TopDecides(Val(b[..j], base), Val(a[..j], base), b[j], a[j], Power(base, j));
        }
      } else {
        CmpFromMeaning(a, b, j, base);
        assert a[..k] == a[..j] + [a[j]] && b[..k] == b[..j] + [b[j]];
        if a[..k] == b[..k] {
          assert a[..k][..j] == a[..j] && b[..k][..j] == b[..j];
        }
      }
    }
  }

  /** The higher limb wins whatever lies below it. */
  lemma TopDecides(va: int, vb: int, x: int, y: int, p: int)
    requires 0 <= va < p && 0 <= vb < p && x > y
    ensures va + x * p > vb + y * p
  {
    assert x * p - y * p == (x - y) * p;
    AtLeastOnce(x - y, p);
  }

  /** On normal forms compare_abs orders the magnitudes, and 0 means equal limbs. */
  lemma CmpAbsMeaning(a: seq<int>, b: seq<int>, base: int)
    requires base >= 2 && IsLimbs(a, base) && IsLimbs(b, base) && Trimmed(a) && Trimmed(b)
    ensures CmpAbs(a, b) in {-1, 0, 1}
    ensures CmpAbs(a, b) == 0 <==> a == b
    ensures CmpAbs(a, b) < 0 <==> Val(a, base) < Val(b, base)
    ensures CmpAbs(a, b) > 0 <==> Val(a, base) > Val(b, base)
  {
    if |a| > |b| {
      TopLimbBound(a, base);
      ValBounds(b, base);
      PowerMonotone(base, |b|, |a| - 1);
    } else if |a| < |b| {
      TopLimbBound(b, base);
      ValBounds(a, base);
      PowerMonotone(base, |a|, |b| - 1);
    } else {
      CmpFromMeaning(a, b, |a|, base);
      assert a[..|a|] == a && b[..|b|] == b;
      CmpFromRange(a, b, |a|);
    }
  }

  lemma {:induction false} CmpFromRange(a: seq<int>, b: seq<int>, k: nat)
    requires |a| == |b| && k <= |a|
    ensures CmpFrom(a, b, k) in {-1, 0, 1}
  {
    if k > 0 && a[k - 1] == b[k - 1] {
      CmpFromRange(a, b, k - 1);
    }
  }

  /** Normal forms are unique: equal values have equal limbs. */
  lemma ValInjective(a: seq<int>, b: seq<int>, base: int)
    requires base >= 2 && IsLimbs(a, base) && IsLimbs(b, base) && Trimmed(a) && Trimmed(b)
    requires Val(a, base) == Val(b, base)
    ensures a == b
  {
    CmpAbsMeaning(a, b, base);
  }

  /** The compare_abs loop: scan from the most significant limb down. */
  method CompareAbs(a: seq<int>, b: seq<int>) returns (c: int)
    ensures c == CmpAbs(a, b)
  {
    if |a| != |b| {
      return if |a| > |b| then 1 else -1;
    }
    var i := |a| - 1;
    while i >= 0
      invariant -1 <= i < |a|
      invariant CmpFrom(a, b, |a|) == CmpFrom(a, b, i + 1)
    {
      if a[i] != b[i] {
        return if a[i] > b[i] then 1 else -1;
      }
      i := i - 1;
    }
    return 0;
  }

  // ---------------------------------------------------------------------------
  // trim's popping loop

  /** `while (size > 1 && back == 0) pop_back()`: the result is the prefix of
      `s` in normal form, and only zero limbs were removed. */
  method StripZeros(s: seq<int>) returns (t: seq<int>)
    requires |s| >= 1
    ensures Trimmed(t) && |t| <= |s| && t == s[..|t|]
    ensures forall i | |t| <= i < |s| :: s[i] == 0
  {
    t := s;
    while |t| > 1 && t[|t| - 1] == 0
      invariant 1 <= |t| <= |s| && t == s[..|t|]
      invariant forall i | |t| <= i < |s| :: s[i] == 0
    {
      t := t[..|t| - 1];
    }
  }

  /** What StripZeros keeps has the value of what it was given. */
  lemma StrippedValue(s: seq<int>, t: seq<int>, base: int)
    requires |t| <= |s| && t == s[..|t|]
    requires forall i | |t| <= i < |s| :: s[i] == 0
    ensures Val(t, base) == Val(s, base)
  {
    ValHighZeros(s, |t|, base);
  }

  // ---------------------------------------------------------------------------
  // add_abs's carry loop

  /** The carry loop of bigint's add_abs: limb sums modulo the base, carrying
      the quotient, until both inputs and the carry are used up. */
  method AddLimbs(a: seq<int>, b: seq<int>, base: int) returns (r: seq<int>)
    requires base >= 2 && IsLimbs(a, base) && IsLimbs(b, base) && Trimmed(a) && Trimmed(b)
    ensures IsLimbs(r, base) && Trimmed(r)
    ensures Val(r, base) == Val(a, base) + Val(b, base)
  {
    var maxLen := if |a| > |b| then |a| else |b|;
    r := [];
    var carry := 0;
    var i := 0;
    assert Val(LowPart(a, 0), base) == 0 && Val(LowPart(b, 0), base) == 0 by {
      assert LowPart(a, 0) == [] && LowPart(b, 0) == [];
    }
    while i < maxLen || carry != 0
      invariant 0 <= i <= maxLen + 1
      invariant AddInvariant(a, b, r, i, carry, base)
      decreases maxLen + 1 - i
    {
      var sum := carry + (if i < |a| then a[i] else 0) + (if i < |b| then b[i] else 0);
      var digit, newCarry := sum % base, sum / base;
      AddStep(a, b, r, i, carry, sum, digit, newCarry, base);
      r := r + [digit];
      carry := newCarry;
      i := i + 1;
    }
    assert LowPart(a, i) == a;
    assert LowPart(b, i) == b;
    AddResultTrimmed(a, b, r, maxLen, base);
  }

  /** The carry loop's invariant after i passes: r holds i limbs, the carry is
      a bit, a pass beyond the longer input left a final limb 1 and no carry,
      and r plus the carry at position i is the sum of the inputs' low i limbs. */
  ghost predicate AddInvariant(a: seq<int>, b: seq<int>, r: seq<int>, i: nat, carry: int, base: int) {
    var maxLen := if |a| > |b| then |a| else |b|;
    |r| == i && IsLimbs(r, base) && (carry == 0 || carry == 1) &&
    (i == maxLen + 1 ==> carry == 0 && r[maxLen] == 1) &&
    Val(r, base) + carry * Power(base, i) == Val(LowPart(a, i), base) + Val(LowPart(b, i), base)
  }

  /** What one pass of bigint's carry loop establishes. */
  lemma AddStep(a: seq<int>, b: seq<int>, r: seq<int>, i: nat, carry: int, sum: int, digit: int, newCarry: int, base: int)
    requires base >= 2 && IsLimbs(a, base) && IsLimbs(b, base)
    requires AddInvariant(a, b, r, i, carry, base)
    requires i < (if |a| > |b| then |a| else |b|) || carry != 0
    requires sum == LimbSum(a, b, i, carry) && digit == sum % base && newCarry == sum / base
    ensures AddInvariant(a, b, r + [digit], i + 1, newCarry, base)
  {
    SumSplit(sum, digit, newCarry, base);
    AddInvariantStep(a, b, r, i, carry, digit, newCarry, base);
    var r' := r + [digit];
    assert r'[i] == digit;
  }

  /** The limb sum at position i: both limbs (0 past the end) and the carry. */
  function LimbSum(a: seq<int>, b: seq<int>, i: nat, carry: int): int {
    carry + (if i < |a| then a[i] else 0) + (if i < |b| then b[i] else 0)
  }

  /** One pass of the carry loop keeps its invariant, whichever way the step
      splits the limb sum into a digit and a carry. */
  lemma AddInvariantStep(a: seq<int>, b: seq<int>, r: seq<int>, i: nat, carry: int, digit: int, newCarry: int, base: int)
    requires |r| == i
    requires Val(r, base) + carry * Power(base, i) == Val(LowPart(a, i), base) + Val(LowPart(b, i), base)
    requires newCarry * base + digit == LimbSum(a, b, i, carry)
    ensures Val(r + [digit], base) + newCarry * Power(base, i + 1)
         == Val(LowPart(a, i + 1), base) + Val(LowPart(b, i + 1), base)
  {
    var ai := if i < |a| then a[i] else 0;
    var bi := if i < |b| then b[i] else 0;
    ValAppend(r, digit, base);
    LowPartStep(a, i, base);
    LowPartStep(b, i, base);
    CarryAlgebra(Val(r, base), carry, digit, newCarry, ai, bi, base, Power(base, i));
  }

  lemma CarryAlgebra(v: int, carry: int, digit: int, newCarry: int, ai: int, bi: int, base: int, p: int)
    requires newCarry * base + digit == carry + ai + bi
    ensures v + digit * p + newCarry * (base * p) == v + carry * p + ai * p + bi * p
  {
    assert newCarry * (base * p) + digit * p == (newCarry * base + digit) * p;
    assert (carry + ai + bi) * p == carry * p + ai * p + bi * p;
  }

  /** Both ways of splitting a limb sum below 2*base agree. */
  lemma SumSplit(sum: int, digit: int, newCarry: int, base: int)
    requires base >= 2 && 0 <= sum <= 2 * base - 1
    requires (digit == sum % base && newCarry == sum / base) || (sum >= base && digit == sum - base && newCarry == 1) ||
      (sum < base && digit == sum && newCarry == 0)
    ensures 0 <= digit < base && (newCarry == 0 || newCarry == 1) && newCarry * base + digit == sum
  {
    if sum >= base {
      assert (sum - base) / base == 0;
      assert sum / base == 1 && sum % base == sum - base;
    } else {
      assert sum / base == 0 && sum % base == sum;
    }
  }

  /** The sum of two normal forms comes out of the carry loop in normal form. */
  lemma AddResultTrimmed(a: seq<int>, b: seq<int>, r: seq<int>, maxLen: nat, base: int)
    requires base >= 2 && IsLimbs(a, base) && IsLimbs(b, base) && Trimmed(a) && Trimmed(b) && IsLimbs(r, base)
    requires maxLen == (if |a| > |b| then |a| else |b|)
    requires |r| == maxLen || (|r| == maxLen + 1 && r[maxLen] == 1)
    requires Val(r, base) == Val(a, base) + Val(b, base)
    ensures Trimmed(r)
  {
    if |r| == maxLen && maxLen > 1 {
      if |a| == maxLen {
        SumNeedsAllLimbs(a, b, r, base);
      } else {
        SumNeedsAllLimbs(b, a, r, base);
      }
    }
  }

  lemma SumNeedsAllLimbs(top: seq<int>, other: seq<int>, r: seq<int>, base: int)
    requires base >= 2 && IsLimbs(top, base) && IsLimbs(other, base) && IsLimbs(r, base)
    requires Trimmed(top) && |r| == |top| > 1
    requires Val(r, base) == Val(top, base) + Val(other, base)
    ensures Trimmed(r)
  {
    ValBounds(other, base);
    TopLimbBound(top, base);
    TrimmedByValue(r, base);
  }

  // ---------------------------------------------------------------------------
  // sub_abs's borrow loop

  /** b's limbs below position i, reading missing limbs as 0. */
  function LowPart(b: seq<int>, i: nat): seq<int> {
    if i < |b| then b[..i] else b
  }

  lemma LowPartStep(b: seq<int>, i: nat, base: int)
    ensures Val(LowPart(b, i + 1), base) == Val(LowPart(b, i), base) + (if i < |b| then b[i] else 0) * Power(base, i)
  {
    if i < |b| {
      ValPrefixStep(b, i, base);
      if i + 1 == |b| {
        assert b[..i + 1] == b;
      }
    }
  }

  /** The subtraction loop of sub_abs: one limb at a time, borrowing at most 1. */
  method SubLimbs(a: seq<int>, b: seq<int>, base: int) returns (r: seq<int>)
    requires base >= 2 && IsLimbs(a, base) && IsLimbs(b, base)
    requires |b| <= |a| && Val(b, base) <= Val(a, base)
    ensures |r| == |a| && IsLimbs(r, base)
    ensures Val(r, base) == Val(a, base) - Val(b, base)
  {
    r := [];
    var borrow := 0;
    var i := 0;
    while i < |a|
      invariant 0 <= i <= |a|
      invariant SubInvariant(a, b, r, i, borrow, base)
    {
      var diff := a[i] - borrow - (if i < |b| then b[i] else 0);
      var newBorrow := if diff < 0 then 1 else 0;
      diff := if diff < 0 then diff + base else diff;
      SubStepKeeps(a, b, r, i, borrow, diff, newBorrow, base);
      r := r + [diff];
      borrow := newBorrow;
      i := i + 1;
    }
    assert a[..i] == a;
    ValBounds(r, base);
    if borrow == 1 {
      ValBounds(a, base);
      assert false;
    }
  }

  /** The borrow loop's invariant after i passes: r holds i limbs, the borrow
      is a bit, and r less the borrow at position i is the difference of the
      inputs' low i limbs. */
  ghost predicate SubInvariant(a: seq<int>, b: seq<int>, r: seq<int>, i: nat, borrow: int, base: int)
    requires i <= |a|
  {
    |r| == i && IsLimbs(r, base) && (borrow == 0 || borrow == 1) &&
    Val(r, base) - borrow * Power(base, i) == Val(a[..i], base) - Val(LowPart(b, i), base)
  }

  lemma SubStepKeeps(a: seq<int>, b: seq<int>, r: seq<int>, i: nat, borrow: int, diff: int, newBorrow: int, base: int)
    requires i < |a| && SubInvariant(a, b, r, i, borrow, base)
    requires 0 <= diff < base && (newBorrow == 0 || newBorrow == 1)
    requires diff - base * newBorrow == a[i] - borrow - (if i < |b| then b[i] else 0)
    ensures SubInvariant(a, b, r + [diff], i + 1, newBorrow, base)
  {
    SubInvariantStep(a, b, r, i, borrow, diff, newBorrow, base);
  }

  lemma SubInvariantStep(a: seq<int>, b: seq<int>, r: seq<int>, i: nat, borrow: int, diff: int, newBorrow: int, base: int)
    requires i < |a| && |r| == i
    requires Val(r, base) - borrow * Power(base, i) == Val(a[..i], base) - Val(LowPart(b, i), base)
    requires diff - base * newBorrow == a[i] - borrow - (if i < |b| then b[i] else 0)
    ensures Val(r + [diff], base) - newBorrow * Power(base, i + 1) == Val(a[..i + 1], base) - Val(LowPart(b, i + 1), base)
  {
    ValAppend(r, diff, base);
    ValPrefixStep(a, i, base);
    LowPartStep(b, i, base);
    SubStep(Val(r, base), Val(a[..i], base), Val(LowPart(b, i), base), a[i],
            if i < |b| then b[i] else 0, diff, borrow, newBorrow, base, Power(base, i));
  }

  lemma SubStep(vr: int, va: int, vb: int, ai: int, bi: int, diff: int, borrow: int, newBorrow: int, base: int, p: int)
    requires vr - borrow * p == va - vb
    requires diff - base * newBorrow == ai - borrow - bi
    ensures vr + diff * p - newBorrow * (base * p) == (va + ai * p) - (vb + bi * p)
  {
    assert diff * p - newBorrow * (base * p) == (diff - base * newBorrow) * p;
    assert (ai - borrow - bi) * p == ai * p - borrow * p - bi * p;
  }

  // ---------------------------------------------------------------------------
  // Schoolbook multiplication

  /** The schoolbook product loop shared by bigint's operator* and bigint_opt's
      naive_multiply: for every limb pair add a[i]*b[j] plus the carry into
      position i+j, keep the remainder modulo the base and carry the quotient. */
  method MulLimbs(a: seq<int>, b: seq<int>, base: int) returns (r: seq<int>)
    requires base >= 2 && IsLimbs(a, base) && IsLimbs(b, base)
    ensures |r| == |a| + |b| && IsLimbs(r, base)
    ensures Val(r, base) == Val(a, base) * Val(b, base)
  {
    var n, m := |a|, |b|;
    r := Zeros(n + m);
    ValOfZeros(n + m, base);
    var i := 0;
    while i < n
      invariant 0 <= i <= n && |r| == n + m && IsLimbs(r, base)
      invariant Val(r, base) == Val(a[..i], base) * Val(b, base)
    {
      r := MulRow(a, b, r, i, base);
      i := i + 1;
    }
    assert a[..n] == a;
  }

  /** One row of the schoolbook product: adds a[i] * b * base^i into r. */
  method MulRow(a: seq<int>, b: seq<int>, r0: seq<int>, i: nat, base: int) returns (r: seq<int>)
    requires base >= 2 && IsLimbs(a, base) && IsLimbs(b, base) && i < |a|
    requires |r0| == |a| + |b| && IsLimbs(r0, base)
    requires Val(r0, base) == Val(a[..i], base) * Val(b, base)
    ensures |r| == |a| + |b| && IsLimbs(r, base)
    ensures Val(r, base) == Val(a[..i + 1], base) * Val(b, base)
  {
    var n, m := |a|, |b|;
    r := r0;
    var carry := 0;
    var j := 0;
    ghost var target := Val(a[..i], base) * Val(b, base);
    while j < m || carry != 0
      invariant 0 <= j && i + j <= n + m && |r| == n + m && IsLimbs(r, base)
      invariant 0 <= carry < base
      invariant Val(r, base) + carry * Power(base, i + j) == target + a[i] * Val(LowPart(b, j), base) * Power(base, i)
      decreases n + m - (i + j)
    {
      if j >= m {
        RowStaysInside(a, b, i, j, carry, r, base);
      }
      var cur := r[i + j] + (if j < m then a[i] * b[j] else 0) + carry;
      RowStep(a, b, r, i, j, carry, base, target);
      r := r[i + j := cur % base];
      carry := cur / base;
      j := j + 1;
    }
    assert LowPart(b, j) == b;
    ValPrefixStep(a, i, base);
    RowDone(Val(a[..i], base), a[i], Val(b, base), Power(base, i));
  }

  lemma RowDone(va: int, ai: int, vb: int, pi: int)
    ensures va * vb + ai * vb * pi == (va + ai * pi) * vb
  {
  }

  /** One pass of the inner loop keeps the row invariant. */
  lemma RowStep(a: seq<int>, b: seq<int>, r: seq<int>, i: nat, j: nat, carry: int, base: int, target: int)
    requires base >= 2 && IsLimbs(a, base) && IsLimbs(b, base) && i < |a| && IsLimbs(r, base)
    requires i + j < |r| && 0 <= carry < base
    requires Val(r, base) + carry * Power(base, i + j) == target + a[i] * Val(LowPart(b, j), base) * Power(base, i)
    ensures var cur := r[i + j] + (if j < |b| then a[i] * b[j] else 0) + carry;
      0 <= cur / base < base && IsLimbs(r[i + j := cur % base], base) &&
      Val(r[i + j := cur % base], base) + (cur / base) * Power(base, i + j + 1)
        == target + a[i] * Val(LowPart(b, j + 1), base) * Power(base, i)
  {
    var k := i + j;
    var bj := if j < |b| then b[j] else 0;
    var product := a[i] * bj;
    LimbProductBound(a[i], bj, base);
    var cur := r[k] + product + carry;
    CarryBound(r[k], product, carry, base);
    var digit := cur % base;
    ValUpdate(r, k, digit, base);
    LowPartStep(b, j, base);
    PowerAdd(base, i, j);
    RowAlgebra(Val(r, base), r[k], cur, carry, product, digit, cur / base, base, Power(base, k),
               a[i], bj, Power(base, j), Power(base, i), Val(LowPart(b, j), base), target);
  }

  lemma LimbProductBound(x: int, y: int, base: int)
    requires 0 <= x < base && 0 <= y < base
    ensures 0 <= x * y <= (base - 1) * (base - 1)
  {
    MulMonotone(x, 0, y);
    MulMonotone(x, y, base - 1);
    MulMonotone(base - 1, x, base - 1);
  }

  /** limb + limb product + carry never exceeds base^2 - 1, so the new carry is a limb. */
  lemma CarryBound(old_: int, product: int, carry: int, base: int)
    requires 0 <= old_ < base && 0 <= carry < base && 0 <= product <= (base - 1) * (base - 1)
    ensures 0 <= old_ + product + carry < base * base
    ensures 0 <= (old_ + product + carry) / base < base
  {
    assert (base - 1) * (base - 1) == base * base - 2 * base + 1;
    QuotientBelow(old_ + product + carry, base);
  }

  lemma QuotientBelow(x: int, base: int)
    requires base > 0 && 0 <= x < base * base
    ensures 0 <= x / base < base
  {
    var q := x / base;
    assert q * base <= x;
    if q >= base {
      MulAtLeast(q, base);
    }
  }

  lemma MulAtLeast(q: int, base: int)
    requires q >= base > 0
    ensures q * base >= base * base
  {
  }

  lemma RowAlgebra(vr: int, old_: int, cur: int, carry: int, product: int, digit: int, newCarry: int,
                   base: int, pk: int, ai: int, bj: int, pj: int, pi: int, vl: int, target: int)
    requires base >= 2 && cur == old_ + product + carry && product == ai * bj
    requires digit == cur % base && newCarry == cur / base
    requires pk == pi * pj
    requires vr + carry * pk == target + ai * vl * pi
    ensures (vr + (digit - old_) * pk) + newCarry * (base * pk) == target + ai * (vl + bj * pj) * pi
  {
    assert cur == newCarry * base + digit;
    assert (digit - old_) * pk + newCarry * (base * pk) == (digit + newCarry * base - old_) * pk;
    assert (product + carry) * pk == product * pk + carry * pk;
    assert product * pk == ai * (bj * pj) * pi;
    assert ai * (vl + bj * pj) * pi == ai * vl * pi + ai * (bj * pj) * pi;
  }

  /** While carrying past b's limbs, the running row still fits the buffer. */
  lemma RowStaysInside(a: seq<int>, b: seq<int>, i: nat, j: nat, carry: int, r: seq<int>, base: int)
    requires base >= 2 && IsLimbs(a, base) && IsLimbs(b, base) && IsLimbs(r, base) && i < |a| && j >= |b|
    requires 0 < carry
    requires Val(r, base) + carry * Power(base, i + j) == Val(a[..i], base) * Val(b, base) + a[i] * Val(LowPart(b, j), base) * Power(base, i)
    ensures i + j < |a| + |b|
  {
    assert LowPart(b, j) == b;
    ValPrefixStep(a, i, base);
    var va := Val(a[..i + 1], base);
    RowDone(Val(a[..i], base), a[i], Val(b, base), Power(base, i));
    ValBounds(r, base);
    ValBounds(a[..i + 1], base);
    ValBounds(b, base);
    PowerAdd(base, i + 1, |b|);
    PowerPositive(base, i + j);
    if i + j >= |a| + |b| {
      PowerMonotone(base, i + 1 + |b|, i + j);
      ProductBelow(va, Power(base, i + 1), Val(b, base), Power(base, |b|));
      AtLeastOnce(carry, Power(base, i + j));
    }
  }

  lemma ProductBelow(x: int, X: int, y: int, Y: int)
    requires 0 <= x < X && 0 <= y < Y
    ensures x * y < X * Y
  {
    assert x * y <= x * Y;
    assert x * Y < X * Y;
  }
}
