/** bigint (high_precision_digit.hpp): a sign flag and decimal digits, least
    significant first. The class is a value type (every operator is const and
    returns a fresh object), so it is a datatype here and its operations are
    methods returning new values. Each operation is proved against the integer
    its operands denote. */
module Bigint {
  import opened Wrappers
  import opened Arith
  import opened Limbs
  import opened Decimal

  const BASE: int := 10

  datatype BigInt = BigInt(digits: seq<int>, negative: bool)

  /** The integer a bigint denotes: sign times the sum of digits[i] * 10^i. */
  function Value(x: BigInt): int {
    if x.negative then -Val(x.digits, BASE) else Val(x.digits, BASE)
  }

  /** Digits in [0, 10) with no most-significant zero, as trim leaves them. */
  predicate WellFormed(x: BigInt) {
    Trimmed(x.digits) && IsLimbs(x.digits, BASE)
  }

  /** The normal form: well formed, and zero is never negative. */
  predicate Canonical(x: BigInt) {
    WellFormed(x) && (x.digits == [0] ==> !x.negative)
  }

  lemma Magnitude(x: BigInt)
    requires WellFormed(x)
    ensures Val(x.digits, BASE) >= 0
    ensures Val(x.digits, BASE) == 0 <==> x.digits == [0]
    ensures Canonical(x) ==> (x.negative <==> Value(x) < 0)
  {
    ValBounds(x.digits, BASE);
    ZeroForm(x.digits, BASE);
  }

  /** A canonical bigint is determined by its value. */
  lemma CanonicalUnique(x: BigInt, y: BigInt)
    requires Canonical(x) && Canonical(y) && Value(x) == Value(y)
    ensures x == y
  {
    Magnitude(x);
    Magnitude(y);
    assert x.negative == y.negative;
    ValInjective(x.digits, y.digits, BASE);
  }

  /** Giving a nonzero canonical bigint either sign keeps it canonical. */
  lemma Resign(x: BigInt, negative: bool)
    requires Canonical(x) && Val(x.digits, BASE) != 0
    ensures Canonical(x.(negative := negative))
  {
  }

  // ---------------------------------------------------------------------------
  // Construction

  /** bigint(): the default constructor holds zero. */
  function Zero(): (z: BigInt)
    ensures Canonical(z) && Value(z) == 0
  {
    assert Val([0], BASE) == Val([], BASE) + 0 * Power(BASE, 0);
    BigInt([0], false)
  }

  /** trim(): pops most-significant zero digits and clears the sign of zero. */
  method Trim(x: BigInt) returns (y: BigInt)
    requires |x.digits| >= 1
    ensures Trimmed(y.digits) && |y.digits| <= |x.digits| && y.digits == x.digits[..|y.digits|]
    ensures forall i | |y.digits| <= i < |x.digits| :: x.digits[i] == 0
    ensures y.negative == (x.negative && y.digits != [0])
    ensures IsLimbs(x.digits, BASE) ==> Canonical(y) && Value(y) == Value(x)
  {
    var d := StripZeros(x.digits);
    StrippedValue(x.digits, d, BASE);
    y := BigInt(d, x.negative && d != [0]);
    if d == [0] {
      assert Val(d, BASE) == Val([], BASE) + 0 * Power(BASE, 0);
    }
  }

  /** bigint(long long n): the digits of |n| by repeated division by 10.
      n == LLONG_MIN is excluded: std::abs overflows there. */
  method FromInt(n: int) returns (x: BigInt)
    requires LLONG_MIN < n <= LLONG_MAX
    ensures Canonical(x) && Value(x) == n
  {
    if n == 0 {
      return Zero();
    }
    var negative := n < 0;
    var m := Arith.Abs(n);
    var digits: seq<int> := [];
    while m > 0
      invariant m >= 0 && IsLimbs(digits, BASE)
      invariant Val(digits, BASE) + m * Power(BASE, |digits|) == Arith.Abs(n)
      invariant m == 0 ==> |digits| >= 1 && digits[|digits| - 1] != 0
    {
      FromIntStep(digits, m);
      digits := digits + [m % 10];
      m := m / 10;
    }
    x := BigInt(digits, negative);
  }

  lemma FromIntStep(digits: seq<int>, m: int)
    requires m > 0 && IsLimbs(digits, BASE)
    ensures IsLimbs(digits + [m % 10], BASE)
    ensures Val(digits + [m % 10], BASE) + (m / 10) * Power(BASE, |digits| + 1)
         == Val(digits, BASE) + m * Power(BASE, |digits|)
    ensures m / 10 == 0 ==> m % 10 != 0
  {
    var d, q := m % 10, m / 10;
    DivModParts(m, 10);
    ValAppend(digits, d, BASE);
    var p := Power(BASE, |digits|);
    assert Power(BASE, |digits| + 1) == 10 * p;
    DigitSplit(m, q, d, p);
  }

  lemma DigitSplit(m: int, q: int, d: int, p: int)
    requires m == q * 10 + d
    ensures d * p + q * (10 * p) == m * p
  {
  }

  /** bigint(const std::string&): an optional sign, then digits; leading zeros
      are skipped, an empty, sign-only or all-zero string gives zero, and any
      other character throws invalid_argument. */
  method FromString(s: string) returns (r: Result<BigInt>)
    ensures r.Success? <==> ParseInteger(s).Success?
    ensures r.Success? ==> Canonical(r.value) && Value(r.value) == ParseInteger(s).value
    ensures r.Failure? ==> r.error == InvalidArgument
  {
    if |s| == 0 {
      return Success(Zero());
    }
    var start := 0;
    var negative := false;
    if s[0] == '-' {
      negative := true;
      start := 1;
    } else if s[0] == '+' {
      start := 1;
    }
    ghost var bodyStart := start;
    assert s[bodyStart..] == (if s[0] == '-' || s[0] == '+' then s[1..] else s);
    while start < |s| && s[start] == '0'
      invariant bodyStart <= start <= |s|
      invariant forall k | bodyStart <= k < start :: s[k] == '0'
    {
      start := start + 1;
    }
    if start == |s| {
      ZerosValue(s[bodyStart..]);
      return Success(Zero());
    }
    var read := ReadDigits(s, start);
    if read.None? {
      StrayCharacter(s, bodyStart, start);
      return Failure(InvalidArgument);
    }
    var digits := read.value;
    SkippedZeros(s, bodyStart, start);
    var x := Trim(BigInt(digits, negative));
    ParsedValue(s, bodyStart, negative, x);
    return Success(x);
  }

  /** The digit loop of the string constructor: reads s[start..] from its last
      character down, one digit per character, and stops at a non-digit. */
  method ReadDigits(s: string, start: nat) returns (r: Option<seq<int>>)
    requires start <= |s|
    ensures r.None? <==> exists k :: start <= k < |s| && !IsDigit(s[k])
    ensures r.Some? ==> AllDigits(s[start..]) && |r.value| == |s| - start && IsLimbs(r.value, BASE)
    ensures r.Some? ==> Val(r.value, BASE) == DecimalValue(s[start..])
    ensures r.Some? && start < |s| ==> r.value[|r.value| - 1] == DigitValue(s[start])
  {
    var digits: seq<int> := [];
    var i := |s| - 1;
    while i >= start as int
      invariant start - 1 <= i < |s| && |digits| == |s| - 1 - i
      invariant AllDigits(s[i + 1..]) && IsLimbs(digits, BASE)
      invariant Val(digits, BASE) == DecimalValue(s[i + 1..])
      invariant |digits| >= 1 ==> digits[|digits| - 1] == DigitValue(s[i + 1])
    {
      if !IsDigit(s[i]) {
        return None;
      }
      ParseStep(s, i, digits);
      digits := digits + [DigitValue(s[i])];
      i := i - 1;
    }
    assert forall k | start <= k < |s| :: IsDigit(s[k]) by {
      forall k | start <= k < |s|
        ensures IsDigit(s[k])
      {
        assert s[k] == s[start..][k - start];
      }
    }
    return Some(digits);
  }

  lemma ParseStep(s: string, i: nat, digits: seq<int>)
    requires i < |s| && IsDigit(s[i]) && AllDigits(s[i + 1..]) && IsLimbs(digits, BASE)
    requires |digits| == |s| - 1 - i && Val(digits, BASE) == DecimalValue(s[i + 1..])
    ensures AllDigits(s[i..]) && IsLimbs(digits + [DigitValue(s[i])], BASE)
    ensures Val(digits + [DigitValue(s[i])], BASE) == DecimalValue(s[i..])
  {
    assert s[i..] == [s[i]] + s[i + 1..];
    DecimalValueConcat([s[i]], s[i + 1..]);
    assert DecimalValue([s[i]]) == DigitValue(s[i]) by {
      assert [s[i]][..0] == [];
    }
    ValAppend(digits, DigitValue(s[i]), BASE);
  }

  lemma ParsedValue(s: string, bodyStart: nat, negative: bool, x: BigInt)
    requires 1 <= |s| && bodyStart <= |s|
    requires bodyStart == (if s[0] == '-' || s[0] == '+' then 1 else 0)
    requires negative == (s[0] == '-')
    requires AllDigits(s[bodyStart..]) && Canonical(x)
    requires (if negative then -Value(x) else Value(x)) == DecimalValue(s[bodyStart..])
    ensures ParseInteger(s) == Success(Value(x))
  {
    assert s[0..] == s;
  }

  // ---------------------------------------------------------------------------
  // Text

  /** The digits of d from the most significant down, one character each. */
  function DigitsText(d: seq<int>): string
    requires IsLimbs(d, BASE)
  {
    if |d| == 0 then "" else DigitsText(d[1..]) + [DigitChar(d[0])]
  }

  /** What to_string produces: "0" for an empty digit vector, otherwise a '-'
      for negatives and then every digit from the most significant down. */
  function Render(x: BigInt): string
    requires IsLimbs(x.digits, BASE)
  {
    if |x.digits| == 0 then "0" else (if x.negative then "-" else "") + DigitsText(x.digits)
  }

  /** to_string(): walks the digits from the top, one character each. */
  method ToString(x: BigInt) returns (s: string)
    requires IsLimbs(x.digits, BASE)
    ensures s == Render(x)
  {
    if |x.digits| == 0 {
      return "0";
    }
    var sign := if x.negative then "-" else "";
    s := sign;
    var i := |x.digits| - 1;
    while i >= 0
      invariant -1 <= i < |x.digits|
      invariant s == sign + DigitsText(x.digits[i + 1..])
    {
      assert x.digits[i..][1..] == x.digits[i + 1..];
      s := s + [DigitChar(x.digits[i])];
      i := i - 1;
    }
    assert x.digits[0..] == x.digits;
  }

  lemma {:induction false} DigitsTextMeaning(d: seq<int>)
    requires IsLimbs(d, BASE)
    ensures AllDigits(DigitsText(d)) && |DigitsText(d)| == |d|
    ensures DecimalValue(DigitsText(d)) == Val(d, BASE)
    ensures |d| >= 1 ==> DigitsText(d)[0] == DigitChar(d[|d| - 1])
  {
    if |d| > 0 {
      DigitsTextMeaning(d[1..]);
      var t := DigitsText(d);
      assert t[..|t| - 1] == DigitsText(d[1..]);
      assert d == [d[0]] + d[1..];
      ValCons(d[0], d[1..], BASE);
      if |d| > 1 {
        assert d[1..][|d[1..]| - 1] == d[|d| - 1];
      }
    }
  }

  /** to_string round-trips through the string constructor, puts a '-' only
      in front of negatives, and writes no leading zero. */
  lemma RenderParses(x: BigInt)
    requires Canonical(x)
    ensures ParseInteger(Render(x)) == Success(Value(x))
    ensures (Render(x)[0] == '-') == (Value(x) < 0)
    ensures var body := if x.negative then Render(x)[1..] else Render(x);
      |body| == |x.digits| && (|body| > 1 ==> body[0] != '0')
  {
    Magnitude(x);
    var body := RenderSplit(x);
    SignedText(body, x.negative);
  }

  /** to_string's text is the sign followed by a digit string that denotes
      the magnitude and has one digit per element of the vector. */
  lemma RenderSplit(x: BigInt) returns (body: string)
    requires Canonical(x)
    ensures Render(x) == if x.negative then "-" + body else body
    ensures AllDigits(body) && |body| == |x.digits| && DecimalValue(body) == Val(x.digits, BASE)
    ensures |body| > 1 ==> body[0] != '0'
  {
    body := DigitsText(x.digits);
    DigitsTextMeaning(x.digits);
  }

  // ---------------------------------------------------------------------------
  // Addition and subtraction

  /** add_abs: the digit-wise sum of the magnitudes, carrying at most 1. */
  method AddAbs(a: BigInt, b: BigInt) returns (r: BigInt)
    requires WellFormed(a) && WellFormed(b)
    ensures Canonical(r) && !r.negative
    ensures Value(r) == Val(a.digits, BASE) + Val(b.digits, BASE)
  {
    var d := AddLimbs(a.digits, b.digits, BASE);
    r := BigInt(d, false);
  }

  /** sub_abs: |a| - |b| for |a| >= |b|, borrowing at most 1, then trimmed. */
  method SubAbs(a: BigInt, b: BigInt) returns (r: BigInt)
    requires WellFormed(a) && WellFormed(b) && Val(b.digits, BASE) <= Val(a.digits, BASE)
    ensures Canonical(r) && !r.negative
    ensures Value(r) == Val(a.digits, BASE) - Val(b.digits, BASE)
  {
    ValBounds(a.digits, BASE);
    TrimmedLength(b.digits, |a.digits|, BASE);
    var d := SubLimbs(a.digits, b.digits, BASE);
    r := Trim(BigInt(d, false));
  }

  /** operator+: adds magnitudes for equal signs, otherwise subtracts the
      smaller magnitude from the larger and keeps the larger one's sign. One
      operand may be the negative zero operator- builds. */
  method Add(a: BigInt, b: BigInt) returns (r: BigInt)
    requires WellFormed(a) && WellFormed(b) && (Canonical(a) || Canonical(b))
    ensures Canonical(r) && Value(r) == Value(a) + Value(b)
  {
    Magnitude(a);
    Magnitude(b);
    if a.negative == b.negative {
      var sum := AddAbs(a, b);
      Magnitude(sum);
      r := sum.(negative := a.negative);
      return;
    }
    var cmp := CompareAbs(a.digits, b.digits);
    CmpAbsMeaning(a.digits, b.digits, BASE);
    if cmp == 0 {
      r := FromInt(0);
      return;
    }
    var diff;
    if cmp > 0 {
      diff := SubAbs(a, b);
      Magnitude(diff);
      Resign(diff, a.negative);
      r := diff.(negative := a.negative);
    } else {
      diff := SubAbs(b, a);
      Magnitude(diff);
      Resign(diff, b.negative);
      r := diff.(negative := b.negative);
    }
  }

  /** operator-: adds a copy of the right operand with its sign flipped. */
  method Sub(a: BigInt, b: BigInt) returns (r: BigInt)
    requires Canonical(a) && Canonical(b)
    ensures Canonical(r) && Value(r) == Value(a) - Value(b)
  {
    var temp := b.(negative := !b.negative);
    r := Add(a, temp);
  }

  // ---------------------------------------------------------------------------
  // Multiplication

  /** operator*: the schoolbook product into |a| + |b| zeroed digits, the sign
      the XOR of the operand signs, then trimmed. */
  method Mul(a: BigInt, b: BigInt) returns (r: BigInt)
    requires WellFormed(a) && WellFormed(b)
    ensures Canonical(r) && Value(r) == Value(a) * Value(b)
    ensures Value(r) != 0 ==> r.negative == (a.negative != b.negative)
  {
    var d := MulLimbs(a.digits, b.digits, BASE);
    r := Trim(BigInt(d, a.negative != b.negative));
    Magnitude(r);
    SignedMagnitudes(Val(a.digits, BASE), Val(b.digits, BASE), a.negative, b.negative);
  }

  // ---------------------------------------------------------------------------
  // Comparison

  /** operator==: same sign flag and same digits. */
  function Equal(a: BigInt, b: BigInt): bool {
    a.negative == b.negative && a.digits == b.digits
  }

  /** operator<: a negative is below a non-negative; equal signs compare magnitudes. */
  function Less(a: BigInt, b: BigInt): bool {
    if a.negative != b.negative then a.negative
    else if a.negative then CmpAbs(a.digits, b.digits) > 0
    else CmpAbs(a.digits, b.digits) < 0
  }

  function LessEq(a: BigInt, b: BigInt): bool {
    Less(a, b) || Equal(a, b)
  }

  function Greater(a: BigInt, b: BigInt): bool {
    !LessEq(a, b)
  }

  function GreaterEq(a: BigInt, b: BigInt): bool {
    !Less(a, b)
  }

  /** operator!=: the negation of operator==. */
  function NotEqual(a: BigInt, b: BigInt): bool {
    !Equal(a, b)
  }

  /** On canonical values the comparison operators are integer comparison. */
  lemma ComparisonMeaning(a: BigInt, b: BigInt)
    requires Canonical(a) && Canonical(b)
    ensures Equal(a, b) <==> Value(a) == Value(b)
    ensures Less(a, b) <==> Value(a) < Value(b)
    ensures LessEq(a, b) <==> Value(a) <= Value(b)
    ensures Greater(a, b) <==> Value(a) > Value(b)
    ensures GreaterEq(a, b) <==> Value(a) >= Value(b)
    ensures NotEqual(a, b) <==> Value(a) != Value(b)
  {
    EqualMeaning(a, b);
    LessMeaning(a, b);
  }

  lemma EqualMeaning(a: BigInt, b: BigInt)
    requires Canonical(a) && Canonical(b)
    ensures Equal(a, b) <==> Value(a) == Value(b)
  {
    if Value(a) == Value(b) {
      CanonicalUnique(a, b);
    }
  }

  lemma LessMeaning(a: BigInt, b: BigInt)
    requires Canonical(a) && Canonical(b)
    ensures Less(a, b) <==> Value(a) < Value(b)
  {
    Magnitude(a);
    Magnitude(b);
    CmpAbsMeaning(a.digits, b.digits, BASE);
  }

  /** abs: the same digits with the sign cleared. */
  function Abs(x: BigInt): BigInt {
    x.(negative := false)
  }

  lemma AbsMeaning(x: BigInt)
    requires Canonical(x)
    ensures Canonical(Abs(x)) && Value(Abs(x)) == Arith.Abs(Value(x))
  {
    Magnitude(x);
  }

  // ---------------------------------------------------------------------------
  // Division

  /** The binary search of operator/: the largest x in [0, 10] with
      b * x <= current, found by testing b * bigint(mid) <= current. */
  method DigitSearch(b: BigInt, current: BigInt) returns (x: int)
    requires Canonical(b) && Value(b) > 0 && Canonical(current)
    requires 0 <= Value(current) < 10 * Value(b)
    ensures 0 <= x <= 9
    ensures Value(b) * x <= Value(current) < Value(b) * (x + 1)
  {
    x := 0;
    var left, right := 0, 10;
    while left <= right
      invariant 0 <= left <= right + 1 <= 11
      invariant 0 <= x <= 10 && Value(b) * x <= Value(current)
      invariant left == 0 ==> x == 0
      invariant left > 0 ==> x == left - 1
      invariant right < 10 ==> Value(current) < Value(b) * (right + 1)
      decreases right - left
    {
      var mid := (left + right) / 2;
      var m := FromInt(mid);
      var product := Mul(b, m);
      ComparisonMeaning(product, current);
      if LessEq(product, current) {
        x := mid;
        left := mid + 1;
      } else {
        right := mid - 1;
      }
    }
  }

  /** The long-division loop of operator/: brings down one digit of |a| at a
      time from the top and writes the largest fitting quotient digit. */
  method LongDivision(a: seq<int>, b: BigInt) returns (q: seq<int>)
    requires IsLimbs(a, BASE) && Canonical(b) && Value(b) > 0
    ensures |q| == |a| && IsLimbs(q, BASE)
    ensures Val(q, BASE) == Val(a, BASE) / Value(b)
  {
    q := Zeros(|a|);
    var current := Zero();
    var i := |a| - 1;
    assert a[i + 1..] == [] && q[i + 1..] == [];
    while i >= 0
      invariant Canonical(current) && DivisionState(a, q, i, Value(b), Value(current))
    {
      ShiftInDigit(current, a[i]);
      var shifted := Trim(BigInt([a[i]] + current.digits, current.negative));
      DivisionBringDown(a, q, i, Value(b), Value(current), Value(shifted));
      var x := DigitSearch(b, shifted);
      var m := FromInt(x);
      var product := Mul(b, m);
      var next := Sub(shifted, product);
      DivisionStep(a, q, i, x, Value(b), Value(current), Value(shifted), Value(next));
      q := q[i := x];
      current := next;
      i := i - 1;
    }
    DivisionDone(a, q, Value(b), Value(current));
  }

  /** The loop state of long division at position i: the quotient digits above
      i are final, and current is what remains of the digits of a above i. */
  predicate DivisionState(a: seq<int>, q: seq<int>, i: int, vb: int, cur: int) {
    -1 <= i < |a| && |q| == |a| && IsLimbs(a, BASE) && IsLimbs(q, BASE) &&
    0 <= cur < vb && cur == Val(a[i + 1..], BASE) - vb * Val(q[i + 1..], BASE)
  }

  /** Inserting a digit at the front of a non-negative bigint multiplies by 10 and adds it. */
  lemma ShiftInDigit(cur: BigInt, d: int)
    requires Canonical(cur) && Value(cur) >= 0 && 0 <= d < BASE
    ensures IsLimbs([d] + cur.digits, BASE)
    ensures Value(BigInt([d] + cur.digits, cur.negative)) == d + 10 * Value(cur)
  {
    Magnitude(cur);
    ValCons(d, cur.digits, BASE);
  }

  lemma DivisionBringDown(a: seq<int>, q: seq<int>, i: int, vb: int, cur: int, shifted: int)
    requires DivisionState(a, q, i, vb, cur) && i >= 0 && shifted == a[i] + 10 * cur
    ensures 0 <= shifted < 10 * vb
  {
  }

  lemma DivisionStep(a: seq<int>, q: seq<int>, i: int, x: int, vb: int, cur: int, shifted: int, next: int)
    requires DivisionState(a, q, i, vb, cur) && i >= 0 && shifted == a[i] + 10 * cur
    requires 0 <= x <= 9 && vb * x <= shifted < vb * (x + 1) && next == shifted - vb * x
    ensures DivisionState(a, q[i := x], i - 1, vb, next)
  {
    var q' := q[i := x];
    assert a[i..] == [a[i]] + a[i + 1..];
    assert q'[i..] == [x] + q[i + 1..];
    ValCons(a[i], a[i + 1..], BASE);
    ValCons(x, q[i + 1..], BASE);
    DivisionAlgebra(a[i], Val(a[i + 1..], BASE), Val(q[i + 1..], BASE), vb, x, cur, shifted, next);
  }

  lemma DivisionAlgebra(d: int, rest: int, qrest: int, vb: int, x: int, cur: int, shifted: int, next: int)
    requires cur == rest - vb * qrest && shifted == d + 10 * cur && next == shifted - vb * x
    requires vb * x <= shifted < vb * (x + 1)
    ensures next == (d + 10 * rest) - vb * (x + 10 * qrest)
    ensures 0 <= next < vb
  {
    assert vb * (x + 10 * qrest) == vb * x + 10 * (vb * qrest);
    assert vb * (x + 1) == vb * x + vb;
  }

  lemma DivisionDone(a: seq<int>, q: seq<int>, vb: int, cur: int)
    requires DivisionState(a, q, -1, vb, cur)
    ensures |q| == |a| && IsLimbs(q, BASE) && Val(q, BASE) == Val(a, BASE) / vb
  {
    assert a[0..] == a && q[0..] == q;
    DivisionUnique(Val(a, BASE), vb, Val(q, BASE), cur);
  }

  /** operator/: throws on a zero divisor, returns 0 when |x| < |y|, and
      otherwise the long-division quotient of the magnitudes with the sign the
      XOR of the operand signs: C++'s quotient truncated toward zero. */
  method Div(x: BigInt, y: BigInt) returns (r: Result<BigInt>)
    requires Canonical(x) && Canonical(y)
    ensures r.Failure? <==> Value(y) == 0
    ensures r.Failure? ==> r.error == DivisionByZero
    ensures r.Success? ==> Canonical(r.value) && Value(r.value) == TruncDiv(Value(x), Value(y))
  {
    var zero := FromInt(0);
    EqualMeaning(y, zero);
    if Equal(y, zero) {
      return Failure(DivisionByZero);
    }
    var a := x.(negative := false);
    var b := y.(negative := false);
    AbsMeaning(x);
    AbsMeaning(y);
    LessMeaning(a, b);
    if Less(a, b) {
      SignedQuotient(x, y, [0]);
      var z := FromInt(0);
      return Success(z);
    }
    var q := LongDivision(a.digits, b);
    SignedQuotient(x, y, q);
    var result := Trim(BigInt(q, x.negative != y.negative));
    return Success(result);
  }

  /** The quotient of the magnitudes carrying the XOR of the signs is C++'s
      truncated quotient. */
  lemma SignedQuotient(x: BigInt, y: BigInt, q: seq<int>)
    requires Canonical(x) && Canonical(y) && Value(y) != 0
    requires Val(q, BASE) == Arith.Abs(Value(x)) / Arith.Abs(Value(y)) || (q == [0] && Arith.Abs(Value(x)) < Arith.Abs(Value(y)))
    ensures Value(BigInt(q, x.negative != y.negative)) == TruncDiv(Value(x), Value(y))
  {
    Magnitude(x);
    Magnitude(y);
    ghost var vx, vy, vq := Value(x), Value(y), Val(q, BASE);
    if q == [0] {
      assert vq == Val([], BASE) + 0 * Power(BASE, 0);
      if Arith.Abs(vx) < Arith.Abs(vy) {
        DivisionUnique(Arith.Abs(vx), Arith.Abs(vy), 0, Arith.Abs(vx));
      }
    }
    assert vq == Arith.Abs(vx) / Arith.Abs(vy);
    TruncDivBySigns(vx, vy, vq, x.negative != y.negative);
  }

  /** operator%: x - (x / y) * y, with y added once when that is negative. */
  method Mod(x: BigInt, y: BigInt) returns (r: Result<BigInt>)
    requires Canonical(x) && Canonical(y)
    ensures r.Failure? <==> Value(y) == 0
    ensures r.Failure? ==> r.error == ModuloByZero
    ensures r.Success? ==> Canonical(r.value) && Value(r.value) == AdjustedRem(Value(x), Value(y))
  {
    var zero := FromInt(0);
    EqualMeaning(y, zero);
    if Equal(y, zero) {
      return Failure(ModuloByZero);
    }
    var quotient := Div(x, y);
    var product := Mul(quotient.value, y);
    var result := Sub(x, product);
    Magnitude(result);
    if result.negative {
      result := Add(result, y);
    }
    return Success(result);
  }

  // ---------------------------------------------------------------------------
  // pow and sqrt

  /** pow: throws on a negative exponent, 1 for exponent 0, and otherwise
      square-and-multiply over the bits of the exponent. */
  method Pow(x: BigInt, exponent: int) returns (r: Result<BigInt>)
    requires Canonical(x)
    ensures r.Failure? <==> exponent < 0
    ensures r.Failure? ==> r.error == NegativeExponent
    ensures r.Success? ==> exponent >= 0 && Canonical(r.value) && Value(r.value) == Power(Value(x), exponent)
  {
    if exponent < 0 {
      return Failure(NegativeExponent);
    }
    if exponent == 0 {
      var one := FromInt(1);
      return Success(one);
    }
    var result := FromInt(1);
    var b := x;
    var e := exponent;
    while e > 0
      invariant e >= 0 && Canonical(result) && Canonical(b)
      invariant Value(result) * Power(Value(b), e) == Power(Value(x), exponent)
    {
      PowerHalve(Value(b), e);
      AccumulatorStep(Value(result), Value(b), Power(Value(b), e), Power(Value(b) * Value(b), e / 2), e % 2 == 1);
      if e % 2 == 1 {
        result := Mul(result, b);
      }
      b := Mul(b, b);
      e := e / 2;
    }
    return Success(result);
  }

  /** sqrt: throws on negatives, returns 0 and 1 unchanged, and otherwise
      binary-searches [1, n] for the integer square root. */
  method Sqrt(n: BigInt) returns (r: Result<BigInt>)
    requires Canonical(n)
    ensures r.Failure? <==> Value(n) < 0
    ensures r.Failure? ==> r.error == NegativeOperand
    ensures r.Success? ==> Canonical(r.value) && IsSquareRoot(Value(r.value), Value(n))
  {
    Magnitude(n);
    if n.negative {
      return Failure(NegativeOperand);
    }
    var zero := FromInt(0);
    var one := FromInt(1);
    ComparisonMeaning(n, zero);
    ComparisonMeaning(n, one);
    if Equal(n, zero) || Equal(n, one) {
      return Success(n);
    }
    var two := FromInt(2);
    var left := FromInt(1);
    var right := n;
    var result := FromInt(1);
    SqrtStart(Value(n));
    while (ComparisonMeaning(left, right); LessEq(left, right))
      invariant Canonical(left) && Canonical(right) && Canonical(result)
      invariant SqrtSearch(Value(n), Value(left), Value(right), Value(result))
      decreases Value(right) - Value(left)
    {
      var sum := Add(left, right);
      var half := Div(sum, two);
      var mid := half.value;
      TruncDivNonNegative(Value(sum), 2);
      SqrtMid(Value(left), Value(right), Value(mid));
      var square := Mul(mid, mid);
      ComparisonMeaning(square, n);
      if Equal(square, n) {
        SqrtExact(Value(mid), Value(n));
        return Success(mid);
      }
      if Less(square, n) {
        var next := Add(mid, one);
        SqrtLow(Value(n), Value(left), Value(right), Value(result), Value(mid), Value(next));
        left := next;
        result := mid;
      } else {
        var next := Sub(mid, one);
        SqrtHigh(Value(n), Value(left), Value(right), Value(result), Value(mid), Value(next));
        right := next;
      }
    }
    SqrtEnd(Value(n), Value(left), Value(right), Value(result));
    return Success(result);
  }

  // ---------------------------------------------------------------------------
  // Arithmetic with long long operands: each converts n with bigint(n) and
  // applies the bigint operator, on the left or on the right.

  method AddInt(a: BigInt, n: int) returns (r: BigInt)
    requires Canonical(a) && LLONG_MIN < n <= LLONG_MAX
    ensures Canonical(r) && Value(r) == Value(a) + n
  {
    var b := FromInt(n);
    r := Add(a, b);
  }

  method SubInt(a: BigInt, n: int) returns (r: BigInt)
    requires Canonical(a) && LLONG_MIN < n <= LLONG_MAX
    ensures Canonical(r) && Value(r) == Value(a) - n
  {
    var b := FromInt(n);
    r := Sub(a, b);
  }

  method MulInt(a: BigInt, n: int) returns (r: BigInt)
    requires Canonical(a) && LLONG_MIN < n <= LLONG_MAX
    ensures Canonical(r) && Value(r) == Value(a) * n
  {
    var b := FromInt(n);
    r := Mul(a, b);
  }

  method DivInt(a: BigInt, n: int) returns (r: Result<BigInt>)
    requires Canonical(a) && LLONG_MIN < n <= LLONG_MAX
    ensures r.Failure? <==> n == 0
    ensures r.Failure? ==> r.error == DivisionByZero
    ensures r.Success? ==> Canonical(r.value) && Value(r.value) == TruncDiv(Value(a), n)
  {
    var b := FromInt(n);
    r := Div(a, b);
  }

  method ModInt(a: BigInt, n: int) returns (r: Result<BigInt>)
    requires Canonical(a) && LLONG_MIN < n <= LLONG_MAX
    ensures r.Failure? <==> n == 0
    ensures r.Failure? ==> r.error == ModuloByZero
    ensures r.Success? ==> Canonical(r.value) && Value(r.value) == AdjustedRem(Value(a), n)
  {
    var b := FromInt(n);
    r := Mod(a, b);
  }

  method IntAdd(n: int, b: BigInt) returns (r: BigInt)
    requires LLONG_MIN < n <= LLONG_MAX && Canonical(b)
    ensures Canonical(r) && Value(r) == n + Value(b)
  {
    var a := FromInt(n);
    r := Add(a, b);
  }

  method IntSub(n: int, b: BigInt) returns (r: BigInt)
    requires LLONG_MIN < n <= LLONG_MAX && Canonical(b)
    ensures Canonical(r) && Value(r) == n - Value(b)
  {
    var a := FromInt(n);
    r := Sub(a, b);
  }

  method IntMul(n: int, b: BigInt) returns (r: BigInt)
    requires LLONG_MIN < n <= LLONG_MAX && Canonical(b)
    ensures Canonical(r) && Value(r) == n * Value(b)
  {
    var a := FromInt(n);
    r := Mul(a, b);
  }

  method IntDiv(n: int, b: BigInt) returns (r: Result<BigInt>)
    requires LLONG_MIN < n <= LLONG_MAX && Canonical(b)
    ensures r.Failure? <==> Value(b) == 0
    ensures r.Failure? ==> r.error == DivisionByZero
    ensures r.Success? ==> Canonical(r.value) && Value(r.value) == TruncDiv(n, Value(b))
  {
    var a := FromInt(n);
    r := Div(a, b);
  }

  method IntMod(n: int, b: BigInt) returns (r: Result<BigInt>)
    requires LLONG_MIN < n <= LLONG_MAX && Canonical(b)
    ensures r.Failure? <==> Value(b) == 0
    ensures r.Failure? ==> r.error == ModuloByZero
    ensures r.Success? ==> Canonical(r.value) && Value(r.value) == AdjustedRem(n, Value(b))
  {
    var a := FromInt(n);
    r := Mod(a, b);
  }
}
