/** bigint_opt (high_precision_digit.hpp): a sign flag and limbs in base 10^9,
    least significant first. Like bigint it is a value type, so it is a
    datatype here and its operations are methods returning new values.

    Addition, subtraction, the naive product, pow (when every product
    succeeds), the shifts to the left and the constructors are proved exact.
    Division corrects its estimated quotient limb only downward, so the model
    proves what that loop guarantees (the quotient never overshoots) and not
    that it is the true quotient; >>, % and sqrt inherit that. */
module BigintOpt {
  import opened Wrappers
  import opened Arith
  import opened Limbs
  import opened Decimal
  import opened OptMultiply

  /** Decimal digits per limb. */
  const BASE_DIGITS: nat := 9

  datatype BigIntOpt = BigIntOpt(digits: seq<int>, negative: bool)

  /** The integer a bigint_opt denotes: sign times the sum of digits[i] * BASE^i. */
  function Value(x: BigIntOpt): int {
    if x.negative then -Val(x.digits, BASE) else Val(x.digits, BASE)
  }

  /** Limbs in [0, BASE) with no most-significant zero limb, as trim leaves them. */
  predicate WellFormed(x: BigIntOpt) {
    Trimmed(x.digits) && IsLimbs(x.digits, BASE)
  }

  /** The normal form: well formed, and zero is never negative. */
  predicate Canonical(x: BigIntOpt) {
    WellFormed(x) && (x.digits == [0] ==> !x.negative)
  }

  lemma Magnitude(x: BigIntOpt)
    requires WellFormed(x)
    ensures Val(x.digits, BASE) >= 0
    ensures Val(x.digits, BASE) == 0 <==> x.digits == [0]
    ensures Canonical(x) ==> (x.negative <==> Value(x) < 0)
  {
    ValBounds(x.digits, BASE);
    ZeroForm(x.digits, BASE);
  }

  /** A canonical bigint_opt is determined by its value. */
  lemma CanonicalUnique(x: BigIntOpt, y: BigIntOpt)
    requires Canonical(x) && Canonical(y) && Value(x) == Value(y)
    ensures x == y
  {
    Magnitude(x);
    Magnitude(y);
    assert x.negative == y.negative;
    ValInjective(x.digits, y.digits, BASE);
  }

  /** Giving a nonzero canonical value either sign keeps it canonical. */
  lemma Resign(x: BigIntOpt, negative: bool)
    requires Canonical(x) && Val(x.digits, BASE) != 0
    ensures Canonical(x.(negative := negative))
  {
  }

  // ---------------------------------------------------------------------------
  // Construction

  /** bigint_opt(): the default constructor holds zero. */
  function Zero(): (z: BigIntOpt)
    ensures Canonical(z) && Value(z) == 0
  {
    assert Val([0], BASE) == Val([], BASE) + 0 * Power(BASE, 0);
    BigIntOpt([0], false)
  }

  /** trim(): pops most-significant zero limbs and clears the sign of zero;
      also the constructor from a limb vector, which trims what it is given. */
  method Trim(x: BigIntOpt) returns (y: BigIntOpt)
    requires |x.digits| >= 1
    ensures Trimmed(y.digits) && |y.digits| <= |x.digits| && y.digits == x.digits[..|y.digits|]
    ensures forall i | |y.digits| <= i < |x.digits| :: x.digits[i] == 0
    ensures y.negative == (x.negative && y.digits != [0])
    ensures IsLimbs(x.digits, BASE) ==> Canonical(y) && Value(y) == Value(x)
  {
    var d := StripZeros(x.digits);
    StrippedValue(x.digits, d, BASE);
    y := BigIntOpt(d, x.negative && d != [0]);
    if d == [0] {
      assert Val(d, BASE) == Val([], BASE) + 0 * Power(BASE, 0);
    }
  }

  /** bigint_opt(long long n): the limbs of |n| by repeated division by 10^9.
      n == LLONG_MIN is excluded: std::abs overflows there. */
  method FromInt(n: int) returns (x: BigIntOpt)
    requires LLONG_MIN < n <= LLONG_MAX
    ensures Canonical(x) && Value(x) == n
    ensures Arith.Abs(n) < BASE ==> |x.digits| == 1
    ensures Arith.Abs(n) < BASE * BASE ==> |x.digits| <= 2
    ensures |x.digits| <= 3
  {
    if n == 0 {
      return Zero();
    }
    var negative := n < 0;
    var m := Arith.Abs(n);
    var digits: seq<int> := [];
    while m > 0
      invariant m >= 0 && IsLimbs(digits, BASE)
      invariant Val(digits, BASE) + m * Power(BASE, |digits|) == Arith.Abs(n)
      invariant m == 0 ==> |digits| >= 1 && digits[|digits| - 1] != 0
    {
      FromIntStep(digits, m);
      digits := digits + [m % BASE];
      m := m / BASE;
    }
    x := BigIntOpt(digits, negative);
    if Arith.Abs(n) < BASE {
      TrimmedLength(digits, 1, BASE);
    }
    if Arith.Abs(n) < BASE * BASE {
      assert Power(BASE, 2) == BASE * BASE;
      TrimmedLength(digits, 2, BASE);
    }
    assert Power(BASE, 3) == BASE * BASE * BASE;
    TrimmedLength(digits, 3, BASE);
  }

  lemma FromIntStep(digits: seq<int>, m: int)
    requires m > 0 && IsLimbs(digits, BASE)
    ensures IsLimbs(digits + [m % BASE], BASE)
    ensures Val(digits + [m % BASE], BASE) + (m / BASE) * Power(BASE, |digits| + 1)
         == Val(digits, BASE) + m * Power(BASE, |digits|)
    ensures m / BASE == 0 ==> m % BASE != 0
  {
    var d, q := m % BASE, m / BASE;
    DivModParts(m, BASE);
    ValAppend(digits, d, BASE);
    var p := Power(BASE, |digits|);
    assert Power(BASE, |digits| + 1) == BASE * p;
    LimbSplit(m, q, d, p);
  }

  lemma LimbSplit(m: int, q: int, d: int, p: int)
    requires m == q * BASE + d
    ensures d * p + q * (BASE * p) == m * p
  {
  }

  /** 10^9 is the limb base, so nine decimal digits make one limb. */
  lemma {:induction false} TenPowerLimbs(k: nat)
    ensures Power(10, BASE_DIGITS * k) == Power(BASE, k)
  {
    if k > 0 {
      TenPowerLimbs(k - 1);
      PowerAdd(10, BASE_DIGITS * (k - 1), BASE_DIGITS);
      assert BASE_DIGITS * k == BASE_DIGITS * (k - 1) + BASE_DIGITS;
      assert Power(10, 9) == BASE;
    }
  }

  /** 10^(9k + r) splits into BASE^k * 10^r. */
  lemma TenPowerSplit(count: nat)
    ensures Power(10, count) == Power(BASE, count / BASE_DIGITS) * Power(10, count % BASE_DIGITS)
  {
    TenPowerLimbs(count / BASE_DIGITS);
    PowerAdd(10, BASE_DIGITS * (count / BASE_DIGITS), count % BASE_DIGITS);
  }

  /** bigint_opt(const std::string&): an optional sign, then digits; leading
      zeros are skipped, an empty, sign-only or all-zero string gives zero,
      and any other character throws invalid_argument. */
  method FromString(s: string) returns (r: Result<BigIntOpt>)
    ensures r.Success? <==> ParseInteger(s).Success?
    ensures r.Success? ==> Canonical(r.value) && Value(r.value) == ParseInteger(s).value
    ensures r.Failure? ==> r.error == InvalidArgument
  {
    if |s| == 0 {
      return Success(Zero());
    }
    var start := 0;
    var negative := false;
    if s[0] == '-' {
      negative := true;
      start := 1;
    } else if s[0] == '+' {
      start := 1;
    }
    ghost var bodyStart := start;
    assert s[bodyStart..] == (if s[0] == '-' || s[0] == '+' then s[1..] else s);
    while start < |s| && s[start] == '0'
      invariant bodyStart <= start <= |s|
      invariant forall k | bodyStart <= k < start :: s[k] == '0'
    {
      start := start + 1;
    }
    if start == |s| {
      ZerosValue(s[bodyStart..]);
      return Success(Zero());
    }
    var packed := PackDigits(s, start);
    if packed.None? {
      StrayCharacter(s, bodyStart, start);
      return Failure(InvalidArgument);
    }
    var digits := packed.value;
    SkippedZeros(s, bodyStart, start);
    var x := Trim(BigIntOpt(digits, negative));
    ParsedValue(s, bodyStart, negative, x);
    return Success(x);
  }

  /** The packing loop of the string constructor: reads s[start..] from its
      last character down, adding each digit times the running power of ten
      into the current limb and storing the limb once nine digits are in;
      the partial top limb is stored at the end when it is not zero. None at
      the first non-digit. */
  method PackDigits(s: string, start: nat) returns (r: Option<seq<int>>)
    requires start < |s|
    ensures r.None? <==> exists k :: start <= k < |s| && !IsDigit(s[k])
    ensures r.Some? ==> AllDigits(s[start..]) && IsLimbs(r.value, BASE) && |r.value| >= 1
    ensures r.Some? ==> Val(r.value, BASE) == DecimalValue(s[start..])
  {
    var len := |s| - start;
    var numDigits := (len + BASE_DIGITS - 1) / BASE_DIGITS;
    LimbsForDigits(len, numDigits);
    var digits := Zeros(numDigits);
    var digitIndex := 0;
    var currentValue := 0;
    var currentPower := 1;
    var i := |s| - 1;
    PackStart(s, numDigits);
    while i >= start as int
      invariant start - 1 <= i < |s| && |digits| == numDigits
      invariant PackState(s, i, digits, digitIndex, currentValue, currentPower)
    {
      if !IsDigit(s[i]) {
        return None;
      }
      digits, digitIndex, currentValue, currentPower := PackDigit(s, i, digits, digitIndex, currentValue, currentPower);
      i := i - 1;
    }
    PackDone(s, start, i, digits, digitIndex, currentValue, currentPower);
    if currentValue > 0 {
      digits := digits[digitIndex := currentValue];
    }
    assert forall k | start <= k < |s| :: IsDigit(s[k]) by {
      forall k | start <= k < |s|
        ensures IsDigit(s[k])
      {
        assert s[k] == s[start..][k - start];
      }
    }
    return Some(digits);
  }

  /** The packing loop's state after reading s[i+1..]: count = |s[i+1..]|
      digits read, count/9 limbs stored, the rest in currentValue below
      currentPower = 10^(count%9), and everything read accounted for. */
  predicate PackState(s: string, i: int, digits: seq<int>, digitIndex: int, cv: int, cp: int) {
    -1 <= i < |s| &&
    var count := |s| - 1 - i;
    AllDigits(s[i + 1..]) && IsLimbs(digits, BASE) &&
    digitIndex == count / BASE_DIGITS && digitIndex <= |digits| &&
    (forall k | digitIndex <= k < |digits| :: digits[k] == 0) &&
    cp == Power(10, count % BASE_DIGITS) && 0 <= cv < cp &&
    Val(digits, BASE) + cv * Power(BASE, digitIndex) == DecimalValue(s[i + 1..])
  }

  /** Reading one more digit: its value times 10^count joins the total. */
  lemma PackStep(s: string, i: int, digits: seq<int>, digitIndex: int, cv: int, cp: int)
    requires 0 <= i && PackState(s, i, digits, digitIndex, cv, cp) && IsDigit(s[i])
    ensures var count := |s| - 1 - i;
      var cv', cp' := cv + DigitValue(s[i]) * cp, cp * 10;
      AllDigits(s[i..]) && 0 <= cv' < cp' &&
      cp' == Power(10, count % BASE_DIGITS + 1) &&
      (cp' == BASE ==> count % BASE_DIGITS + 1 == BASE_DIGITS) &&
      Val(digits, BASE) + cv' * Power(BASE, digitIndex) == DecimalValue(s[i..])
  {
    var count := |s| - 1 - i;
    var d := DigitValue(s[i]);
    assert s[i..] == [s[i]] + s[i + 1..];
    DecimalValueConcat([s[i]], s[i + 1..]);
    assert DecimalValue([s[i]]) == d by {
      assert [s[i]][..0] == [];
    }
    assert |s[i + 1..]| == count;
    TenPowerSplit(count);
    PackAlgebra(Val(digits, BASE), cv, cp, d, Power(BASE, digitIndex), Power(10, count),
                DecimalValue(s[i..]), DecimalValue(s[i + 1..]));
    if cp * 10 == BASE {
      PowerTenIsBase(count % BASE_DIGITS + 1);
    }
  }

  /** The body of the packing loop for the digit s[i]: it joins the current
      limb at the running power of ten, and a limb that reached nine digits
      is stored and a new one begun. */
  method PackDigit(s: string, i: int, digits: seq<int>, digitIndex: int, currentValue: int, currentPower: int)
    returns (digits': seq<int>, digitIndex': int, currentValue': int, currentPower': int)
    requires 0 <= i && PackState(s, i, digits, digitIndex, currentValue, currentPower) && IsDigit(s[i])
    requires |digits| * BASE_DIGITS >= |s| - i
    ensures |digits'| == |digits|
    ensures PackState(s, i - 1, digits', digitIndex', currentValue', currentPower')
  {
    PackAdvance(s, i, digits, digitIndex, currentValue, currentPower);
    digits', digitIndex' := digits, digitIndex;
    currentValue' := currentValue + DigitValue(s[i]) * currentPower;
    currentPower' := currentPower * 10;
    if currentPower' == BASE {
      digits' := digits'[digitIndex' := currentValue'];
      digitIndex' := digitIndex' + 1;
      currentValue' := 0;
      currentPower' := 1;
    }
  }

  /** Nothing read yet: all limbs zero, no digits in the current limb. */
  lemma PackStart(s: string, numDigits: nat)
    requires |s| >= 1
    ensures PackState(s, |s| - 1, Zeros(numDigits), 0, 0, 1)
  {
    ValOfZeros(numDigits, BASE);
    assert s[|s|..] == [];
  }

  /** ceil(len / 9) limbs hold len digits. */
  lemma LimbsForDigits(len: int, numDigits: int)
    requires len >= 1 && numDigits == (len + BASE_DIGITS - 1) / BASE_DIGITS
    ensures numDigits * BASE_DIGITS >= len && numDigits >= 1
  {
  }

  /** One pass of the packing loop keeps PackState: the digit joins the
      current limb, and a limb that reached nine digits is stored. */
  lemma PackAdvance(s: string, i: int, digits: seq<int>, digitIndex: int, cv: int, cp: int)
    requires 0 <= i && PackState(s, i, digits, digitIndex, cv, cp) && IsDigit(s[i])
    requires |digits| * BASE_DIGITS >= |s| - i
    ensures var cv', cp' := cv + DigitValue(s[i]) * cp, cp * 10;
      (cp' != BASE ==> PackState(s, i - 1, digits, digitIndex, cv', cp')) &&
      (cp' == BASE ==> 0 <= digitIndex < |digits| && PackState(s, i - 1, digits[digitIndex := cv'], digitIndex + 1, 0, 1))
  {
    var count := |s| - 1 - i;
    var cv', cp' := cv + DigitValue(s[i]) * cp, cp * 10;
    PackStep(s, i, digits, digitIndex, cv, cp);
    if cp' == BASE {
      PackFlush(s, i, digits, digitIndex, cv');
    } else {
      assert Power(10, BASE_DIGITS) == BASE;
      PartialLimbCount(count);
    }
  }

  /** A count of digits that leaves the limb unfinished stays in it. */
  lemma PartialLimbCount(count: int)
    requires count >= 0 && count % BASE_DIGITS + 1 != BASE_DIGITS
    ensures (count + 1) / BASE_DIGITS == count / BASE_DIGITS && (count + 1) % BASE_DIGITS == count % BASE_DIGITS + 1
  {
  }

  lemma PackAlgebra(v: int, cv: int, cp: int, d: int, pb: int, p10: int, total: int, rest: int)
    requires v + cv * pb == rest && p10 == pb * cp && total == d * p10 + rest
    requires 0 <= d <= 9 && 0 <= cv < cp
    ensures v + (cv + d * cp) * pb == total
    ensures 0 <= cv + d * cp < cp * 10
  {
    assert d * p10 == (d * cp) * pb;
    assert (cv + d * cp) * pb == cv * pb + (d * cp) * pb;
    assert d * cp <= 9 * cp;
  }

  /** Among 10^0 .. 10^9 only 10^9 is the base. */
  lemma PowerTenIsBase(j: nat)
    requires j <= BASE_DIGITS && Power(10, j) == BASE
    ensures j == BASE_DIGITS
  {
    if j < BASE_DIGITS {
      PowerMonotone(10, j, 8);
    }
  }

  /** Nine digits read: the full limb is stored at digitIndex. */
  lemma PackFlush(s: string, i: int, digits: seq<int>, digitIndex: int, cv: int)
    requires 0 <= i < |s| && |digits| * BASE_DIGITS >= |s| - i
    requires var count := |s| - 1 - i;
      digitIndex == count / BASE_DIGITS && count % BASE_DIGITS + 1 == BASE_DIGITS
    requires IsLimbs(digits, BASE) && digitIndex <= |digits|
    requires forall k | digitIndex <= k < |digits| :: digits[k] == 0
    requires 0 <= cv < BASE && AllDigits(s[i..])
    requires Val(digits, BASE) + cv * Power(BASE, digitIndex) == DecimalValue(s[i..])
    ensures digitIndex < |digits|
    ensures PackState(s, i - 1, digits[digitIndex := cv], digitIndex + 1, 0, 1)
  {
    var count := |s| - 1 - i;
    FullLimbCount(count);
    assert digitIndex < |digits|;
    var stored := StoreLimb(digits, digitIndex, cv, DecimalValue(s[i..]));
    assert Power(10, 0) == 1;
  }

  /** Storing the finished limb cv in the zero slot at digitIndex keeps the
      total and leaves the slots above it zero. */
  lemma StoreLimb(digits: seq<int>, digitIndex: nat, cv: int, total: int) returns (stored: seq<int>)
    requires IsLimbs(digits, BASE) && digitIndex < |digits|
    requires forall k | digitIndex <= k < |digits| :: digits[k] == 0
    requires 0 <= cv < BASE && Val(digits, BASE) + cv * Power(BASE, digitIndex) == total
    ensures stored == digits[digitIndex := cv] && IsLimbs(stored, BASE)
    ensures forall k | digitIndex + 1 <= k < |stored| :: stored[k] == 0
    ensures Val(stored, BASE) + 0 * Power(BASE, digitIndex + 1) == total
  {
    stored := digits[digitIndex := cv];
    assert digits[digitIndex] == 0;
    ValUpdate(digits, digitIndex, cv, BASE);
  }

  /** A count of digits that completes a limb starts the next one. */
  lemma FullLimbCount(count: int)
    requires count >= 0 && count % BASE_DIGITS + 1 == BASE_DIGITS
    ensures (count + 1) / BASE_DIGITS == count / BASE_DIGITS + 1 && (count + 1) % BASE_DIGITS == 0
  {
  }

  /** After the loop: the partial top limb completes the value. */
  lemma PackDone(s: string, start: nat, i: int, digits: seq<int>, digitIndex: int, cv: int, cp: int)
    requires start < |s| && i == start - 1 && PackState(s, i, digits, digitIndex, cv, cp)
    requires |digits| == (|s| - start + BASE_DIGITS - 1) / BASE_DIGITS
    ensures cv > 0 ==> digitIndex < |digits|
    ensures cv > 0 ==> (IsLimbs(digits[digitIndex := cv], BASE) &&
                        Val(digits[digitIndex := cv], BASE) == DecimalValue(s[start..]))
    ensures cv <= 0 ==> Val(digits, BASE) == DecimalValue(s[start..])
    ensures |digits| >= 1
  {
    var count := |s| - start;
    assert s[start - 1 + 1..] == s[start..];
    if cv > 0 {
      assert count % BASE_DIGITS != 0;
      assert digitIndex < |digits|;
      ValUpdate(digits, digitIndex, cv, BASE);
      assert cp <= BASE by {
        PowerMonotone(10, count % BASE_DIGITS, BASE_DIGITS);
      }
    }
  }


  lemma ParsedValue(s: string, bodyStart: nat, negative: bool, x: BigIntOpt)
    requires 1 <= |s| && bodyStart <= |s|
    requires bodyStart == (if s[0] == '-' || s[0] == '+' then 1 else 0)
    requires negative == (s[0] == '-')
    requires AllDigits(s[bodyStart..]) && Canonical(x)
    requires (if negative then -Value(x) else Value(x)) == DecimalValue(s[bodyStart..])
    ensures ParseInteger(s) == Success(Value(x))
  {
    assert s[0..] == s;
  }

  // ---------------------------------------------------------------------------
  // Text

  /** snprintf("%09d") of one limb: its digits padded with zeros to nine. */
  function LimbText(d: int): string
    requires 0 <= d
  {
    ZeroPad(NatToDecimal(d), BASE_DIGITS)
  }

  /** The limbs of d from the most significant down, nine digits each. */
  function LimbsText(d: seq<int>): string
    requires IsLimbs(d, BASE)
  {
    if |d| == 0 then "" else LimbsText(d[1..]) + LimbText(d[0])
  }

  /** What to_string produces: "0" for an empty limb vector, otherwise a '-'
      for negatives, the top limb without padding, and every lower limb padded
      to nine digits. */
  function Render(x: BigIntOpt): string
    requires IsLimbs(x.digits, BASE)
  {
    var n := |x.digits|;
    if n == 0 then "0"
    else (if x.negative then "-" else "") + NatToDecimal(x.digits[n - 1]) + LimbsText(x.digits[..n - 1])
  }

  /** to_string(): the top limb, then the lower limbs from the top down. */
  method ToString(x: BigIntOpt) returns (s: string)
    requires IsLimbs(x.digits, BASE)
    ensures s == Render(x)
  {
    var n := |x.digits|;
    if n == 0 {
      return "0";
    }
    var head := (if x.negative then "-" else "") + NatToDecimal(x.digits[n - 1]);
    s := head;
    var i := n - 2;
    while i >= 0
      invariant -1 <= i <= n - 2
      invariant RenderedAbove(x.digits, n - 1, head, s, i)
    {
      RenderedStep(x.digits, n - 1, head, s, i);
      s := s + LimbText(x.digits[i]);
      i := i - 1;
    }
    assert x.digits[0..n - 1] == x.digits[..n - 1];
  }

  /** The state of to_string's loop: s holds the head and limbs j - 1 down
      to i + 1. */
  ghost predicate RenderedAbove(d: seq<int>, j: int, head: string, s: string, i: int)
    requires IsLimbs(d, BASE) && -1 <= i < j <= |d|
  {
    s == head + LimbsText(d[i + 1..j])
  }

  lemma RenderedStep(d: seq<int>, j: int, head: string, s: string, i: int)
    requires IsLimbs(d, BASE) && 0 <= i < j <= |d| && RenderedAbove(d, j, head, s, i)
    ensures RenderedAbove(d, j, head, s + LimbText(d[i]), i - 1)
  {
    assert d[i..j][1..] == d[i + 1..j];
  }

  /** A limb renders as exactly nine digits denoting it. */
  lemma LimbTextMeaning(d: int)
    requires 0 <= d < BASE
    ensures AllDigits(LimbText(d)) && |LimbText(d)| == BASE_DIGITS && DecimalValue(LimbText(d)) == d
  {
    var t := NatToDecimal(d);
    NatToDecimalMeaning(d);
    if |t| > BASE_DIGITS {
      DecimalValueLower(t);
      PowerMonotone(10, BASE_DIGITS, |t| - 1);
      TenPowerLimbs(1);
    }
    ZeroPadMeaning(t, BASE_DIGITS);
  }

  lemma {:induction false} LimbsTextMeaning(d: seq<int>)
    requires IsLimbs(d, BASE)
    ensures AllDigits(LimbsText(d)) && |LimbsText(d)| == BASE_DIGITS * |d|
    ensures DecimalValue(LimbsText(d)) == Val(d, BASE)
  {
    if |d| > 0 {
      LimbsTextMeaning(d[1..]);
      LimbTextMeaning(d[0]);
      DecimalValueConcat(LimbsText(d[1..]), LimbText(d[0]));
      TenPowerLimbs(1);
      assert d == [d[0]] + d[1..];
      ValCons(d[0], d[1..], BASE);
    }
  }

  /** The unsigned part of to_string's text denotes the magnitude and starts
      with a zero only when it is "0". */
  lemma BodyMeaning(d: seq<int>)
    requires WellFormed(BigIntOpt(d, false))
    ensures var body := NatToDecimal(d[|d| - 1]) + LimbsText(d[..|d| - 1]);
      AllDigits(body) && |body| >= 1 && DecimalValue(body) == Val(d, BASE) &&
      (|body| > 1 ==> body[0] != '0')
  {
    var n := |d|;
    var top, low := d[n - 1], d[..n - 1];
    var head := NatToDecimal(top);
    NatToDecimalMeaning(top);
    LimbsTextMeaning(low);
    DecimalValueConcat(head, LimbsText(low));
    TenPowerLimbs(n - 1);
    assert Val(d, BASE) == Val(low, BASE) + top * Power(BASE, n - 1);
  }

  /** to_string round-trips through the string constructor, puts a '-' only
      in front of negatives, and writes no leading zero. */
  lemma RenderParses(x: BigIntOpt)
    requires Canonical(x)
    ensures ParseInteger(Render(x)) == Success(Value(x))
    ensures (Render(x)[0] == '-') == (Value(x) < 0)
    ensures var body := if x.negative then Render(x)[1..] else Render(x);
      |body| > 1 ==> body[0] != '0'
  {
    Magnitude(x);
    var body := RenderSplit(x);
    SignedText(body, x.negative);
  }

  /** to_string's text is the sign followed by a digit string that denotes
      the magnitude and has no leading zero. */
  lemma RenderSplit(x: BigIntOpt) returns (body: string)
    requires Canonical(x)
    ensures Render(x) == if x.negative then "-" + body else body
    ensures AllDigits(body) && |body| >= 1 && DecimalValue(body) == Val(x.digits, BASE)
    ensures |body| > 1 ==> body[0] != '0'
  {
    var n := |x.digits|;
    body := NatToDecimal(x.digits[n - 1]) + LimbsText(x.digits[..n - 1]);
    RenderShape(x);
    BodyMeaning(x.digits);
  }

  /** to_string's text is the sign followed by the unsigned body. */
  lemma RenderShape(x: BigIntOpt)
    requires IsLimbs(x.digits, BASE) && |x.digits| >= 1
    ensures var n := |x.digits|;
      var body := NatToDecimal(x.digits[n - 1]) + LimbsText(x.digits[..n - 1]);
      Render(x) == if x.negative then "-" + body else body
  {
  }

  // ---------------------------------------------------------------------------
  // Addition and subtraction

  /** add_abs: limb sums, subtracting BASE and carrying 1 when a sum reaches
      BASE, until both inputs and the carry are used up. */
  method AddAbs(a: BigIntOpt, b: BigIntOpt) returns (r: BigIntOpt)
    requires WellFormed(a) && WellFormed(b)
    ensures Canonical(r) && !r.negative
    ensures Value(r) == Val(a.digits, BASE) + Val(b.digits, BASE)
  {
    var x, y := a.digits, b.digits;
    var maxLen := if |x| > |y| then |x| else |y|;
    var d: seq<int> := [];
    var carry := 0;
    var i := 0;
    while i < maxLen || carry != 0
      invariant 0 <= i <= maxLen + 1 && |d| == i && IsLimbs(d, BASE)
      invariant carry == 0 || carry == 1
      invariant i == maxLen + 1 ==> carry == 0 && d[maxLen] == 1
      invariant Val(d, BASE) + carry * Power(BASE, i) == Val(LowPart(x, i), BASE) + Val(LowPart(y, i), BASE)
      decreases maxLen + 1 - i
    {
      var sum := carry;
      if i < |x| {
        sum := sum + x[i];
      }
      if i < |y| {
        sum := sum + y[i];
      }
      var digit, newCarry;
      if sum >= BASE {
        digit, newCarry := sum - BASE, 1;
      } else {
        digit, newCarry := sum, 0;
      }
      AddAbsStep(x, y, d, i, carry, digit, newCarry);
      d := d + [digit];
      carry := newCarry;
      i := i + 1;
    }
    assert LowPart(x, i) == x && LowPart(y, i) == y;
    AddResultTrimmed(x, y, d, maxLen, BASE);
    r := BigIntOpt(d, false);
  }

  lemma AddAbsStep(a: seq<int>, b: seq<int>, r: seq<int>, i: nat, carry: int, digit: int, newCarry: int)
    requires IsLimbs(a, BASE) && IsLimbs(b, BASE) && IsLimbs(r, BASE) && |r| == i
    requires carry == 0 || carry == 1
    requires Val(r, BASE) + carry * Power(BASE, i) == Val(LowPart(a, i), BASE) + Val(LowPart(b, i), BASE)
    requires var sum := LimbSum(a, b, i, carry);
      (sum >= BASE && digit == sum - BASE && newCarry == 1) || (sum < BASE && digit == sum && newCarry == 0)
    ensures IsLimbs(r + [digit], BASE) && (newCarry == 0 || newCarry == 1)
    ensures i >= |a| && i >= |b| ==> digit == carry && newCarry == 0
    ensures Val(r + [digit], BASE) + newCarry * Power(BASE, i + 1)
         == Val(LowPart(a, i + 1), BASE) + Val(LowPart(b, i + 1), BASE)
  {
    SumSplit(LimbSum(a, b, i, carry), digit, newCarry, BASE);
    AddInvariantStep(a, b, r, i, carry, digit, newCarry, BASE);
  }

  /** sub_abs: |a| - |b| for |a| >= |b|, borrowing at most 1, then trimmed. */
  method SubAbs(a: BigIntOpt, b: BigIntOpt) returns (r: BigIntOpt)
    requires WellFormed(a) && WellFormed(b) && Val(b.digits, BASE) <= Val(a.digits, BASE)
    ensures Canonical(r) && !r.negative
    ensures Value(r) == Val(a.digits, BASE) - Val(b.digits, BASE)
  {
    ValBounds(a.digits, BASE);
    TrimmedLength(b.digits, |a.digits|, BASE);
    var d := SubLimbs(a.digits, b.digits, BASE);
    r := Trim(BigIntOpt(d, false));
  }

  /** operator+: adds magnitudes for equal signs, otherwise subtracts the
      smaller magnitude from the larger and keeps the larger one's sign;
      equal magnitudes give bigint_opt(0). One operand may be the negative
      zero operator- builds. */
  method Add(a: BigIntOpt, b: BigIntOpt) returns (r: BigIntOpt)
    requires WellFormed(a) && WellFormed(b) && (Canonical(a) || Canonical(b))
    ensures Canonical(r) && Value(r) == Value(a) + Value(b)
  {
    Magnitude(a);
    Magnitude(b);
    if a.negative == b.negative {
      var sum := AddAbs(a, b);
      Magnitude(sum);
      r := sum.(negative := a.negative);
      return;
    }
    var cmp := CompareAbs(a.digits, b.digits);
    CmpAbsMeaning(a.digits, b.digits, BASE);
    if cmp == 0 {
      r := FromInt(0);
      return;
    }
    var diff;
    if cmp > 0 {
      diff := SubAbs(a, b);
      Magnitude(diff);
      Resign(diff, a.negative);
      r := diff.(negative := a.negative);
    } else {
      diff := SubAbs(b, a);
      Magnitude(diff);
      Resign(diff, b.negative);
      r := diff.(negative := b.negative);
    }
  }

  /** operator-: adds a copy of the right operand with its sign flipped. */
  method Sub(a: BigIntOpt, b: BigIntOpt) returns (r: BigIntOpt)
    requires Canonical(a) && Canonical(b)
    ensures Canonical(r) && Value(r) == Value(a) - Value(b)
  {
    var temp := b.(negative := !b.negative);
    r := Add(a, temp);
  }

  /** operator++ / operator--: add or subtract bigint_opt(1). */
  method Increment(x: BigIntOpt) returns (r: BigIntOpt)
    requires Canonical(x)
    ensures Canonical(r) && Value(r) == Value(x) + 1
  {
    var one := FromInt(1);
    r := Add(x, one);
  }

  method Decrement(x: BigIntOpt) returns (r: BigIntOpt)
    requires Canonical(x)
    ensures Canonical(r) && Value(r) == Value(x) - 1
  {
    var one := FromInt(1);
    r := Sub(x, one);
  }

  // ---------------------------------------------------------------------------
  // Multiplication

  /** The operands' limb count above which operator* uses karatsuba_multiply. */
  const KARATSUBA_THRESHOLD: int := 64

  /** operator*: bigint_opt(0) when either operand is zero; otherwise
      karatsuba_multiply when both operands have more than 64 limbs and
      naive_multiply otherwise, the sign the XOR of the operand signs, then
      trimmed. Failure only where karatsuba_multiply leaves the product. */
  method Mul(a: BigIntOpt, b: BigIntOpt) returns (r: Result<BigIntOpt>)
    requires Canonical(a) && Canonical(b)
    ensures r.Success? ==> Canonical(r.value) && Value(r.value) == Value(a) * Value(b)
    ensures r.Failure? ==> r.error == KaratsubaFault
    ensures |a.digits| <= KARATSUBA_THRESHOLD || |b.digits| <= KARATSUBA_THRESHOLD ==> r.Success?
  {
    if a.digits == [0] || b.digits == [0] {
      var z := FromInt(0);
      Magnitude(a);
      Magnitude(b);
      return Success(z);
    }
    var product: seq<int>;
    if |a.digits| > KARATSUBA_THRESHOLD && |b.digits| > KARATSUBA_THRESHOLD {
      var k := Karatsuba(a.digits, b.digits);
      if k.Failure? {
        return Failure(KaratsubaFault);
      }
      product := k.value;
    } else {
      product := NaiveMultiply(a.digits, b.digits);
    }
    var t := Trim(BigIntOpt(product, a.negative != b.negative));
    SignedMagnitudes(Val(a.digits, BASE), Val(b.digits, BASE), a.negative, b.negative);
    return Success(t);
  }

  // ---------------------------------------------------------------------------
  // Comparison

  /** operator==: same sign flag and same limbs. */
  function Equal(a: BigIntOpt, b: BigIntOpt): bool {
    a.negative == b.negative && a.digits == b.digits
  }

  /** operator<: a negative is below a non-negative; equal signs compare magnitudes. */
  function Less(a: BigIntOpt, b: BigIntOpt): bool {
    if a.negative != b.negative then a.negative
    else if a.negative then CmpAbs(a.digits, b.digits) > 0
    else CmpAbs(a.digits, b.digits) < 0
  }

  function LessEq(a: BigIntOpt, b: BigIntOpt): bool {
    Less(a, b) || Equal(a, b)
  }

  function Greater(a: BigIntOpt, b: BigIntOpt): bool {
    !LessEq(a, b)
  }

  function GreaterEq(a: BigIntOpt, b: BigIntOpt): bool {
    !Less(a, b)
  }

  /** operator!=: the negation of operator==. */
  function NotEqual(a: BigIntOpt, b: BigIntOpt): bool {
    !Equal(a, b)
  }

  /** On canonical values the comparison operators are integer comparison. */
  lemma ComparisonMeaning(a: BigIntOpt, b: BigIntOpt)
    requires Canonical(a) && Canonical(b)
    ensures Equal(a, b) <==> Value(a) == Value(b)
    ensures Less(a, b) <==> Value(a) < Value(b)
    ensures LessEq(a, b) <==> Value(a) <= Value(b)
    ensures Greater(a, b) <==> Value(a) > Value(b)
    ensures GreaterEq(a, b) <==> Value(a) >= Value(b)
    ensures NotEqual(a, b) <==> Value(a) != Value(b)
  {
    EqualMeaning(a, b);
    LessMeaning(a, b);
  }

  lemma EqualMeaning(a: BigIntOpt, b: BigIntOpt)
    requires Canonical(a) && Canonical(b)
    ensures Equal(a, b) <==> Value(a) == Value(b)
  {
    if Value(a) == Value(b) {
      CanonicalUnique(a, b);
    }
  }

  lemma LessMeaning(a: BigIntOpt, b: BigIntOpt)
    requires Canonical(a) && Canonical(b)
    ensures Less(a, b) <==> Value(a) < Value(b)
  {
    Magnitude(a);
    Magnitude(b);
    CmpAbsMeaning(a.digits, b.digits, BASE);
  }

  /** abs: the same limbs with the sign cleared. */
  function Abs(x: BigIntOpt): BigIntOpt {
    x.(negative := false)
  }

  lemma AbsMeaning(x: BigIntOpt)
    requires Canonical(x)
    ensures Canonical(Abs(x)) && Value(Abs(x)) == Arith.Abs(Value(x))
  {
    Magnitude(x);
  }

  // ---------------------------------------------------------------------------
  // Small queries

  /** is_zero: the single limb 0. */
  function IsZero(x: BigIntOpt): bool {
    |x.digits| == 1 && x.digits[0] == 0
  }

  /** is_odd / is_even: the low bit of the lowest limb. */
  function IsOdd(x: BigIntOpt): bool
    requires |x.digits| >= 1 && x.digits[0] >= 0
  {
    x.digits[0] % 2 == 1
  }

  function IsEven(x: BigIntOpt): bool
    requires |x.digits| >= 1 && x.digits[0] >= 0
  {
    x.digits[0] % 2 == 0
  }

  /** The queries answer for the value: BASE is even, so the lowest limb
      decides the parity, and the sign does not change it. */
  lemma QueriesMeaning(x: BigIntOpt)
    requires Canonical(x)
    ensures IsZero(x) <==> Value(x) == 0
    ensures IsOdd(x) <==> Value(x) % 2 == 1
    ensures IsEven(x) <==> Value(x) % 2 == 0
    ensures IsOdd(x) != IsEven(x)
  {
    Magnitude(x);
    ValParity(x.digits, BASE);
    var v := Val(x.digits, BASE);
    if x.negative {
      assert (-v) % 2 == v % 2 by {
        DivModParts(v, 2);
        DivModParts(-v, 2);
        if v % 2 == 1 {
          DivisionUnique(-v, 2, -(v / 2) - 1, 1);
        } else {
          DivisionUnique(-v, 2, -(v / 2), 0);
        }
      }
    }
  }

  /** get_digit_count: nine digits for every limb below the top one plus the
      digits of the top limb, counted by dividing it by ten; at least 1. */
  method GetDigitCount(x: BigIntOpt) returns (count: int)
    requires WellFormed(x)
    ensures HasDigitCount(Val(x.digits, BASE), count)
  {
    count := (|x.digits| - 1) * BASE_DIGITS;
    var last := x.digits[|x.digits| - 1];
    ghost var c := 0;
    DigitCountStart(x.digits);
    while last > 0
      invariant CountState(x.digits, count, c, last)
      decreases last
    {
      DigitCountStep(x.digits, count, c, last);
      count := count + 1;
      last := last / 10;
      c := c + 1;
    }
    var result := if count == 0 then 1 else count;
    DigitCountBounds(x.digits, c, count, result);
    return result;
  }

  /** The state of the count: c digits of the top limb consumed, last is
      what remains of that limb. */
  ghost predicate CountState(d: seq<int>, count: int, c: nat, last: int)
    requires |d| >= 1
  {
    var top := d[|d| - 1];
    count == (|d| - 1) * BASE_DIGITS + c && Power(10, c) > 0 && 0 <= last == top / Power(10, c) &&
    (c > 0 ==> top >= Power(10, c - 1))
  }

  lemma DigitCountStart(d: seq<int>)
    requires |d| >= 1 && IsLimbs(d, BASE)
    ensures CountState(d, (|d| - 1) * BASE_DIGITS, 0, d[|d| - 1])
  {
  }

  /** v has count decimal digits (0 counts as one digit). */
  predicate HasDigitCount(v: int, count: int) {
    count >= 1 && v < Power(10, count) && (count == 1 || Power(10, count - 1) <= v)
  }

  lemma DigitCountStep(d: seq<int>, count: int, c: nat, last: int)
    requires IsLimbs(d, BASE) && |d| >= 1 && CountState(d, count, c, last) && last > 0
    ensures CountState(d, count + 1, c + 1, last / 10) && last / 10 < last
  {
    var top := d[|d| - 1];
    ghost var p := Power(10, c);
    assert Power(10, c + 1) == p * 10;
    DivideTwice(top, p);
  }

  /** Dividing by p and then by 10 is dividing by 10p; a positive quotient
      needs top >= p. */
  lemma DivideTwice(top: int, p: int)
    requires top >= 0 && p > 0
    ensures (top / p) / 10 == top / (p * 10)
    ensures top / p > 0 ==> top >= p
  {
    DivModParts(top, p);
    var t := top / p;
    DivModParts(t, 10);
    var q := t / 10;
    var rem := t % 10 * p + top % p;
    assert top == t * p + top % p;
    assert t * p == (q * 10 + t % 10) * p == q * (p * 10) + t % 10 * p;
    MulMonotone(p, t % 10, 9);
    MulMonotone(p, 0, t % 10);
    DivisionUnique(top, p * 10, q, rem);
    if top < p {
      DivisionUnique(top, p, 0, top);
    }
  }

  /** The digit count's value bounds: with c the digits of the top limb, the
      value lies in [10^(9(n-1) + c - 1), 10^(9(n-1) + c)). */
  lemma DigitCountBounds(d: seq<int>, c: nat, count: int, result: int)
    requires Trimmed(d) && IsLimbs(d, BASE)
    requires CountState(d, count, c, 0) && result == if count == 0 then 1 else count
    ensures HasDigitCount(Val(d, BASE), result)
  {
    var n := |d|;
    var top := d[n - 1];
    var low := d[..n - 1];
    var pl := Power(BASE, n - 1);
    var vl := Val(low, BASE);
    ValBounds(low, BASE);
    TenPowerLimbs(n - 1);
    assert Val(d, BASE) == vl + top * pl;
    PowerPositive(BASE, n - 1);
    DivModParts(top, Power(10, c));
    if c > 0 {
      PowerAdd(10, BASE_DIGITS * (n - 1), c);
      DigitCountUpper(vl, top, pl, Power(10, c));
      PowerAdd(10, BASE_DIGITS * (n - 1), c - 1);
      DigitCountLower(vl, top, pl, Power(10, c - 1));
    } else {
      assert top == 0 && n == 1;
      assert Val(d, BASE) == 0;
    }
  }

  lemma DigitCountUpper(low: int, top: int, pl: int, pc: int)
    requires 0 <= low < pl && 0 <= top < pc
    ensures low + top * pl < pl * pc
  {
    assert top * pl <= (pc - 1) * pl;
  }

  lemma DigitCountLower(low: int, top: int, pl: int, pc: int)
    requires 0 <= low && 0 < pl && pc <= top
    ensures pl * pc <= low + top * pl
  {
  }

  // ---------------------------------------------------------------------------
  // Division

  /** The top two limbs of d read as one number (the top limb alone when
      there is only one). */
  function TopTwo(d: seq<int>): int
    requires |d| >= 1
  {
    var n := |d|;
    if n > 1 then d[n - 1] * BASE + d[n - 2] else d[n - 1]
  }

  /** estimate_quotient_digit: the top two limbs of a divided by one more
      than the top two limbs of b, capped at BASE - 1; 0 when a has fewer
      limbs than b. */
  function EstimateQuotientDigit(a: BigIntOpt, b: BigIntOpt): (q: int)
    requires WellFormed(a) && WellFormed(b)
    ensures 0 <= q < BASE
    ensures |a.digits| < |b.digits| ==> q == 0
  {
    if |a.digits| < |b.digits| then 0
    else
      var aHigh := TopTwo(a.digits);
      var bHigh := TopTwo(b.digits);
      Min(aHigh / (bHigh + 1), BASE - 1)
  }

  /** The value of a sequence of at least two limbs: its top two limbs read
      as one number at position n - 2, plus the limbs below them. */
  lemma TopTwoSplit(d: seq<int>)
    requires IsLimbs(d, BASE) && |d| >= 2
    ensures Val(d, BASE) == TopTwo(d) * Power(BASE, |d| - 2) + Val(d[..|d| - 2], BASE)
    ensures 0 <= Val(d[..|d| - 2], BASE) < Power(BASE, |d| - 2)
  {
    var n := |d|;
    ValSplit(d, n - 2, BASE);
    var lo, top := d[n - 2], d[n - 1];
    assert d[n - 2..] == [lo] + [top];
    ValAppend([lo], top, BASE);
    assert [] + [lo] == [lo];
    ValAppend([], lo, BASE);
    assert Power(BASE, 1) == BASE;
    assert Val(d[n - 2..], BASE) == TopTwo(d);
    assert IsLimbs(d[..n - 2], BASE);
    ValBounds(d[..n - 2], BASE);
    Reorder(Val(d, BASE), Val(d[..n - 2], BASE), Power(BASE, n - 2), TopTwo(d));
  }

  lemma Reorder(v: int, l: int, p: int, t: int)
    requires v == l + p * t
    ensures v == t * p + l
  {
  }

  /** The estimate is conservative, as the source's comment on it says: for
      operands of the same limb count, q times the divisor does not exceed
      the dividend. */
  lemma EstimateConservative(a: BigIntOpt, b: BigIntOpt)
    requires WellFormed(a) && WellFormed(b) && |a.digits| == |b.digits|
    ensures EstimateQuotientDigit(a, b) * Val(b.digits, BASE) <= Val(a.digits, BASE)
  {
    var n := |a.digits|;
    var aHigh, bHigh := TopTwo(a.digits), TopTwo(b.digits);
    var q := EstimateQuotientDigit(a, b);
    assert 0 <= bHigh && 0 <= aHigh;
    DivModParts(aHigh, bHigh + 1);
    assert q <= aHigh / (bHigh + 1);
    MulMonotone(bHigh + 1, q, aHigh / (bHigh + 1));
    assert q * (bHigh + 1) <= aHigh;
    if n == 1 {
      assert a.digits[..0] == [] && b.digits[..0] == [];
      MulMonotone(q, bHigh, bHigh + 1);
    } else {
      TopTwoSplit(a.digits);
      TopTwoSplit(b.digits);
      ConservativeAlgebra(q, aHigh, bHigh, Power(BASE, n - 2),
        Val(a.digits[..n - 2], BASE), Val(b.digits[..n - 2], BASE));
    }
  }

  lemma ConservativeAlgebra(q: int, aHigh: int, bHigh: int, p: int, la: int, lb: int)
    requires 0 <= q && 0 <= bHigh && q * (bHigh + 1) <= aHigh && 0 <= la && 0 <= lb < p
    ensures q * (bHigh * p + lb) <= aHigh * p + la
  {
    MulMonotone(q, bHigh * p + lb, bHigh * p + p);
    assert q * (bHigh * p + p) == (q * (bHigh + 1)) * p;
    MulMonotone(p, q * (bHigh + 1), aHigh);
  }

  /** The estimate on one-limb operands: 5 / 1 is estimated as 2, 123 / 2
      as 41, 41 / 2 as 13 and 14 / 2 as 4, below the true quotient. */
  lemma EstimateExamples()
    ensures EstimateQuotientDigit(BigIntOpt([5], false), BigIntOpt([1], false)) == 2
    ensures EstimateQuotientDigit(BigIntOpt([123], false), BigIntOpt([2], false)) == 41
    ensures EstimateQuotientDigit(BigIntOpt([41], false), BigIntOpt([2], false)) == 13
    ensures EstimateQuotientDigit(BigIntOpt([14], false), BigIntOpt([2], false)) == 4
  {
  }

  /** On one-limb operands the estimate is the dividend over one more than
      the divisor, and it never overshoots: the correction loop of
      operator/ does not lower it. */
  lemma OneLimbEstimate(a: BigIntOpt, b: BigIntOpt)
    requires WellFormed(a) && WellFormed(b) && |a.digits| == 1 && |b.digits| == 1
    ensures EstimateQuotientDigit(a, b) == a.digits[0] / (b.digits[0] + 1)
    ensures EstimateQuotientDigit(a, b) * Val(b.digits, BASE) <= Val(a.digits, BASE)
  {
    var x, y := a.digits[0], b.digits[0];
    var q := x / (y + 1);
    QuotientAtMost(x, y + 1);
    assert EstimateQuotientDigit(a, b) == q by {
      assert TopTwo(a.digits) == x && TopTwo(b.digits) == y;
    }
    EstimateConservative(a, b);
  }

  /** divisor * bigint_opt(q) for a quotient limb q: one factor has a single
      limb, so the product never takes the Karatsuba path. */
  method ScaleByLimb(divisor: BigIntOpt, q: int) returns (product: BigIntOpt)
    requires Canonical(divisor) && !divisor.negative && 0 <= q < BASE
    ensures Canonical(product) && !product.negative
    ensures Value(product) == q * Value(divisor)
  {
    var f := FromInt(q);
    var m := Mul(divisor, f);
    product := m.value;
    Magnitude(product);
    Magnitude(divisor);
    NonNegativeProduct(q, Value(divisor));
  }

  lemma NonNegativeProduct(q: int, v: int)
    requires q >= 0 && v >= 0
    ensures q * v >= 0
  {
  }

  /** operator/: schoolbook division of the magnitudes (DivideMagnitudes),
      then the sign of the quotient is the XOR of the signs, and trim clears
      it for a zero quotient. The estimated quotient limbs can be too small
      and are never raised, so the result is a lower bound on the true
      quotient: it never overshoots. */
  method Div(x: BigIntOpt, y: BigIntOpt) returns (r: Result<BigIntOpt>)
    requires Canonical(x) && Canonical(y)
    ensures r.Failure? <==> Value(y) == 0
    ensures r.Failure? ==> r.error == DivisionByZero
    ensures r.Success? ==> Canonical(r.value)
    ensures r.Success? ==> Arith.Abs(Value(r.value)) * Arith.Abs(Value(y)) <= Arith.Abs(Value(x))
    ensures r.Success? && Value(r.value) != 0 ==> (Value(r.value) < 0 <==> (Value(x) < 0) != (Value(y) < 0))
    ensures r.Success? && Arith.Abs(Value(x)) < Arith.Abs(Value(y)) ==> Value(r.value) == 0
    ensures r.Success? && Arith.Abs(Value(x)) < BASE ==>
              Arith.Abs(Value(r.value)) == Arith.Abs(Value(x)) / (Arith.Abs(Value(y)) + 1)
  {
    EqualMeaning(y, Zero());
    if Equal(y, Zero()) {
      return Failure(DivisionByZero);
    }
    var a := x.(negative := false);
    var b := y.(negative := false);
    AbsMeaning(x);
    AbsMeaning(y);
    LessMeaning(a, b);
    Magnitude(y);
    if Less(a, b) {
      SmallQuotient(Arith.Abs(Value(x)), Arith.Abs(Value(y)));
      var z := FromInt(0);
      return Success(z);
    }
    var quotient := DivideMagnitudes(a, b);
    var result := Trim(BigIntOpt(quotient, x.negative != y.negative));
    DivisionDone(x, y, quotient, result);
    assert Arith.Abs(Value(x)) < BASE ==>
             Arith.Abs(Value(result)) == Arith.Abs(Value(x)) / (Arith.Abs(Value(y)) + 1) by {
      if Arith.Abs(Value(x)) < BASE {
        OneLimbDividend(x, y, quotient, result);
      }
    }
    return Success(result);
  }

  /** The limb loop of operator/ on magnitudes a >= b > 0: the divisor starts
      as b shifted up to a's top limb; at each position the estimated limb
      is lowered while its multiple of the divisor exceeds what is left of
      a, that multiple is subtracted, and the divisor drops its lowest limb. */
  method DivideMagnitudes(a0: BigIntOpt, b: BigIntOpt) returns (quotient: seq<int>)
    requires Canonical(a0) && !a0.negative && Canonical(b) && !b.negative && Value(b) > 0
    requires |b.digits| <= |a0.digits|
    ensures |quotient| >= 1 && IsLimbs(quotient, BASE)
    ensures Val(quotient, BASE) * Value(b) <= Value(a0)
    ensures |a0.digits| == 1 ==> quotient == [a0.digits[0] / (b.digits[0] + 1)]
  {
    var a := a0;
    var shift := |a.digits| - |b.digits|;
    quotient := Zeros(shift + 1);
    var divisor := BigIntOpt(Zeros(shift) + b.digits, false);
    DivisionStart(a, b, shift);
    var i := shift;
    while i >= 0
      invariant DivisionState(Value(a0), b, a, divisor, quotient, i)
      invariant |a0.digits| == 1 ==> |quotient| == 1 && divisor == b
      invariant |a0.digits| == 1 && i == 0 ==> a == a0
      invariant |a0.digits| == 1 && i == -1 ==> quotient == [a0.digits[0] / (b.digits[0] + 1)]
      decreases i
    {
      var q := EstimateQuotientDigit(a, divisor);
      if |a0.digits| == 1 {
        OneLimbEstimate(a, divisor);
      }
      var product := ScaleByLimb(divisor, q);
      while Greater(product, a)
        invariant 0 <= q < BASE && Canonical(product) && !product.negative
        invariant Value(product) == q * Value(divisor)
        invariant |a0.digits| == 1 ==> q == a0.digits[0] / (b.digits[0] + 1)
        decreases q
      {
        ComparisonMeaning(product, a);
        if |a0.digits| == 1 {
          OneLimbEstimate(a, divisor);
        }
        PositiveFactor(q, Value(divisor), Value(a));
        q := q - 1;
        product := ScaleByLimb(divisor, q);
      }
      ComparisonMeaning(product, a);
      var rest := Sub(a, product);
      DivisionStep(Value(a0), b, a, divisor, quotient, i, q, product, rest);
      quotient := quotient[i := q];
      a := rest;
      if i > 0 {
        divisor := BigIntOpt(divisor.digits[1..], false);
      }
      i := i - 1;
    }
    DivisionEnd(Value(a0), b, a, divisor, quotient);
  }

  /** The state of the division loop at position i: the divisor is b shifted
      by i limbs, quotient limbs above i are placed and those at or below i
      are still zero, and the dividend equals what is left plus b times the
      quotient so far. */
  ghost predicate DivisionState(vx: int, b: BigIntOpt, a: BigIntOpt, divisor: BigIntOpt, quotient: seq<int>, i: int)
  {
    Canonical(b) && !b.negative && Value(b) > 0 &&
    Canonical(a) && !a.negative && Value(a) >= 0 &&
    -1 <= i < |quotient| && |quotient| >= 1 && IsLimbs(quotient, BASE) &&
    (forall j | 0 <= j <= i :: quotient[j] == 0) &&
    divisor == BigIntOpt(Zeros(if i > 0 then i else 0) + b.digits, false) &&
    Canonical(divisor) && !divisor.negative && Value(divisor) > 0 &&
    Value(divisor) == Power(BASE, if i > 0 then i else 0) * Value(b) &&
    vx == Value(a) + Value(b) * Val(quotient, BASE)
  }

  lemma DivisionStart(a: BigIntOpt, b: BigIntOpt, shift: nat)
    requires Canonical(a) && !a.negative && Canonical(b) && !b.negative && Value(b) > 0
    ensures Value(a) >= 0
    ensures DivisionState(Value(a), b, a, BigIntOpt(Zeros(shift) + b.digits, false), Zeros(shift + 1), shift)
  {
    ValOfZeros(shift + 1, BASE);
    ShiftedDivisor(b, shift);
    Magnitude(a);
  }

  /** b shifted by k zero limbs is canonical and worth BASE^k * b. */
  lemma ShiftedDivisor(b: BigIntOpt, k: nat)
    requires Canonical(b) && !b.negative && Value(b) > 0
    ensures Canonical(BigIntOpt(Zeros(k) + b.digits, false))
    ensures Value(BigIntOpt(Zeros(k) + b.digits, false)) == Power(BASE, k) * Value(b) > 0
  {
    var d := Zeros(k) + b.digits;
    assert b.digits != [0] by {
      Magnitude(b);
    }
    assert Trimmed(d) by {
      assert d[|d| - 1] == b.digits[|b.digits| - 1];
      if k == 0 {
        assert d == b.digits;
      }
    }
    assert IsLimbs(d, BASE);
    assert Value(BigIntOpt(d, false)) == Power(BASE, k) * Value(b) by {
      ValShifted(k, b.digits, BASE);
    }
    assert Power(BASE, k) * Value(b) > 0 by {
      PowerPositive(BASE, k);
      PositiveProduct(Power(BASE, k), Value(b));
    }
  }

  lemma PositiveProduct(p: int, v: int)
    requires p > 0 && v > 0
    ensures p * v > 0
  {
  }

  /** Erasing the lowest limb of the divisor at position i > 0 gives the
      divisor for position i - 1. */
  lemma DivisorShift(b: BigIntOpt, i: int)
    requires Canonical(b) && !b.negative && Value(b) > 0 && i > 0
    ensures (Zeros(i) + b.digits)[1..] == Zeros(i - 1) + b.digits
  {
    assert (Zeros(i) + b.digits)[1..] == Zeros(i - 1) + b.digits;
  }

  /** A multiple of a non-negative number that exceeds a non-negative
      number has a positive factor. */
  lemma PositiveFactor(q: int, v: int, a: int)
    requires q >= 0 && v >= 0 && a >= 0 && q * v > a
    ensures q > 0
  {
  }

  lemma DivisionStep(vx: int, b: BigIntOpt, a: BigIntOpt, divisor: BigIntOpt, quotient: seq<int>, i: int,
                     q: int, product: BigIntOpt, rest: BigIntOpt)
    requires DivisionState(vx, b, a, divisor, quotient, i) && i >= 0
    requires 0 <= q < BASE && Canonical(product) && Value(product) == q * Value(divisor)
    requires Value(product) <= Value(a)
    requires Canonical(rest) && Value(rest) == Value(a) - Value(product)
    ensures DivisionState(vx, b, rest, if i > 0 then divisor.(digits := divisor.digits[1..]) else divisor,
                          quotient[i := q], i - 1)
  {
    Magnitude(rest);
    ghost var p := Power(BASE, i);
    assert Value(divisor) == p * Value(b);
    var placed := quotient[i := q];
    QuotientUpdate(quotient, i, q, placed);
    DivisionAlgebra(vx, Value(a), Value(b), Val(quotient, BASE), q, p, Value(product), Value(rest),
                    Val(placed, BASE));
    var next := NextDivisor(b, divisor, i);
  }

  /** The divisor for the next quotient limb: one zero limb fewer below b,
      or the same divisor once the last limb is reached. */
  lemma NextDivisor(b: BigIntOpt, divisor: BigIntOpt, i: int) returns (next: BigIntOpt)
    requires Canonical(b) && !b.negative && Value(b) > 0 && i >= 0
    requires divisor == BigIntOpt(Zeros(i) + b.digits, false)
    requires Canonical(divisor) && !divisor.negative && Value(divisor) > 0
    requires Value(divisor) == Power(BASE, i) * Value(b)
    ensures next == if i > 0 then divisor.(digits := divisor.digits[1..]) else divisor
    ensures next == BigIntOpt(Zeros(if i - 1 > 0 then i - 1 else 0) + b.digits, false)
    ensures Canonical(next) && !next.negative && Value(next) > 0
    ensures Value(next) == Power(BASE, if i - 1 > 0 then i - 1 else 0) * Value(b)
  {
    next := if i > 0 then divisor.(digits := divisor.digits[1..]) else divisor;
    if i > 0 {
      DivisorShift(b, i);
      ShiftedDivisor(b, i - 1);
    }
  }


  /** Placing quotient limb q at a zero position i. */
  lemma QuotientUpdate(quotient: seq<int>, i: int, q: int, placed: seq<int>)
    requires IsLimbs(quotient, BASE) && 0 <= i < |quotient| && 0 <= q < BASE
    requires forall j | 0 <= j <= i :: quotient[j] == 0
    requires placed == quotient[i := q]
    ensures IsLimbs(placed, BASE)
    ensures forall j | 0 <= j <= i - 1 :: placed[j] == 0
    ensures Val(placed, BASE) == Val(quotient, BASE) + q * Power(BASE, i)
  {
    assert quotient[i] == 0;
    ValUpdate(quotient, i, q, BASE);
  }

  lemma DivisionAlgebra(vx: int, va: int, vb: int, vq: int, q: int, p: int, product: int, rest: int, vq': int)
    requires vx == va + vb * vq && product == q * (p * vb) && rest == va - product && vq' == vq + q * p
    ensures vx == rest + vb * vq'
  {
    assert vb * vq' == vb * vq + vb * (q * p);
    assert q * (p * vb) == vb * (q * p);
  }

  lemma DivisionEnd(vx: int, b: BigIntOpt, a: BigIntOpt, divisor: BigIntOpt, quotient: seq<int>)
    requires DivisionState(vx, b, a, divisor, quotient, -1)
    ensures |quotient| >= 1 && IsLimbs(quotient, BASE)
    ensures Val(quotient, BASE) * Value(b) <= vx
  {
    ghost var va, vb, vq := Value(a), Value(b), Val(quotient, BASE);
    assert vx == va + vb * vq && va >= 0;
    assert vq * vb == vb * vq;
  }

  lemma DivisionDone(x: BigIntOpt, y: BigIntOpt, quotient: seq<int>, result: BigIntOpt)
    requires Canonical(x) && Canonical(y) && Value(y) != 0 && IsLimbs(quotient, BASE)
    requires Val(quotient, BASE) * Arith.Abs(Value(y)) <= Arith.Abs(Value(x))
    requires Value(result) == Value(BigIntOpt(quotient, x.negative != y.negative))
    ensures Arith.Abs(Value(result)) * Arith.Abs(Value(y)) <= Arith.Abs(Value(x))
    ensures Value(result) != 0 ==> (Value(result) < 0 <==> (Value(x) < 0) != (Value(y) < 0))
  {
    Magnitude(x);
    Magnitude(y);
    ValBounds(quotient, BASE);
    assert Arith.Abs(Value(result)) == Val(quotient, BASE);
  }

  lemma SmallQuotient(a: int, b: int)
    requires 0 <= a < b
    ensures a / (b + 1) == 0
  {
  }

  /** A dividend below BASE has one limb, and so has every divisor not
      above it: the quotient is the dividend over one more than the divisor. */
  lemma OneLimbDividend(x: BigIntOpt, y: BigIntOpt, quotient: seq<int>, result: BigIntOpt)
    requires Canonical(x) && Canonical(y) && Value(y) != 0 && Arith.Abs(Value(y)) <= Arith.Abs(Value(x)) < BASE
    requires |x.digits| == 1 ==> quotient == [x.digits[0] / (y.digits[0] + 1)]
    requires Value(result) == Value(BigIntOpt(quotient, x.negative != y.negative))
    ensures Arith.Abs(Value(result)) == Arith.Abs(Value(x)) / (Arith.Abs(Value(y)) + 1)
  {
    Magnitude(x);
    Magnitude(y);
    assert Power(BASE, 1) == BASE;
    TrimmedLength(x.digits, 1, BASE);
    TrimmedLength(y.digits, 1, BASE);
    assert Val(quotient, BASE) == x.digits[0] / (y.digits[0] + 1);
  }

  /** operator%: x - (x / y) * y, plus y when that is negative. The quotient
      is the lower bound operator/ computes, so the remainder is only known
      to differ from x by a multiple of y; for x >= 0 it stays in [0, x]. */
  method Mod(x: BigIntOpt, y: BigIntOpt) returns (r: Result<BigIntOpt>)
    requires Canonical(x) && Canonical(y)
    ensures (r.Failure? && r.error == ModuloByZero) <==> Value(y) == 0
    ensures r.Failure? ==> r.error == ModuloByZero || r.error == KaratsubaFault
    ensures Value(y) != 0 && |y.digits| <= KARATSUBA_THRESHOLD ==> r.Success?
    ensures r.Success? ==> Canonical(r.value) && (Value(r.value) - Value(x)) % Arith.Abs(Value(y)) == 0
    ensures r.Success? && Value(x) >= 0 ==> 0 <= Value(r.value) <= Value(x)
  {
    EqualMeaning(y, Zero());
    if Equal(y, Zero()) {
      return Failure(ModuloByZero);
    }
    var quotient := Div(x, y);
    var product := Mul(quotient.value, y);
    if product.Failure? {
      return Failure(product.error);
    }
    var result := Sub(x, product.value);
    ghost var difference := Value(result);
    Magnitude(result);
    if result.negative {
      result := Add(result, y);
    }
    RemainderFacts(Value(x), Value(y), Value(quotient.value), difference, Value(result));
    return Success(result);
  }

  /** A multiple of y leaves no remainder modulo |y|. */
  lemma MultipleOfDivisor(k: int, y: int)
    requires y != 0
    ensures (k * y) % Arith.Abs(y) == 0
  {
    if y > 0 {
      DivisionUnique(k * y, y, k, 0);
    } else {
      assert k * y == (-k) * Arith.Abs(y);
      DivisionUnique(k * y, Arith.Abs(y), -k, 0);
    }
  }

  /** What operator% keeps of the quotient operator/ returns: the remainder
      differs from x by a multiple of y, and for x >= 0 it stays in [0, x]. */
  lemma RemainderFacts(x: int, y: int, q: int, difference: int, r: int)
    requires y != 0 && Arith.Abs(q) * Arith.Abs(y) <= Arith.Abs(x)
    requires q != 0 ==> (q < 0 <==> (x < 0) != (y < 0))
    requires difference == x - q * y
    requires r == if difference < 0 then difference + y else difference
    ensures (r - x) % Arith.Abs(y) == 0
    ensures x >= 0 ==> 0 <= r <= x
  {
    if difference < 0 {
      assert r - x == (1 - q) * y;
      MultipleOfDivisor(1 - q, y);
    } else {
      assert r - x == (-q) * y;
      MultipleOfDivisor(-q, y);
    }
    if x >= 0 {
      RemainderOfNonNegative(x, y, q);
    }
  }

  /** For x >= 0 the quotient has the sign of y and |q * y| <= x, so
      x - q * y lies in [0, x]. */
  lemma RemainderOfNonNegative(x: int, y: int, q: int)
    requires x >= 0 && y != 0
    requires Arith.Abs(q) * Arith.Abs(y) <= x
    requires q != 0 ==> (q < 0 <==> y < 0)
    ensures 0 <= x - q * y <= x
  {
    if q != 0 {
      assert q * y == Arith.Abs(q) * Arith.Abs(y);
    }
  }

  /** pow: throws on a negative exponent, 1 for exponent 0, and otherwise
      square-and-multiply over the bits of the exponent; the base is squared
      after every bit, the last one included. Any of those products can
      fail on the Karatsuba path. */
  method Pow(x: BigIntOpt, exponent: int) returns (r: Result<BigIntOpt>)
    requires Canonical(x)
    ensures (r.Failure? && r.error == NegativeExponent) <==> exponent < 0
    ensures r.Failure? ==> r.error == NegativeExponent || r.error == KaratsubaFault
    ensures r.Success? ==> exponent >= 0 && Canonical(r.value) && Value(r.value) == Power(Value(x), exponent)
  {
    if exponent < 0 {
      return Failure(NegativeExponent);
    }
    var result := FromInt(1);
    if exponent == 0 {
      return Success(result);
    }
    var b := x;
    var e := exponent;
    while e > 0
      invariant e >= 0 && Canonical(result) && Canonical(b)
      invariant Value(result) * Power(Value(b), e) == Power(Value(x), exponent)
    {
      PowerHalve(Value(b), e);
      AccumulatorStep(Value(result), Value(b), Power(Value(b), e), Power(Value(b) * Value(b), e / 2), e % 2 == 1);
      if e % 2 == 1 {
        var m := Mul(result, b);
        if m.Failure? {
          return Failure(m.error);
        }
        result := m.value;
      }
      var sq := Mul(b, b);
      if sq.Failure? {
        return Failure(sq.error);
      }
      b := sq.value;
      e := e / 2;
    }
    return Success(result);
  }

  // ---------------------------------------------------------------------------
  // Shifts

  /** operator<<: multiplies by bigint_opt(2) shift times; a negative shift
      is handed to >> with -shift (shift == INT_MIN would overflow that
      negation). */
  method Shl(x: BigIntOpt, shift: int) returns (r: BigIntOpt)
    requires Canonical(x) && INT_MIN < shift <= INT_MAX
    ensures Canonical(r)
    ensures shift >= 0 ==> Value(r) == Value(x) * Power(2, shift)
    ensures shift < 0 ==> Arith.Abs(Value(r)) * Power(2, -shift) <= Arith.Abs(Value(x))
    ensures Value(r) != 0 ==> (Value(r) < 0 <==> Value(x) < 0)
    decreases if shift < 0 then 1 else 0
  {
    if shift < 0 {
      r := Shr(x, -shift);
      return;
    }
    r := x;
    var two := FromInt(2);
    for i := 0 to shift
      invariant Canonical(r) && Value(r) == Value(x) * Power(2, i)
    {
      var m := Mul(r, two);
      r := m.value;
      DoublingStep(Value(x), Power(2, i));
    }
    PowerPositive(2, shift);
    ScaledSign(Value(x), Power(2, shift));
  }

  /** operator>>: divides by bigint_opt(2) shift times; a negative shift is
      handed to << with -shift. Each division is the lower bound operator/
      computes, so the result is only known not to exceed |x| / 2^shift in
      magnitude and to keep the sign of x. */
  method Shr(x: BigIntOpt, shift: int) returns (r: BigIntOpt)
    requires Canonical(x) && INT_MIN < shift <= INT_MAX
    ensures Canonical(r)
    ensures shift >= 0 ==> Arith.Abs(Value(r)) * Power(2, shift) <= Arith.Abs(Value(x))
    ensures shift < 0 ==> Value(r) == Value(x) * Power(2, -shift)
    ensures Value(r) != 0 ==> (Value(r) < 0 <==> Value(x) < 0)
    ensures shift >= 0 && Arith.Abs(Value(x)) < BASE ==> Arith.Abs(Value(r)) == Thirds(Arith.Abs(Value(x)), shift)
    decreases if shift < 0 then 1 else 0
  {
    if shift < 0 {
      r := Shl(x, -shift);
      return;
    }
    r := x;
    var two := FromInt(2);
    for i := 0 to shift
      invariant Canonical(r) && Arith.Abs(Value(r)) * Power(2, i) <= Arith.Abs(Value(x))
      invariant Value(r) != 0 ==> (Value(r) < 0 <==> Value(x) < 0)
      invariant Arith.Abs(Value(x)) < BASE ==> Arith.Abs(Value(r)) == Thirds(Arith.Abs(Value(x)), i)
    {
      var d := Div(r, two);
      PowerPositive(2, i);
      HalvingStep(Arith.Abs(Value(d.value)), Arith.Abs(Value(r)), Power(2, i), Arith.Abs(Value(x)));
      r := d.value;
    }
  }

  /** v divided by 3, k times over: what k one-limb divisions by
      bigint_opt(2) leave of v, since each divides by 2 + 1. */
  function Thirds(v: nat, k: nat): nat {
    if k == 0 then v else Thirds(v, k - 1) / 3
  }

  /** k divisions by 3 are one division by 3^k: on a dividend below BASE,
      x >> k is |x| / 3^k in magnitude, not |x| / 2^k. */
  lemma {:induction false} ThirdsQuotient(v: nat, k: nat)
    ensures Power(3, k) > 0
    ensures Thirds(v, k) == v / Power(3, k)
  {
    PowerPositive(3, k);
    if k > 0 {
      ThirdsQuotient(v, k - 1);
      NestedQuotient(v, Power(3, k - 1));
    }
  }

  /** The demo of test_high_precision_digit.cpp: 123 << 3 is 984, as it
      asserts, while 123 >> 2, which it only prints, is 13 and not 30,
      because each division by 2 divides by 3. */
  method ShiftExamples() returns (left: BigIntOpt, right: BigIntOpt)
    ensures Value(left) == 984
    ensures Value(right) == 13
  {
    var x := FromInt(123);
    left := Shl(x, 3);
    right := Shr(x, 2);
    assert Thirds(123, 2) == 13;
  }

  /** bigint_opt(5) / bigint_opt(1) is 2: the one-limb estimate 5 / (1 + 1)
      is never raised. */
  method DivisionExample() returns (r: Result<BigIntOpt>)
    ensures r.Success? && Value(r.value) == 2
  {
    var five := FromInt(5);
    var one := FromInt(1);
    r := Div(five, one);
  }

  lemma DoublingStep(v: int, p: int)
    ensures v * p * 2 == v * (2 * p)
  {
  }

  /** A non-zero multiple of v by a positive factor has the sign of v. */
  lemma ScaledSign(v: int, p: int)
    requires p > 0
    ensures v * p != 0 ==> (v * p < 0 <==> v < 0)
  {
    if v < 0 {
      assert v * p == -((-v) * p);
    }
  }

  lemma HalvingStep(h: int, a: int, p: int, bound: int)
    requires 0 <= h && h * 2 <= a && 0 < p && a * p <= bound
    ensures h * (2 * p) <= bound
  {
    assert h * (2 * p) == (h * 2) * p;
    assert (h * 2) * p <= a * p;
  }

  // ---------------------------------------------------------------------------
  // sqrt

  /** sqrt: throws on negatives, returns 0 and 1 unchanged, and otherwise
      binary-searches [1, n]. The midpoint comes from operator/, which can
      fall below left, and then the search stops making progress; fuel
      bounds the number of rounds. Wherever the midpoint falls, a returned
      value is the integer square root: candidates square to at most n, and
      n stays below (right + 1)². */
  method Sqrt(n: BigIntOpt, fuel: nat) returns (r: Result<BigIntOpt>)
    requires Canonical(n)
    ensures (r.Failure? && r.error == NegativeOperand) <==> Value(n) < 0
    ensures r.Failure? ==> r.error == NegativeOperand || r.error == OutOfFuel || r.error == KaratsubaFault
    ensures r.Success? ==> Canonical(r.value) && IsSquareRoot(Value(r.value), Value(n))
    ensures r.Success? && Value(n) <= 1 ==> r.value == n
  {
    Magnitude(n);
    if n.negative {
      return Failure(NegativeOperand);
    }
    var zero := FromInt(0);
    var one := FromInt(1);
    EqualMeaning(n, zero);
    EqualMeaning(n, one);
    if Equal(n, zero) || Equal(n, one) {
      return Success(n);
    }
    var left := FromInt(1);
    var right := n;
    var result := FromInt(1);
    var two := FromInt(2);
    var steps := fuel;
    LooseSqrtStart(Value(n));
    while LessEq(left, right)
      invariant Canonical(left) && Canonical(right) && Canonical(result)
      invariant LooseSqrtSearch(Value(n), Value(left), Value(right), Value(result))
      decreases steps
    {
      if steps == 0 {
        return Failure(OutOfFuel);
      }
      steps := steps - 1;
      ComparisonMeaning(left, right);
      var sum := Add(left, right);
      var half := Div(sum, two);
      var mid := half.value;
      Magnitude(mid);
      var square := Mul(mid, mid);
      if square.Failure? {
        return Failure(square.error);
      }
      ComparisonMeaning(square.value, n);
      if Equal(square.value, n) {
        SqrtExact(Value(mid), Value(n));
        return Success(mid);
      }
      if Less(square.value, n) {
        LooseSqrtLow(Value(n), Value(left), Value(right), Value(result), Value(mid));
        left := Add(mid, one);
        result := mid;
      } else {
        LooseSqrtHigh(Value(n), Value(left), Value(right), Value(result), Value(mid));
        right := Sub(mid, one);
      }
    }
    ComparisonMeaning(left, right);
    LooseSqrtEnd(Value(n), Value(left), Value(right), Value(result));
    return Success(result);
  }

  // ---------------------------------------------------------------------------
  // Arithmetic with long long operands: each converts n with bigint_opt(n)
  // and applies the bigint_opt operator, on the left or on the right. A long
  // long takes at most three limbs, so products never reach Karatsuba.

  method AddInt(a: BigIntOpt, n: int) returns (r: BigIntOpt)
    requires Canonical(a) && LLONG_MIN < n <= LLONG_MAX
    ensures Canonical(r) && Value(r) == Value(a) + n
  {
    var b := FromInt(n);
    r := Add(a, b);
  }

  method SubInt(a: BigIntOpt, n: int) returns (r: BigIntOpt)
    requires Canonical(a) && LLONG_MIN < n <= LLONG_MAX
    ensures Canonical(r) && Value(r) == Value(a) - n
  {
    var b := FromInt(n);
    r := Sub(a, b);
  }

  method MulInt(a: BigIntOpt, n: int) returns (r: Result<BigIntOpt>)
    requires Canonical(a) && LLONG_MIN < n <= LLONG_MAX
    ensures r.Success? && Canonical(r.value) && Value(r.value) == Value(a) * n
  {
    var b := FromInt(n);
    r := Mul(a, b);
  }

  method DivInt(a: BigIntOpt, n: int) returns (r: Result<BigIntOpt>)
    requires Canonical(a) && LLONG_MIN < n <= LLONG_MAX
    ensures r.Failure? <==> n == 0
    ensures r.Failure? ==> r.error == DivisionByZero
    ensures r.Success? ==> Canonical(r.value) && Arith.Abs(Value(r.value)) * Arith.Abs(n) <= Arith.Abs(Value(a))
    ensures r.Success? && Value(r.value) != 0 ==> (Value(r.value) < 0 <==> (Value(a) < 0) != (n < 0))
  {
    var b := FromInt(n);
    r := Div(a, b);
  }

  method ModInt(a: BigIntOpt, n: int) returns (r: Result<BigIntOpt>)
    requires Canonical(a) && LLONG_MIN < n <= LLONG_MAX
    ensures r.Failure? <==> n == 0
    ensures r.Failure? ==> r.error == ModuloByZero
    ensures r.Success? ==> Canonical(r.value) && (Value(r.value) - Value(a)) % Arith.Abs(n) == 0
    ensures r.Success? && Value(a) >= 0 ==> 0 <= Value(r.value) <= Value(a)
  {
    var b := FromInt(n);
    r := Mod(a, b);
  }

  method IntAdd(n: int, b: BigIntOpt) returns (r: BigIntOpt)
    requires LLONG_MIN < n <= LLONG_MAX && Canonical(b)
    ensures Canonical(r) && Value(r) == n + Value(b)
  {
    var a := FromInt(n);
    r := Add(a, b);
  }

  method IntSub(n: int, b: BigIntOpt) returns (r: BigIntOpt)
    requires LLONG_MIN < n <= LLONG_MAX && Canonical(b)
    ensures Canonical(r) && Value(r) == n - Value(b)
  {
    var a := FromInt(n);
    r := Sub(a, b);
  }

  method IntMul(n: int, b: BigIntOpt) returns (r: Result<BigIntOpt>)
    requires LLONG_MIN < n <= LLONG_MAX && Canonical(b)
    ensures r.Success? && Canonical(r.value) && Value(r.value) == n * Value(b)
  {
    var a := FromInt(n);
    r := Mul(a, b);
  }

  method IntDiv(n: int, b: BigIntOpt) returns (r: Result<BigIntOpt>)
    requires LLONG_MIN < n <= LLONG_MAX && Canonical(b)
    ensures r.Failure? <==> Value(b) == 0
    ensures r.Failure? ==> r.error == DivisionByZero
    ensures r.Success? ==> Canonical(r.value) && Arith.Abs(Value(r.value)) * Arith.Abs(Value(b)) <= Arith.Abs(n)
    ensures r.Success? && Value(r.value) != 0 ==> (Value(r.value) < 0 <==> (n < 0) != (Value(b) < 0))
  {
    var a := FromInt(n);
    r := Div(a, b);
  }

  method IntMod(n: int, b: BigIntOpt) returns (r: Result<BigIntOpt>)
    requires LLONG_MIN < n <= LLONG_MAX && Canonical(b)
    ensures (r.Failure? && r.error == ModuloByZero) <==> Value(b) == 0
    ensures r.Failure? ==> r.error == ModuloByZero || r.error == KaratsubaFault
    ensures r.Success? ==> Canonical(r.value) && (Value(r.value) - n) % Arith.Abs(Value(b)) == 0
    ensures r.Success? && n >= 0 ==> 0 <= Value(r.value) <= n
  {
    var a := FromInt(n);
    r := Mod(a, b);
  }
}
