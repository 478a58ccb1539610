/** Decimal text: digit strings, the integer syntax the big-integer string
    constructors accept, and zero-padded rendering of integers (the `%09d`
    of bigint_opt::to_string and the `{:02d}`/`{:03d}` of Duration::format). */
module Decimal {
  import opened Wrappers
  import opened Arith
  import opened Limbs

  predicate IsDigit(c: char) {
    '0' <= c <= '9'
  }

  predicate AllDigits(s: string) {
    forall i | 0 <= i < |s| :: IsDigit(s[i])
  }

  function DigitValue(c: char): int {
    c as int - '0' as int
  }

  function DigitChar(d: int): (c: char)
    requires 0 <= d < 10
    ensures IsDigit(c) && DigitValue(c) == d
  {
    ('0' as int + d) as char
  }

  /** The number a digit string denotes, most significant digit first. */
  function DecimalValue(s: string): nat
    requires AllDigits(s)
  {
    if |s| == 0 then 0 else 10 * DecimalValue(s[..|s| - 1]) + DigitValue(s[|s| - 1])
  }

  /** The integer a number string denotes: the empty string is 0, an optional
      '-' or '+' comes first, and everything after it must be a decimal digit. */
  function ParseInteger(s: string): Result<int> {
    if |s| == 0 then Success(0)
    else
      var body := if s[0] == '-' || s[0] == '+' then s[1..] else s;
      if !AllDigits(body) then Failure(InvalidArgument)
      else
        var n: int := DecimalValue(body);
        Success(if s[0] == '-' then -n else n)
  }

  /** A digit string parses to its value, and with a '-' in front to its negation. */
  lemma ParseRendered(t: string)
    requires AllDigits(t) && |t| >= 1
    ensures ParseInteger(t) == Success(DecimalValue(t))
    ensures var n: int := DecimalValue(t); ParseInteger("-" + t) == Success(-n)
  {
    ParseDigits(t);
    ParseNegated(t);
  }

  /** A digit string with an optional '-' in front parses to its signed
      value, and the sign is visible in the first character. */
  lemma SignedText(body: string, negative: bool)
    requires AllDigits(body) && |body| >= 1
    ensures var s := if negative then "-" + body else body;
      var n: int := DecimalValue(body);
      ParseInteger(s) == Success(if negative then -n else n) &&
      (s[0] == '-') == negative && (if negative then s[1..] else s) == body
  {
    if negative {
      ParseNegated(body);
      assert ("-" + body)[1..] == body;
    } else {
      ParseDigits(body);
      assert IsDigit(body[0]);
    }
  }

  lemma ParseDigits(t: string)
    requires AllDigits(t) && |t| >= 1
    ensures ParseInteger(t) == Success(DecimalValue(t))
  {
    assert IsDigit(t[0]);
  }

  lemma ParseNegated(t: string)
    requires AllDigits(t) && |t| >= 1
    ensures var n: int := DecimalValue(t); ParseInteger("-" + t) == Success(-n)
  {
    var u := "-" + t;
    assert u[0] == '-';
    assert u[1..] == t;
  }

  // ---------------------------------------------------------------------------
  // Digit strings

  lemma {:induction false} DecimalValueConcat(s: string, t: string)
    requires AllDigits(s) && AllDigits(t)
    ensures AllDigits(s + t)
    ensures DecimalValue(s + t) == DecimalValue(s) * Power(10, |t|) + DecimalValue(t)
  {
    if |t| > 0 {
      var t' := t[..|t| - 1];
      assert (s + t)[..|s + t| - 1] == s + t';
      assert (s + t)[|s + t| - 1] == t[|t| - 1];
      DecimalValueConcat(s, t');
      var a, b, p, dg := DecimalValue(s), DecimalValue(t'), Power(10, |t'|), DigitValue(t[|t| - 1]);
      assert DecimalValue(s + t) == 10 * DecimalValue(s + t') + dg;
      assert DecimalValue(t) == 10 * b + dg;
      assert Power(10, |t|) == 10 * p;
      ShiftDigit(a, b, p, dg);
    } else {
      assert s + t == s;
    }
  }

  /** Leading zeros do not change the value of a digit string. */
  lemma LeadingZeros(s: string, k: nat)
    requires AllDigits(s) && k <= |s|
    requires forall i | 0 <= i < k :: s[i] == '0'
    ensures AllDigits(s[k..]) && DecimalValue(s) == DecimalValue(s[k..])
  {
    var zeros, t := s[..k], s[k..];
    assert s == zeros + t;
    ZerosValue(zeros);
    DecimalValueConcat(zeros, t);
  }

  lemma ShiftDigit(a: int, b: int, p: int, dg: int)
    ensures 10 * (a * p + b) + dg == a * (10 * p) + (10 * b + dg)
  {
  }

  lemma {:induction false} ZerosValue(z: string)
    requires forall i | 0 <= i < |z| :: z[i] == '0'
    ensures AllDigits(z) && DecimalValue(z) == 0
  {
    if |z| > 0 {
      ZerosValue(z[..|z| - 1]);
    }
  }

  lemma {:induction false} DecimalValueBound(s: string)
    requires AllDigits(s)
    ensures DecimalValue(s) < Power(10, |s|)
  {
    if |s| > 0 {
      DecimalValueBound(s[..|s| - 1]);
    }
  }

  /** A digit string without a leading zero needs all its digits. */
  lemma {:induction false} DecimalValueLower(s: string)
    requires AllDigits(s) && |s| >= 1 && s[0] != '0'
    ensures DecimalValue(s) >= Power(10, |s| - 1)
  {
    if |s| > 1 {
      DecimalValueLower(s[..|s| - 1]);
    }
  }

  // ---------------------------------------------------------------------------
  // Rendering

  /** The shortest decimal text of n: "0" for zero, otherwise no leading zero. */
  function NatToDecimal(n: nat): string
    decreases n
  {
    if n < 10 then [DigitChar(n)] else NatToDecimal(n / 10) + [DigitChar(n % 10)]
  }

  lemma {:induction false} NatToDecimalMeaning(n: nat)
    ensures var s := NatToDecimal(n);
      AllDigits(s) && |s| >= 1 && DecimalValue(s) == n && (|s| > 1 ==> s[0] != '0')
  {
    var s := NatToDecimal(n);
    if n >= 10 {
      NatToDecimalMeaning(n / 10);
      var s' := NatToDecimal(n / 10);
      assert s[..|s| - 1] == s';
      if |s'| == 1 {
        assert DecimalValue(s') == DigitValue(s'[0]);
      }
    } else {
      assert DecimalValue(s) == 10 * DecimalValue(s[..0]) + DigitValue(s[0]);
    }
  }

  /** Left-pads s with '0' up to width characters. */
  function ZeroPad(s: string, width: nat): string {
    if |s| < width then seq(width - |s|, _ => '0') + s else s
  }

  lemma ZeroPadMeaning(s: string, width: nat)
    requires AllDigits(s)
    ensures var r := ZeroPad(s, width);
      AllDigits(r) && DecimalValue(r) == DecimalValue(s) &&
      |r| == (if |s| < width then width else |s|) && r[|r| - |s|..] == s
  {
    var r := ZeroPad(s, width);
    if |s| < width {
      LeadingZeros(r, width - |s|);
      assert r[width - |s|..] == s;
    }
  }

  /** std::format("{:0Nd}", v): a '-' for negatives, then the magnitude padded
      with zeros so that the whole text is at least `width` characters. */
  function FormatPadded(v: int, width: nat): string {
    if v < 0 then "-" + ZeroPad(NatToDecimal(-v), if width > 0 then width - 1 else 0)
    else ZeroPad(NatToDecimal(v), width)
  }

  /** Padding reaches the width and the text still denotes v. */
  lemma FormatPaddedMeaning(v: int, width: nat)
    ensures |FormatPadded(v, width)| >= width
    ensures ParseInteger(FormatPadded(v, width)) == Success(v)
  {
    var body := PaddedSplit(v, width);
    SignedText(body, v < 0);
  }

  /** FormatPadded's text is the sign followed by the padded magnitude. */
  lemma PaddedSplit(v: int, width: nat) returns (body: string)
    ensures FormatPadded(v, width) == if v < 0 then "-" + body else body
    ensures AllDigits(body) && |body| >= 1 && DecimalValue(body) == Abs(v)
    ensures |body| >= width - 1 && (v >= 0 ==> |body| >= width)
  {
    var w := if v < 0 && width > 0 then width - 1 else width;
    var digits := NatToDecimal(Abs(v));
    NatToDecimalMeaning(Abs(v));
    ZeroPadMeaning(digits, w);
    body := ZeroPad(digits, w);
  }

  /** Zeros skipped in front of a digit string change neither its being
      digits nor its value. */
  lemma SkippedZeros(s: string, bodyStart: nat, start: nat)
    requires bodyStart <= start <= |s| && AllDigits(s[start..])
    requires forall k | bodyStart <= k < start :: s[k] == '0'
    ensures AllDigits(s[bodyStart..]) && DecimalValue(s[bodyStart..]) == DecimalValue(s[start..])
  {
    assert AllDigits(s[bodyStart..]) by {
      forall k | 0 <= k < |s[bodyStart..]|
        ensures IsDigit(s[bodyStart..][k])
      {
        if bodyStart + k >= start {
          assert s[bodyStart..][k] == s[start..][bodyStart + k - start];
        }
      }
    }
    LeadingZeros(s[bodyStart..], start - bodyStart);
    assert s[bodyStart..][start - bodyStart..] == s[start..];
  }

  /** A non-digit after the skipped zeros makes the whole body invalid. */
  lemma StrayCharacter(s: string, bodyStart: nat, start: nat)
    requires bodyStart <= start <= |s|
    requires exists k :: start <= k < |s| && !IsDigit(s[k])
    ensures !AllDigits(s[bodyStart..])
  {
    var k :| start <= k < |s| && !IsDigit(s[k]);
    assert s[bodyStart..][k - bodyStart] == s[k];
  }
}
