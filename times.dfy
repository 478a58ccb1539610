/** The Duration class of times.hpp: a span of milliseconds, its split into
    hours, minutes, seconds and milliseconds with C++'s truncating division,
    and a small formatter that expands %H, %M, %S and %ms. Every member is
    const, so Duration is a value here. */
module Times {
  import opened Wrappers
  import opened Arith
  import opened Decimal

  const MS_PER_SECOND: int := 1000
  const MS_PER_MINUTE: int := 1000 * 60
  const MS_PER_HOUR: int := 1000 * 3600

  /** Duration(long long ms = 0). */
  datatype Duration = Duration(ms: int)

  /** hours(): ms / 3600000. */
  function Hours(d: Duration): int {
    TruncDiv(d.ms, MS_PER_HOUR)
  }

  /** minutes(): ms / 60000 % 60. */
  function Minutes(d: Duration): int {
    TruncRem(TruncDiv(d.ms, MS_PER_MINUTE), 60)
  }

  /** seconds(): ms / 1000 % 60. */
  function Seconds(d: Duration): int {
    TruncRem(TruncDiv(d.ms, MS_PER_SECOND), 60)
  }

  /** milliseconds(): ms % 1000. */
  function Milliseconds(d: Duration): int {
    TruncRem(d.ms, MS_PER_SECOND)
  }

  /** The four parts add back up to the span, and for a non-negative span
      they are the usual clock fields; a negative span gives the negated
      fields of its magnitude. */
  lemma Decompose(d: Duration)
    ensures Hours(d) * MS_PER_HOUR + Minutes(d) * MS_PER_MINUTE + Seconds(d) * MS_PER_SECOND + Milliseconds(d) == d.ms
    ensures d.ms >= 0 ==> Hours(d) >= 0 && 0 <= Minutes(d) < 60 && 0 <= Seconds(d) < 60 && 0 <= Milliseconds(d) < 1000
    ensures d.ms < 0 ==> Hours(d) <= 0 && -60 < Minutes(d) <= 0 && -60 < Seconds(d) <= 0 && -1000 < Milliseconds(d) <= 0
  {
    if d.ms >= 0 {
      DecomposeNonNegative(d.ms);
    } else {
      var e := Duration(-d.ms);
      DecomposeNonNegative(-d.ms);
      TruncNegate(d.ms, MS_PER_HOUR);
      TruncNegate(d.ms, MS_PER_MINUTE);
      TruncNegate(d.ms, MS_PER_SECOND);
      TruncNegate(TruncDiv(d.ms, MS_PER_MINUTE), 60);
      TruncNegate(TruncDiv(d.ms, MS_PER_SECOND), 60);
      assert Hours(d) == -Hours(e) && Minutes(d) == -Minutes(e);
      assert Seconds(d) == -Seconds(e) && Milliseconds(d) == -Milliseconds(e);
    }
  }

  /** Negating the dividend negates C++'s quotient and remainder. */
  lemma TruncNegate(x: int, b: int)
    requires b > 0
    ensures TruncDiv(x, b) == -TruncDiv(-x, b)
    ensures TruncRem(x, b) == -TruncRem(-x, b)
  {
    var t := TruncDiv(-x, b);
    if x >= 0 {
      assert Abs(x) == x && Abs(-x) == x && Abs(b) == b;
      assert TruncDiv(x, b) == x / b;
      assert t == -(x / b) || x == 0;
    } else {
      assert Abs(x) == -x && Abs(-x) == -x && Abs(b) == b;
      assert t == (-x) / b;
    }
    assert TruncDiv(x, b) == -t;
    assert TruncDiv(x, b) * b == -(t * b);
  }

  lemma DecomposeNonNegative(ms: int)
    requires ms >= 0
    ensures var d := Duration(ms);
      Hours(d) * MS_PER_HOUR + Minutes(d) * MS_PER_MINUTE + Seconds(d) * MS_PER_SECOND + Milliseconds(d) == ms &&
      Hours(d) >= 0 && 0 <= Minutes(d) < 60 && 0 <= Seconds(d) < 60 && 0 <= Milliseconds(d) < 1000
  {
    var seconds := ms / 1000;
    var minutes := ms / 60000;
    var hours := ms / 3600000;
    TruncDivNonNegative(ms, MS_PER_HOUR);
    TruncDivNonNegative(ms, MS_PER_MINUTE);
    TruncDivNonNegative(ms, MS_PER_SECOND);
    TruncDivNonNegative(minutes, 60);
    TruncDivNonNegative(seconds, 60);
    NestedDivision(ms, 1000, 60);
    NestedDivision(ms, 60000, 60);
    DivModParts(ms, 1000);
    DivModParts(seconds, 60);
    DivModParts(minutes, 60);
    assert seconds / 60 == minutes && minutes / 60 == hours;
    assert ms == ((hours * 60 + minutes % 60) * 60 + seconds % 60) * 1000 + ms % 1000;
  }

  /** Dividing by a and then by b is dividing by a * b. */
  lemma NestedDivision(x: int, a: int, b: int)
    requires x >= 0 && a > 0 && b > 0
    ensures (x / a) / b == x / (a * b)
  {
    var q := x / a;
    DivModParts(x, a);
    DivModParts(q, b);
    NestedParts(x, a, b, q, x % a, q / b, q % b);
    DivisionUnique(x, a * b, q / b, (q % b) * a + x % a);
  }

  lemma NestedParts(x: int, a: int, b: int, q: int, r1: int, q2: int, r2: int)
    requires a > 0 && b > 0 && x == q * a + r1 && q == q2 * b + r2 && 0 <= r1 < a && 0 <= r2 < b
    ensures x == q2 * (a * b) + (r2 * a + r1) && 0 <= r2 * a + r1 < a * b
  {
    Distribute(q2 * b, r2, a);
    assert (q2 * b) * a == q2 * (a * b);
    assert r2 * a <= (b - 1) * a;
    Distribute(b, -1, a);
  }

  // ---------------------------------------------------------------------------
  // format

  /** The text format makes of fmt, read from position i on: "%H", "%M"
      and "%S" become the field zero-padded to two characters, "%ms" the
      milliseconds padded to three, "%m" without an 's' after it nothing,
      '%' before any other character both characters, and everything else,
      a final lone '%' included, itself. */
  function ExpandFrom(d: Duration, fmt: string, i: nat): string
    requires i <= |fmt|
    decreases |fmt| - i
  {
    if i == |fmt| then ""
    else if fmt[i] == '%' && i + 1 < |fmt| then
      if fmt[i + 1] == 'm' && i + 2 < |fmt| && fmt[i + 2] == 's' then
        FormatPadded(Milliseconds(d), 3) + ExpandFrom(d, fmt, i + 3)
      else DirectiveText(d, fmt[i + 1]) + ExpandFrom(d, fmt, i + 2)
    else [fmt[i]] + ExpandFrom(d, fmt, i + 1)
  }

  /** What format(fmt) returns. */
  function Expand(d: Duration, fmt: string): string {
    ExpandFrom(d, fmt, 0)
  }

  /** What '%' followed by c (other than "%ms") turns into. */
  function DirectiveText(d: Duration, c: char): string {
    if c == 'H' then FormatPadded(Hours(d), 2)
    else if c == 'M' then FormatPadded(Minutes(d), 2)
    else if c == 'S' then FormatPadded(Seconds(d), 2)
    else if c == 'm' then ""
    else ['%', c]
  }

  /** format(fmt): walks fmt with an index that also skips the character
      after a '%' (and the 's' of "%ms"), appending to the result. */
  method Format(d: Duration, fmt: string) returns (result: string)
    ensures result == Expand(d, fmt)
  {
    result := "";
    var i := 0;
    while i < |fmt|
      invariant 0 <= i <= |fmt|
      invariant result + ExpandFrom(d, fmt, i) == Expand(d, fmt)
    {
      if fmt[i] == '%' && i + 1 < |fmt| {
        var text, next := Directive(d, fmt, i);
        result := result + text;
        i := next;
      } else {
        result := result + [fmt[i]];
        i := i + 1;
      }
    }
  }

  /** The body of format's loop at a '%' that has a character after it:
      the text the directive makes and the index after it. */
  method Directive(d: Duration, fmt: string, i: nat) returns (text: string, next: nat)
    requires i + 1 < |fmt| && fmt[i] == '%'
    ensures i + 2 <= next <= |fmt|
    ensures text + ExpandFrom(d, fmt, next) == ExpandFrom(d, fmt, i)
  {
    var c := fmt[i + 1];
    next := i + 2;
    if c == 'H' {
      text := FormatPadded(Hours(d), 2);
    } else if c == 'M' {
      text := FormatPadded(Minutes(d), 2);
    } else if c == 'S' {
      text := FormatPadded(Seconds(d), 2);
    } else if c == 'm' {
      if i + 2 < |fmt| && fmt[i + 2] == 's' {
        text := FormatPadded(Milliseconds(d), 3);
        next := i + 3;
      } else {
        text := "";
      }
    } else {
      text := ['%', c];
    }
  }

  /** The format used when none is given. */
  const DEFAULT_FORMAT: string := "%H:%M:%S.%ms"

  /** Text without a '%' is copied unchanged in front of what follows it. */
  lemma ExpandPlain(d: Duration, plain: string, rest: string)
    requires forall k | 0 <= k < |plain| :: plain[k] != '%'
    ensures Expand(d, plain + rest) == plain + Expand(d, rest)
  {
    ExpandPlainFrom(d, plain, rest, 0);
    assert plain[0..] == plain;
  }

  lemma {:induction false} ExpandPlainFrom(d: Duration, plain: string, rest: string, i: nat)
    requires i <= |plain|
    requires forall k | 0 <= k < |plain| :: plain[k] != '%'
    ensures ExpandFrom(d, plain + rest, i) == plain[i..] + Expand(d, rest)
    decreases |plain| - i
  {
    var s := plain + rest;
    if i == |plain| {
      ShiftedExpand(d, plain, rest, 0);
    } else {
      assert s[i] == plain[i] && s[i] != '%';
      assert ExpandFrom(d, s, i) == [plain[i]] + ExpandFrom(d, s, i + 1);
      ExpandPlainFrom(d, plain, rest, i + 1);
      var tail := Expand(d, rest);
      assert plain[i..] == [plain[i]] + plain[i + 1..];
      assert [plain[i]] + (plain[i + 1..] + tail) == plain[i..] + tail;
    }
  }

  /** Expanding a suffix from its start is expanding the whole from the
      suffix's offset. */
  lemma {:induction false} ShiftedExpand(d: Duration, prefix: string, rest: string, j: nat)
    requires j <= |rest|
    ensures ExpandFrom(d, prefix + rest, |prefix| + j) == ExpandFrom(d, rest, j)
    decreases |rest| - j
  {
    var s := prefix + rest;
    var i := |prefix| + j;
    if j < |rest| {
      assert s[i] == rest[j];
      if i + 1 < |s| {
        assert s[i + 1] == rest[j + 1];
      }
      if i + 2 < |s| {
        assert s[i + 2] == rest[j + 2];
        ShiftedExpand(d, prefix, rest, j + 3);
      }
      if i + 1 < |s| {
        ShiftedExpand(d, prefix, rest, j + 2);
      }
      ShiftedExpand(d, prefix, rest, j + 1);
    }
  }

  /** A '%' that ends the format is copied; so is "%x" for any x that is
      not a directive, while "%m" not followed by 's' disappears. */
  lemma ExpandOddPercents(d: Duration, s: string, c: char)
    requires c != 'H' && c != 'M' && c != 'S' && c != 'm'
    requires forall k | 0 <= k < |s| :: s[k] != '%'
    ensures Expand(d, s + "%") == s + "%"
    ensures Expand(d, s + ['%', c]) == s + ['%', c]
    ensures Expand(d, s + "%m") == s
  {
    ExpandPlain(d, s, "%");
    ExpandPlain(d, s, ['%', c]);
    ExpandPlain(d, s, "%m");
    assert ExpandFrom(d, "%", 1) == "";
    assert ExpandFrom(d, ['%', c], 2) == "";
    assert ExpandFrom(d, "%m", 2) == "";
  }

  /** Each expansion reads back as the field's value and is at least as
      wide as its padding. */
  lemma DirectiveTextMeaning(d: Duration)
    ensures |FormatPadded(Hours(d), 2)| >= 2 && ParseInteger(FormatPadded(Hours(d), 2)) == Success(Hours(d))
    ensures |FormatPadded(Minutes(d), 2)| >= 2 && ParseInteger(FormatPadded(Minutes(d), 2)) == Success(Minutes(d))
    ensures |FormatPadded(Seconds(d), 2)| >= 2 && ParseInteger(FormatPadded(Seconds(d), 2)) == Success(Seconds(d))
    ensures |FormatPadded(Milliseconds(d), 3)| >= 3 && ParseInteger(FormatPadded(Milliseconds(d), 3)) == Success(Milliseconds(d))
  {
    FormatPaddedMeaning(Hours(d), 2);
    FormatPaddedMeaning(Minutes(d), 2);
    FormatPaddedMeaning(Seconds(d), 2);
    FormatPaddedMeaning(Milliseconds(d), 3);
  }

  /** The tail "%S.%m" of the default format on the same duration. */
  lemma ExampleSeconds()
    ensures ExpandFrom(Duration(3723004), DEFAULT_FORMAT, 6) == "03.004"
  {
    var d := Duration(3723004);
    var f := DEFAULT_FORMAT;
    ExampleFields();
    PaddedDigit(4, 3);
    assert ExpandFrom(d, f, 9) == "004";
    assert ExpandFrom(d, f, 8) == ".004";
    PaddedDigit(3, 2);
  }

  lemma ExampleFields()
    ensures var d := Duration(3723004);
      Hours(d) == 1 && Minutes(d) == 2 && Seconds(d) == 3 && Milliseconds(d) == 4
  {
    TruncDivNonNegative(3723004, MS_PER_HOUR);
    TruncDivNonNegative(3723004, MS_PER_MINUTE);
    TruncDivNonNegative(3723004, MS_PER_SECOND);
    TruncDivNonNegative(62, 60);
    TruncDivNonNegative(3723, 60);
  }

  /** One digit padded to two or three places. */
  lemma PaddedDigit(v: nat, width: nat)
    requires v < 10 && 1 <= width <= 3
    ensures FormatPadded(v, width) == seq(width - 1, _ => '0') + [DigitChar(v)]
  {
    assert NatToDecimal(v) == [DigitChar(v)];
  }

  /** Duration(3723004) in the default format is "01:02:03.004". */
  lemma DefaultFormatExample()
    ensures Expand(Duration(3723004), DEFAULT_FORMAT) == "01:02:03.004"
  {
    var d := Duration(3723004);
    var f := DEFAULT_FORMAT;
    ExampleFields();
    ExampleSeconds();
    assert ExpandFrom(d, f, 5) == ":03.004";
    PaddedDigit(2, 2);
    assert ExpandFrom(d, f, 3) == "02:03.004";
    assert ExpandFrom(d, f, 2) == ":02:03.004";
    PaddedDigit(1, 2);
  }
}
