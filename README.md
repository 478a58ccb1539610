# ikun core, modelled in Dafny

ikun is a C++ header library with a small command-line manager. This project
models its computational core and proves properties of that model:

- **Big integers** (`high_precision_digit.hpp`). `bigint` keeps one decimal
  digit per limb. `bigint_opt` keeps nine decimal digits per limb, in base
  10^9. Both store the least significant limb first, next to a sign flag.
  Their operators are `const` and return fresh values, so both classes are
  datatypes here, and each operator is a method that returns a new value.
  - Modules `Bigint` and `BigintOpt`. `Limbs` holds the shared limb theory:
    the value `Val`, comparison, and schoolbook add/subtract/multiply over
    any base.
  - `OptMultiply` holds `naive_multiply` and `karatsuba_multiply`.
  - `Decimal` holds digit strings and the parser's meaning, `ParseInteger`.
  - `BigMaths` holds `big_fac`, `big_pow` and their `_opt` versions.
- **Integer helpers** (`maths.hpp`, repeated in `functions/mathematics.hpp`),
  in module `Maths`:
  - the `Fac`/`Fib`/`Pow` templates, with `unsigned long long` wrap-around
    written out;
  - `fac`, `fib`, `is_prime`, `gcd` and `lcm`.
- **`Duration`** (`times.hpp`), in module `Times`: the split of a span of
  milliseconds with C++'s truncating `/` and `%`, and the `%H %M %S %ms`
  formatter.
- **Name rules** (`files.hpp`), in module `Files`:
  - the file- and directory-name validators;
  - `get_cppversion`;
  - the extension, matching and sorting rules of `filedir`.
- **The manager** (`ikun_core.cpp`), in module `IkunCore`: `main`'s walk over
  `argv`, `check_lib_install`, and the guard in `uninstall_lib`. Output,
  downloads and shell commands become entries of an action log. What the
  disk holds and which downloads fail are parameters.

Common conventions:

- A C++ `throw` becomes `Failure(kind)` of `Wrappers.Result`.
- C++ division and remainder truncate toward zero: `Arith.TruncDiv` and
  `Arith.TruncRem`. Dafny's own `/` and `%` are Euclidean.
- `bigint`'s `%` adds the divisor back when the remainder is negative:
  `Arith.AdjustedRem`.
- Integers are unbounded. A range of `int` or `long long` appears only where
  the source depends on it (template wrap-around, `std::abs` of `LLONG_MIN`,
  loop counters).

`bigint_opt` is experimental in the library, and three of its routines do not
always do what their names promise:

- `karatsuba_multiply` can write past its buffer and can leave limbs out of
  range. The model follows it step by step. It returns
  `Failure(KaratsubaFault)` at each point where the C++ goes wrong, and
  everywhere else proves the result is the exact product.
- `/` takes one conservative estimate per quotient limb and corrects it only
  downwards, so a limb can come out too small. The model proves only that the
  quotient never overshoots, |q|·|b| ≤ |a|, and that its sign is right.
- `sqrt` need not terminate, so it takes a fuel bound. Whatever it returns is
  still the integer square root, r·r ≤ n < (r+1)², because a candidate is taken
  only when its square is below n and right drops only below a square above n.

## Model

| member | source | states |
|---|---|---|
| Arith.TruncDivBySigns | high_precision_digit.hpp:266-304 | dividing magnitudes and then setting the sign to the XOR of the operand signs gives C++'s truncating quotient |
| Arith.TruncRemMagnitude | maths.hpp:100-109 | C++ `%`: the remainder has magnitude \|a\| mod \|b\| and the sign of the dividend; the quotient's magnitude times \|b\| never exceeds \|a\| |
| Arith.AdjustedRemPositive | high_precision_digit.hpp:307-324 | for a positive divisor, `%` with its "add the divisor if negative" fix-up is the mathematical remainder, in [0, b) |
| Arith.AdjustedRemIdentity | high_precision_digit.hpp:307-324 | for a non-negative dividend, (a/b)·b + a%b == a |
| Arith.AdjustedRemNegativeOperands | high_precision_digit.hpp:307-324 | for negative operands the identity fails: -7/2 == -3 but -7%2 == 1, and -7 % -2 == -3 is still negative |
| Arith.SqrtStart | high_precision_digit.hpp:465-467 | the search interval [1, n] with candidate 1 meets the search invariant |
| Arith.SqrtLow | high_precision_digit.hpp:476-480 | when mid·mid < n, moving left past mid keeps the invariant and makes mid the candidate |
| Arith.SqrtHigh | high_precision_digit.hpp:481-484 | when mid·mid > n, moving right below mid keeps the invariant |
| Arith.SqrtExact | high_precision_digit.hpp:472-474 | an exact square root is the integer square root |
| Arith.SqrtEnd | high_precision_digit.hpp:469-487 | when the interval is empty, the candidate r satisfies r·r ≤ n < (r+1)² |
| Limbs.CmpAbsMeaning | high_precision_digit.hpp:46-59 | compare_abs on trimmed limbs gives -1, 0 or 1: 0 exactly for equal limbs, negative or positive exactly when the first magnitude is smaller or larger |
| Limbs.CompareAbs | high_precision_digit.hpp:46-59 | the loop (length first, then limbs from the top) computes CmpAbs |
| Limbs.ValInjective | high_precision_digit.hpp:327-330 | two trimmed limb lists with the same value are the same list, so limb-wise == is value equality |
| Limbs.StripZeros | high_precision_digit.hpp:33-38 | trim drops only high zero limbs, keeps at least one, and leaves no top zero unless the list is [0] |
| Limbs.StrippedValue | high_precision_digit.hpp:33-38 | dropping high zero limbs keeps the value |
| Limbs.ZeroForm | high_precision_digit.hpp:39-42 | a trimmed list is worth zero exactly when it is [0] |
| Limbs.AddLimbs | high_precision_digit.hpp:62-80 | add_abs: limbs stay in [0, base), the sum is trimmed, and its value is the sum of the values |
| Limbs.SumSplit | high_precision_digit.hpp:70-76 | each limb sum splits into a digit in [0, base) and a carry of 0 or 1 |
| Limbs.SubLimbs | high_precision_digit.hpp:83-104 | sub_abs for \|b\| ≤ \|a\|: same length as a, limbs in range, value a − b |
| Limbs.MulLimbs | high_precision_digit.hpp:238-252 | schoolbook multiplication: \|a\|+\|b\| limbs in range, value a·b |
| Limbs.MulRow | high_precision_digit.hpp:241-252 | one outer step adds a[i]·b at position i, and the carry never runs past the buffer |
| Limbs.ValParity | high_precision_digit.hpp:1363-1371 | in an even base the value's parity is the parity of the lowest limb |
| Decimal.ParseRendered | high_precision_digit.hpp:117-161 | a digit string parses to its value, and with a leading '-' to the negation |
| Decimal.SignedText | high_precision_digit.hpp:183-196 | a signed digit text parses back to the signed value, and its first character shows the sign |
| Decimal.LeadingZeros | high_precision_digit.hpp:138-142 | skipping leading '0' characters does not change the value |
| Decimal.SkippedZeros | high_precision_digit.hpp:139-149 | the body after the skipped zeros is all digits exactly when the whole body is, with the same value |
| Decimal.StrayCharacter | high_precision_digit.hpp:151-156 | a non-digit after the skipped zeros makes the whole body invalid |
| Decimal.DecimalValueBound | high_precision_digit.hpp:1345-1356 | a k-digit string is worth less than 10^k |
| Decimal.DecimalValueLower | high_precision_digit.hpp:1345-1356 | a k-digit string without a leading zero is worth at least 10^(k−1) |
| Decimal.NatToDecimalMeaning | high_precision_digit.hpp:942 | the unpadded top-limb text is digits only, non-empty, has no leading zero, and denotes n |
| Decimal.ZeroPadMeaning | times.hpp:251-258 | zero padding reaches the width, keeps the text as a suffix and keeps the value |
| Decimal.FormatPaddedMeaning | times.hpp:251-258 | `{:02d}`/`{:03d}` output is at least width characters and parses back to the value, negatives included |
| Decimal.PaddedSplit | times.hpp:251-258 | the padded text is a '-' for negatives followed by a digit body worth \|v\| |
| Bigint.CanonicalUnique | high_precision_digit.hpp:327-330 | two canonical bigints with the same value are identical, so field-wise == is value equality |
| Bigint.Zero | high_precision_digit.hpp:112-115 | the default constructor gives canonical zero |
| Bigint.Trim | high_precision_digit.hpp:33-43 | trim drops only high zeros, clears the sign of zero, and yields the canonical form of the same value |
| Bigint.FromInt | high_precision_digit.hpp:163-180 | the long long constructor gives the canonical bigint of n |
| Bigint.FromString | high_precision_digit.hpp:117-161 | the string constructor succeeds exactly when the text is an optional sign then digits (empty and sign-only give 0), gives the canonical value, and otherwise fails with invalid_argument |
| Bigint.ReadDigits | high_precision_digit.hpp:151-158 | the right-to-left digit loop fails exactly on a non-digit, and otherwise stores the digits least significant first, worth the text's value |
| Bigint.ToString | high_precision_digit.hpp:183-196 | to_string produces Render(x) |
| Bigint.DigitsTextMeaning | high_precision_digit.hpp:190-193 | the digit loop's text is all digits, one per limb, worth the limbs' value, with the top limb first |
| Bigint.RenderParses | high_precision_digit.hpp:183-196 | parsing to_string gives back the value; '-' appears exactly for negatives; there is no leading zero |
| Bigint.AddAbs | high_precision_digit.hpp:62-80 | add_abs is canonical, non-negative and worth the sum of the magnitudes |
| Bigint.SubAbs | high_precision_digit.hpp:83-108 | sub_abs for \|b\| ≤ \|a\| is canonical, non-negative and worth \|a\| − \|b\| |
| Bigint.Add | high_precision_digit.hpp:199-226 | + returns the canonical sum; one operand may be the non-canonical "negative zero" built by − |
| Bigint.Sub | high_precision_digit.hpp:228-234 | − returns the canonical difference |
| Bigint.Mul | high_precision_digit.hpp:236-257 | * returns the canonical product, with the XOR of the signs when it is non-zero |
| Bigint.ComparisonMeaning | high_precision_digit.hpp:327-367 | ==, !=, <, <=, >, >= on canonical bigints agree with integer order |
| Bigint.EqualMeaning | high_precision_digit.hpp:327-330 | == holds exactly for equal values |
| Bigint.LessMeaning | high_precision_digit.hpp:337-352 | < holds exactly when the value is smaller |
| Bigint.AbsMeaning | high_precision_digit.hpp:422-427 | abs is canonical and worth \|x\| |
| Bigint.DigitSearch | high_precision_digit.hpp:282-296 | the binary search finds the digit x in [0, 9] with b·x ≤ current < b·(x+1) |
| Bigint.LongDivision | high_precision_digit.hpp:273-300 | the digit-by-digit loop yields \|a\| limbs worth a / b |
| Bigint.DivisionStep | high_precision_digit.hpp:279-299 | bringing down a digit and subtracting b·x keeps remainder = prefix − b·quotient-prefix in [0, b) |
| Bigint.Div | high_precision_digit.hpp:259-305 | / fails on a zero divisor with "Division by zero", and otherwise gives the canonical quotient truncated toward zero |
| Bigint.Mod | high_precision_digit.hpp:307-324 | % fails on a zero modulus, and otherwise gives a − (a/b)·b plus b when that is negative |
| Bigint.Pow | high_precision_digit.hpp:429-453 | pow fails exactly for a negative exponent, and otherwise gives base^e (1 for e == 0) |
| Bigint.Sqrt | high_precision_digit.hpp:456-488 | sqrt fails exactly for a negative operand, and otherwise gives r with r·r ≤ n < (r+1)² |
| Bigint.AddInt | high_precision_digit.hpp:370-373 | bigint + long long is the sum |
| Bigint.SubInt | high_precision_digit.hpp:375-378 | bigint − long long is the difference |
| Bigint.MulInt | high_precision_digit.hpp:380-383 | bigint * long long is the product |
| Bigint.DivInt | high_precision_digit.hpp:385-388 | bigint / long long fails for 0, and otherwise truncates |
| Bigint.ModInt | high_precision_digit.hpp:390-393 | bigint % long long fails for 0, and otherwise is the adjusted remainder |
| Bigint.IntAdd | high_precision_digit.hpp:396-399 | long long + bigint is the sum |
| Bigint.IntSub | high_precision_digit.hpp:401-404 | long long − bigint is the difference |
| Bigint.IntMul | high_precision_digit.hpp:406-409 | long long * bigint is the product |
| Bigint.IntDiv | high_precision_digit.hpp:411-414 | long long / bigint fails for 0, and otherwise truncates |
| Bigint.IntMod | high_precision_digit.hpp:416-419 | long long % bigint fails for 0, and otherwise is the adjusted remainder |
| BigintOpt.CanonicalUnique | high_precision_digit.hpp:1156-1159 | two canonical values with the same value are identical, so field-wise == is value equality |
| BigintOpt.Zero | high_precision_digit.hpp:802-805 | the default constructor gives canonical zero |
| BigintOpt.Trim | high_precision_digit.hpp:518-527 | trim drops only high zero limbs, clears the sign of zero, and yields the canonical form of the same value |
| BigintOpt.FromInt | high_precision_digit.hpp:880-897 | the long long constructor gives the canonical value n in at most three limbs (one below 10^9, two below 10^18) |
| BigintOpt.FromString | high_precision_digit.hpp:808-877 | the string constructor succeeds exactly when the text is an optional sign then digits, gives the canonical value, and otherwise fails with invalid_argument |
| BigintOpt.PackDigits | high_precision_digit.hpp:844-874 | packing nine digits per limb from the right fails exactly on a non-digit, and otherwise gives limbs in [0, 10^9) worth the text's value |
| BigintOpt.PackDigit | high_precision_digit.hpp:855-868 | one digit of the packing loop, with the flush of a full limb, keeps the packing invariant |
| BigintOpt.PackDone | high_precision_digit.hpp:871-874 | storing the last partial limb completes the value of the digit text |
| BigintOpt.ToString | high_precision_digit.hpp:934-953 | to_string produces Render(x) |
| BigintOpt.LimbTextMeaning | high_precision_digit.hpp:947-949 | an inner limb prints as exactly nine digits worth the limb |
| BigintOpt.LimbsTextMeaning | high_precision_digit.hpp:945-950 | the inner limbs print as nine digits each, worth their value |
| BigintOpt.RenderParses | high_precision_digit.hpp:934-953 | parsing to_string gives back the value; '-' appears exactly for negatives; there is no leading zero |
| BigintOpt.AddAbs | high_precision_digit.hpp:548-573 | add_abs is canonical, non-negative and worth the sum of the magnitudes |
| BigintOpt.SubAbs | high_precision_digit.hpp:576-601 | sub_abs for \|b\| ≤ \|a\| is canonical, non-negative and worth \|a\| − \|b\| |
| BigintOpt.Add | high_precision_digit.hpp:956-984 | + returns the canonical sum; one operand may be a "negative zero" |
| BigintOpt.Sub | high_precision_digit.hpp:993-999 | − returns the canonical difference |
| BigintOpt.Increment | high_precision_digit.hpp:1199-1210 | ++ adds one |
| BigintOpt.Decrement | high_precision_digit.hpp:1212-1223 | -- subtracts one |
| BigintOpt.Mul | high_precision_digit.hpp:1008-1034 | * gives the canonical product whenever it succeeds; it always succeeds when either operand has at most 64 limbs (the naive path) |
| BigintOpt.ComparisonMeaning | high_precision_digit.hpp:1156-1196 | ==, !=, <, <=, >, >= on canonical values agree with integer order |
| BigintOpt.EqualMeaning | high_precision_digit.hpp:1156-1159 | == holds exactly for equal values |
| BigintOpt.LessMeaning | high_precision_digit.hpp:1166-1181 | < holds exactly when the value is smaller |
| BigintOpt.AbsMeaning | high_precision_digit.hpp:1303-1308 | abs is canonical and worth \|x\| |
| BigintOpt.QueriesMeaning | high_precision_digit.hpp:1358-1371 | is_zero holds exactly for 0; is_odd and is_even follow the value's parity, and exactly one of them holds |
| BigintOpt.GetDigitCount | high_precision_digit.hpp:1345-1356 | get_digit_count returns the number of decimal digits of the magnitude: 10^(c−1) ≤ v < 10^c, and 1 for zero |
| BigintOpt.DigitCountBounds | high_precision_digit.hpp:1348-1355 | nine digits per lower limb plus the digits of the top limb bound the value from both sides |
| BigintOpt.EstimateQuotientDigit | high_precision_digit.hpp:604-624 | the estimate lies in [0, 10^9) and is 0 when the dividend has fewer limbs than the divisor |
| BigintOpt.EstimateExamples | high_precision_digit.hpp:604-624 | single-limb estimates are a / (b + 1): 5 by 1 gives 2, 123 by 2 gives 41 |
| BigintOpt.TopTwoSplit | high_precision_digit.hpp:608-618 | a number of two or more limbs is its top two limbs, read as one number, times BASE^(n−2) plus the lower limbs, which stay below BASE^(n−2) |
| BigintOpt.EstimateConservative | high_precision_digit.hpp:604-624 | the estimate is conservative, as its comment says: for operands with the same limb count, estimate · divisor ≤ dividend |
| BigintOpt.OneLimbEstimate | high_precision_digit.hpp:604-624 | on one-limb operands the estimate is a / (b + 1), and it never exceeds the dividend once multiplied by the divisor |
| BigintOpt.ScaleByLimb | high_precision_digit.hpp:1077 | divisor * bigint_opt(q) for one limb q is canonical and worth q·divisor |
| BigintOpt.DivideMagnitudes | high_precision_digit.hpp:1057-1092 | the estimate-and-correct loop yields quotient limbs in [0, 10^9) with quotient·b ≤ a; for a one-limb dividend the quotient is exactly a / (b + 1), because the correction loop never lowers the estimate |
| BigintOpt.DivisionStep | high_precision_digit.hpp:1074-1091 | one pass keeps a == rest + b·quotient with the remaining dividend ≥ 0, and shifts the divisor right by one limb |
| BigintOpt.DivisionEnd | high_precision_digit.hpp:1092 | after the last pass the quotient never overshoots: quotient·b ≤ a |
| BigintOpt.Div | high_precision_digit.hpp:1043-1096 | / fails exactly on a zero divisor; otherwise \|q\|·\|b\| ≤ \|a\|, the sign is the XOR of the signs, \|a\| < \|b\| gives 0, and a dividend below 10^9 gives \|q\| == \|a\| / (\|b\| + 1) |
| BigintOpt.OneLimbDividend | high_precision_digit.hpp:1061-1092 | a dividend below 10^9 and a divisor not above it both have one limb, so the quotient's magnitude is \|a\| / (\|b\| + 1) |
| BigintOpt.DivisionExample | high_precision_digit.hpp:1043-1096 | bigint_opt(5) / bigint_opt(1) is 2 |
| BigintOpt.Mod | high_precision_digit.hpp:1104-1121 | % fails with "Modulo by zero" exactly for 0; a result differs from a by a multiple of b and lies in [0, a] for a ≥ 0 |
| BigintOpt.RemainderFacts | high_precision_digit.hpp:1111-1118 | a − q·b, plus b when negative, differs from a by a multiple of b, and lies in [0, a] for a ≥ 0 |
| BigintOpt.Pow | high_precision_digit.hpp:1130-1153 | pow fails with NegativeExponent exactly for e < 0; a result is canonical and worth base^e |
| BigintOpt.Shl | high_precision_digit.hpp:1226-1236 | << k for k ≥ 0 multiplies by 2^k; for k < 0 it defers to >> and never overshoots |
| BigintOpt.Shr | high_precision_digit.hpp:1238-1248 | >> k for k ≥ 0 gives r with \|r\|·2^k ≤ \|x\| and x's sign, and for \|x\| < 10^9 exactly \|x\| divided by 3, k times over; for k < 0 it multiplies by 2^(−k) |
| BigintOpt.ThirdsQuotient | high_precision_digit.hpp:1238-1248 | dividing by 3 k times over is dividing by 3^k once |
| BigintOpt.ShiftExamples | test_high_precision_digit.cpp:224-229 | 123 << 3 == 984, as the test asserts, and 123 >> 2 == 13, the value the test prints |
| BigintOpt.Sqrt | high_precision_digit.hpp:1310-1342 | sqrt fails with NegativeOperand exactly for n < 0; a returned r is the integer square root, r·r ≤ n < (r+1)², even though mid can fall outside [left, right]; n ≤ 1 returns n |
| Arith.LooseSqrtLow | high_precision_digit.hpp:1330-1334 | when mid·mid < n, taking mid as the candidate and moving left past it keeps the search invariant, wherever mid lies |
| Arith.LooseSqrtHigh | high_precision_digit.hpp:1335-1338 | when mid·mid > n, mid is at least 2 and moving right to mid − 1 keeps n < (right+1)² |
| Arith.LooseSqrtEnd | high_precision_digit.hpp:1322-1341 | when left passes right, the candidate r satisfies r·r ≤ n < (r+1)² |
| BigintOpt.AddInt | high_precision_digit.hpp:1251-1254 | bigint_opt + long long is the sum |
| BigintOpt.SubInt | high_precision_digit.hpp:1256-1259 | bigint_opt − long long is the difference |
| BigintOpt.MulInt | high_precision_digit.hpp:1261-1264 | bigint_opt * long long always succeeds (the long long side has at most 3 limbs) and is the product |
| BigintOpt.DivInt | high_precision_digit.hpp:1266-1269 | bigint_opt / long long fails for 0, and otherwise never overshoots and has the XOR sign |
| BigintOpt.ModInt | high_precision_digit.hpp:1271-1274 | bigint_opt % long long fails for 0, and otherwise differs from a by a multiple of n |
| BigintOpt.IntAdd | high_precision_digit.hpp:1277-1280 | long long + bigint_opt is the sum |
| BigintOpt.IntSub | high_precision_digit.hpp:1282-1285 | long long − bigint_opt is the difference |
| BigintOpt.IntMul | high_precision_digit.hpp:1287-1290 | long long * bigint_opt always succeeds and is the product |
| BigintOpt.IntDiv | high_precision_digit.hpp:1292-1295 | long long / bigint_opt fails for 0, and otherwise never overshoots and has the XOR sign |
| BigintOpt.IntMod | high_precision_digit.hpp:1297-1300 | long long % bigint_opt fails for 0, and otherwise differs from n by a multiple of b |
| OptMultiply.NaiveMultiply | high_precision_digit.hpp:627-649 | naive_multiply gives trimmed limbs in [0, 10^9) worth a·b, at most \|a\|+\|b\| long |
| OptMultiply.NaiveStepFits | high_precision_digit.hpp:638-641 | each cur = old + carry + a[i]·b[j] fits in a long long, and its carry stays below 10^9 |
| OptMultiply.Split | high_precision_digit.hpp:668-689 | the split gives low = the first min(m, \|a\|) limbs and high = the rest (or [0]), with a = low + BASE^m·high |
| OptMultiply.SumHalves | high_precision_digit.hpp:700-716 | the limb-wise sums have m+1 entries in [0, 2·BASE−2] and are worth low + high |
| OptMultiply.CarryOnce | high_precision_digit.hpp:718-731 | the single carry pass brings every limb into [0, BASE) and keeps the value |
| OptMultiply.SumOfHalves | high_precision_digit.hpp:700-731 | a_sum and b_sum have m+1 limbs in range, worth low + high |
| OptMultiply.SubtractProducts | high_precision_digit.hpp:737-759 | z1 = z1_temp − z0 − z2 limb by limb; the value plus the final borrow times BASE^len is the exact difference |
| OptMultiply.CopyLow | high_precision_digit.hpp:762-769 | the zeroed buffer with z0 copied in is worth z0 |
| OptMultiply.AddShifted | high_precision_digit.hpp:771-791 | adding z·BASE^shift keeps the buffer's length and adds exactly that value; writing past the buffer is a fault |
| OptMultiply.Combine | high_precision_digit.hpp:761-797 | a successful combine is trimmed and worth z0 + BASE^m·z1 + BASE^(2m)·z2; z2 longer than z0 is a fault |
| OptMultiply.KaratsubaAlgebra | high_precision_digit.hpp:733-735 | z0 + p·(t − z0 − z2) + p²·z2 is the product of the two split operands |
| OptMultiply.Recombine | high_precision_digit.hpp:733-797 | from the three partial products, a successful recombination is worth (al + p·ah)·(bl + p·bh) |
| OptMultiply.Halves | high_precision_digit.hpp:663-731 | both operands split at the same m into parts (PartsOf: halves with a = low + BASE^m·high, sums worth low + high), with m + 1 shorter than the longer operand so every part is shorter |
| OptMultiply.SplitAndSum | high_precision_digit.hpp:668-716 | one operand's Parts at m: halves of at most m limbs with a = low + BASE^m·high, and a sum of m+1 limbs worth low + high |
| OptMultiply.SplitShrinks | high_precision_digit.hpp:654-666 | above the cutoff, rounding n up to even and halving shrinks every recursive call |
| OptMultiply.Karatsuba | high_precision_digit.hpp:652-798 | a successful karatsuba_multiply is trimmed and worth a·b; failure only happens above the 32-limb cutoff |
| BigMaths.BigFac | high_precision_digit.hpp:1402-1410 | big_fac(n) is n! (1 for n < 2) |
| BigMaths.BigFacOpt | high_precision_digit.hpp:1413-1421 | big_fac_opt(n) is n! (1 for n < 2) |
| BigMaths.BigPow | high_precision_digit.hpp:1424-1432 | big_pow(b, e) is b^e, and 1 for e ≤ 0 |
| BigMaths.BigPowOpt | high_precision_digit.hpp:1435-1443 | big_pow_opt(b, e) is 1 for e ≤ 0 and b^e whenever it succeeds; a base of at most 64 limbs always succeeds |
| Arith.Factorial20 | high_precision_digit.hpp:1402-1410 | 20! == 2432902008176640000 |
| Maths.FacTemplateValue | maths.hpp:20-30 | Fac<N>::value is N! mod 2^64, and exactly N! (== fac(N)) for 1 ≤ N ≤ 20 |
| Maths.FibTemplateValue | maths.hpp:32-48 | Fib<N>::value is Fib(N) mod 2^64, and exactly the mathematical Fib(N) for N ≤ 93 (fib(N) agrees only up to N ≤ 92, where long long still holds it) |
| Maths.PowTemplate | maths.hpp:50-60 | Pow<B, E>::value, when it fits in long long at every step, is B^E |
| Maths.PowTemplateFits | maths.hpp:50-60 | when every power up to E fits in long long, Pow<B, E>::value is B^E |
| Maths.FacTemplateExamples | maths.hpp:20-30 | Fac<20> == 2432902008176640000, and Fac<21> has wrapped |
| Maths.FibTemplateExample | maths.hpp:32-48 | Fib<20> == 6765 |
| Maths.PowTemplateExample | maths.hpp:50-60 | Pow<2, 20> == 1048576 |
| Maths.Fac | maths.hpp:64-72 | fac fails exactly for n < 0 (a std::runtime_error raised through ikun_error::throw_inv_arg; the copy in functions/mathematics.hpp throws std::invalid_argument instead), and otherwise is n!, within long long for n ≤ 20 |
| Maths.FactorialBound | maths.hpp:64-72 | n! fits in long long for n ≤ 20 |
| Maths.Fib | maths.hpp:74-85 | fib(n) is n for n ≤ 1 (negatives included) and the Fibonacci number otherwise, within long long |
| Maths.FibonacciBound | maths.hpp:74-85 | Fib(n) fits in long long for n ≤ 92 and in unsigned long long for n ≤ 93 |
| Maths.FibonacciValues | maths.hpp:74-85 | fib(20) == 6765, and the values at 92 and 93 |
| Maths.IsPrime | maths.hpp:87-98 | is_prime(n) holds exactly when n ≥ 2 and no d in [2, n) divides n |
| Maths.WheelStep | maths.hpp:93-96 | testing i and i + 2 for i ≡ 5 (mod 6) rules out every divisor below i + 6 |
| Maths.NoSmallFactor | maths.hpp:93-97 | no divisor up to √n means n is prime |
| Maths.PrimeExamples | maths.hpp:87-98 | 5 is prime and 10 is not |
| Maths.Euclid | maths.hpp:100-109 | Euclid's gcd is 0 exactly when both arguments are 0 |
| Maths.Gcd | maths.hpp:100-109 | the loop's result has magnitude gcd(\|a\|, \|b\|) and is non-negative for non-negative operands (gcd(a, 0) == a) |
| Maths.EuclidDivides | maths.hpp:100-109 | gcd(a, b) divides a and b |
| Maths.Bezout | maths.hpp:100-109 | gcd(a, b) is an integer combination of a and b |
| Maths.EuclidGreatest | maths.hpp:100-109 | every common divisor divides gcd(a, b) |
| Maths.Lcm | maths.hpp:111-114 | a / gcd(a, b) * b is a common multiple of \|a\| and \|b\| that divides every common multiple, positive for positive operands |
| Maths.LcmMeaning | maths.hpp:111-114 | (a/g)·b is a common multiple that divides every common multiple |
| Maths.LcmDividesMultiple | maths.hpp:111-114 | every common multiple of A and B is a multiple of (A/g)·B |
| Maths.GcdExamples | maths.hpp:100-114 | gcd(91, 78) == 13 and lcm(91, 78) == 546 |
| Times.Decompose | times.hpp:236-239 | hours·3600000 + minutes·60000 + seconds·1000 + milliseconds == ms; for ms ≥ 0 the fields lie in [0, 60) and [0, 1000); for ms < 0 they are all ≤ 0 |
| Times.DecomposeNonNegative | times.hpp:236-239 | for ms ≥ 0 the four fields rebuild ms and lie in their ranges |
| Times.TruncNegate | times.hpp:236-239 | truncating division and remainder are odd in the dividend |
| Times.ExampleFields | times.hpp:236-239 | Duration(3723004) has 1 h, 2 min, 3 s and 4 ms |
| Times.Format | times.hpp:241-270 | the format loop produces Expand(d, fmt) |
| Times.Directive | times.hpp:246-262 | one '%' directive plus the rest of the expansion is the expansion from the '%' |
| Times.ExpandPlain | times.hpp:264-267 | characters other than '%' are copied verbatim |
| Times.ExpandOddPercents | times.hpp:246-261 | a trailing '%' is copied, "%x" for any other x stays literal, and "%m" not followed by 's' gives nothing |
| Times.DirectiveTextMeaning | times.hpp:251-258 | %H, %M and %S give at least 2 characters, %ms at least 3, each parsing back to its field |
| Times.DefaultFormatExample | times.hpp:241 | with "%H:%M:%S.%ms", Duration(3723004) formats as "01:02:03.004" |
| Files.FindFirstOf | files.hpp:143 | find_first_of finds the first position holding one of the characters, or none when no position does |
| Files.CheckFileName | files.hpp:141-149 | check_file_name is false exactly when the name contains / \ : * ? " < > \| |
| Files.CheckDirName | files.hpp:171-179 | check_dir_name is false exactly when the name contains : * ? " < > \| |
| Files.FileNameImpliesDirName | files.hpp:141-179 | a valid file name is a valid directory name; the two differ only on '/' and '\' |
| Files.RejectedFileName | files.hpp:143 | check_file_name("test.ikun/") is false |
| Files.RejectedDirName | files.hpp:173 | check_dir_name("testdir>") is false |
| Files.GetCppVersion | files.hpp:151-169 | with c = (__cplusplus / 100) % 100 the result is the first of c, c+1, c+2 that is ≡ 2 (mod 3) |
| Files.CppVersionExamples | files.hpp:154-166 | 201703 → 17, 201600 → 17, 202002 → 20, 202400 → 26, 199711 → 98 |
| Files.NormalizeExtension | files.hpp:57-63 | "" and "." stay; any other extension gets a leading '.' unless it has one, and keeps its text as a suffix |
| Files.NormalizeIdempotent | files.hpp:57-63 | normalising twice is normalising once |
| Files.Extension | files.hpp:87 | the extension is empty exactly for ".", ".." and names with no '.' after the first character; otherwise it is a '.'-led proper suffix of the name with no further '.' |
| Files.LastDot | files.hpp:87 | the last '.' of a name, or none |
| Files.ToLower | files.hpp:94 | tolower maps 'A'..'Z' to 'a'..'z' and leaves every other character alone |
| Files.EqualIgnoreCaseEquivalence | files.hpp:90-95 | the case-blind comparison is reflexive, symmetric and transitive |
| Files.Matches | files.hpp:75-99 | "." and "" keep every file; any other filter keeps a file exactly when its non-empty extension equals the filter ignoring case |
| Files.MatchesIgnoresCase | files.hpp:90-95 | filters that differ only in case keep the same files |
| Files.MatchExamples | files.hpp:57-99 | "report.TXT" matches "txt"; ".bashrc" has no extension and does not match "bashrc"; "." keeps it |
| Files.LexTotal | files.hpp:102 | std::sort's string order is total |
| Files.LexTransitive | files.hpp:102 | the string order is transitive |
| Files.LexAntisymmetric | files.hpp:102 | the string order is antisymmetric |
| Files.SortNames | files.hpp:102 | the sort returns a sorted permutation of the names |
| Files.SortedUnique | files.hpp:102 | a sorted permutation is unique, so the result does not depend on how it is sorted |
| Files.Kept | files.hpp:68-101 | the walk keeps every matching file as often as it was listed and drops every other file (multiset equality) |
| Files.SelectFiles | files.hpp:57-102 | filedir's result is sorted, and as a multiset holds exactly the files that match the normalised filter, each with its multiplicity in the walk |
| Files.DefaultListsEverything | files.hpp:75-82 | with "." or "" every file is listed |
| Files.KeepAll | files.hpp:75-82 | the filters "." and "" keep the list unchanged |
| IkunCore.OptionKinds | ikun_core.cpp:205-284 | each argument is a terminal option, an option taking a name, or unknown, and never both of the first two |
| IkunCore.UninstallGuardMatchesCheck | ikun_core.cpp:156-189 | uninstall_lib refuses exactly the names that check_lib_install accepts whatever the disk holds; other names are uninstalled |
| IkunCore.CheckReadsDisk | ikun_core.cpp:179-189 | for an unprotected name check_lib_install is fileexists(name + ".hpp") |
| IkunCore.ProtectedExamples | ikun_core.cpp:156-189 | "core" and "github" are refused; "maths" is uninstalled; "high_precision_digit" counts as installed on an empty disk; "maths" does not |
| IkunCore.Run | ikun_core.cpp:191-288 | main's loop returns the exit code and action log of Program |
| IkunCore.DispatchAt | ikun_core.cpp:201-284 | one step of the loop: a terminal option acts and returns 0; a name option consumes the next argument or returns 1; an unknown option prints help and returns 1 |
| IkunCore.NoArguments | ikun_core.cpp:194-199 | with argc < 2 the program prints help and returns 1 |
| IkunCore.TerminalStops | ikun_core.cpp:205-219 | -v, -h and -l act and return 0 without reading later arguments |
| IkunCore.NameConsumed | ikun_core.cpp:220-278 | -ih, -i, -u and -c consume exactly the next argument; without one the program returns 1 |
| IkunCore.ExitCode | ikun_core.cpp:201-287 | the exit code is 0 exactly when the arguments are accepted |
| IkunCore.ExitCodeIgnoresEnvironment | ikun_core.cpp:191-288 | the exit code is 0 or 1 and depends neither on the disk nor on failed downloads |
| IkunCore.UnknownFails | ikun_core.cpp:279-284 | an unknown option prints its name and help and returns 1 |
| IkunCore.RunExamples | ikun_core.cpp:191-288 | "-c -v" checks a library named "-v"; "-i maths -v -x" installs, prints the version and stops; "-u" alone returns 1 |

## Left out

- Console and file output are left out: println, help, version, list_libs, Duration::print and the stream operators `<<`/`>>`. The manager logs its actions instead.
- The git downloads and shell commands of install_header, install_lib and uninstall_lib are left out. Each becomes a logged action, and whether a download fails is a parameter.
- uninstall_lib's wait for Enter (cin.ignore) is not modelled.
- The disk that check_lib_install reads is a fixed parameter. A library installed or removed earlier in the same argv is not seen by a later -c.
- filedir's directory walk (is_directory, directory_iterator, is_regular_file, the filesystem_error handlers) is not modelled. The model starts from the list of file names the walk sees.
- test_hpd, which shells out to compilers, is not modelled. Nor is the move/copy plumbing of bigint_opt (the vector constructor, move constructor, assignments and swap): the model works on values.
- The compound assignments (+=, -=, *=, /=, %=) are not modelled separately. Each is the matching operator assigned back.
- The Pow template of functions/mathematics.hpp (lines 51-67) is not modelled. It names a member `pow` that does not exist, so no instantiation compiles.
- BigintOpt.Mul: no claim that karatsuba_multiply always equals the product. Above 64 limbs per operand it may return Failure(KaratsubaFault), where the C++ writes past its buffer or leaves limbs out of range.
- OptMultiply.Karatsuba: a success is proved exact, but failure is not ruled out above the cutoff.
- BigintOpt.Div: states that the quotient never overshoots (\|q\|·\|b\| ≤ \|a\|), with the right sign, and not that it equals the truncated quotient. A limb estimate that is too small is never raised. The exact quotient is stated only for dividends below 10^9, where it is \|a\| / (\|b\| + 1).
- BigintOpt.DivInt, BigintOpt.IntDiv: the same weaker quotient contract as BigintOpt.Div.
- BigintOpt.Mod: states that the result differs from the dividend by a multiple of the divisor and lies in [0, a] for a ≥ 0, not that it is the least remainder. Its product can take the Karatsuba path for divisors above 64 limbs.
- BigintOpt.ModInt, BigintOpt.IntMod: the same weaker remainder contract as BigintOpt.Mod.
- BigintOpt.Shr: states \|r\|·2^k ≤ \|x\| with the sign of x, not floor division, because it repeats the weaker division. The exact result is stated only for \|x\| below 10^9.
- BigintOpt.Shl: for a negative shift it defers to >> and inherits its weaker contract.
- BigintOpt.Shl, BigintOpt.Shr: require INT_MIN < shift, because negating INT_MIN at high_precision_digit.hpp:1228 and 1240 overflows int.
- BigintOpt.Sqrt: the binary search over the weaker division need not terminate. It takes a fuel bound (Failure(OutOfFuel)). A returned value is proved to be the integer square root, but no claim is made that the search returns at all.
- BigMaths.BigFac, BigMaths.BigFacOpt: require n < INT_MAX, because the int loop counter at high_precision_digit.hpp:1405 and 1416 overflows at INT_MAX and the loop never stops.
- BigintOpt.Pow, BigMaths.BigPowOpt: a result is exact when it is returned, but a product above 64 limbs may fail through Karatsuba.
- Bigint.FromInt, BigintOpt.FromInt and the long long forwarders (AddInt … IntMod in both modules) require n > LLONG_MIN, because std::abs(LLONG_MIN) overflows.
- Maths.Fac requires n ≤ 20, and Maths.Fib requires n ≤ 92. Beyond these the long long arithmetic overflows, which is undefined behaviour.
- Maths.IsPrime computes i·i with unbounded integers. For n close to INT_MAX the C++ `int` product i·i overflows before the loop stops, and that is not modelled.
- Maths.Gcd excludes INT_MIN % -1, which is undefined in C++.
- Maths.Lcm excludes lcm(0, 0), where gcd(0, 0) == 0 and the division by it is undefined. It keeps INT_MIN only beside 0, where the result is 0 as in C++. It requires |a| / gcd · |b| ≤ INT_MAX, which also rules out INT_MIN beside any other operand. This drops the defined calls whose product is exactly INT_MIN, because the model bounds the product's magnitude, not its signed value.
- Files.GetCppVersion takes the __cplusplus value as a natural number. The macro is always a positive literal.
- Times: the long long millisecond count is an unbounded integer. Only values that fit a long long occur in the source.
- The bigint_opt `snprintf("%09d")` padding of inner limbs is specified as nine-digit zero-padded text, not as a call.
