# RatNum in Dafny

A model of `RatNum`, an immutable exact rational number that stores a
numerator/denominator pair of `BigInteger`s. Every value goes through one
normalising constructor. That constructor rejects a zero denominator with
`NumberFormatException`. It divides both parts by their gcd and negates both
when the denominator was negative. So every stored pair is canonical: the
denominator is positive and the pair is in lowest terms. On top of that sit
`add`, `sub`, `mul`, `div` (cross-multiply, then normalise), `lessThan`
(cross-multiplication), `equals` (component-wise), `intPart` (truncating
division), `pow`, `toString`, the `int` accessors and a static `int` `gcd`
with its own special cases and Euclidean loop.

Files:

- `number_theory.dfy` (module `NumberTheory`): the mathematical gcd, divisibility
  and integer powers that stand in for `BigInteger.gcd` and `BigInteger.pow`.
  It proves Euclid's lemma, that the gcd scales, that dividing by the gcd leaves
  a coprime pair, and that powers of coprime numbers are coprime.
- `java_numbers.dfy` (module `JavaNumbers`): the Java numeric behaviour the class
  relies on, written out. It covers the 32-bit `int` type and the wrap-around of
  `intValue()` and `Math.abs`, and Java's `%`, whose remainder keeps the sign of
  the dividend. It covers `BigInteger.divide`, which rounds toward zero while
  Dafny's `/` is Euclidean, and the decimal rendering of `BigInteger.toString()`.
- `rat_num.dfy` (module `RatNum`): the class itself. The datatype `Rat(num, den)`
  holds the two fields and `Valid` is the class invariant. `Normalize` is the
  private constructor. The operations that can throw return a `Result`, whose
  `Err` carries the exception: `FromPair` (through `Normalize`), `Div` and `Pow`
  return `Result<Rat>`, and so do `Add`, `Sub` and `Mul`, which never fail on
  canonical inputs. `Zero`, `FromInt` and `Copy` return a `Rat`. `Equals` and `LessThan` return a `bool`, `IntPart` and the two
  accessors an `int32`, and `ToString` a string. The static `gcd` is a method
  with a loop returning `Result<int>`.

The model follows these readings of the Java code:

- Lines 9 and 11 test `BigInteger`s by reference (`d == BigInteger.ZERO`,
  `d.max(BigInteger.ZERO) == BigInteger.ZERO`). The model reads them as `d == 0`
  and `d < 0`. This is what they mean for every value that reaches them. A zero
  denominator is either `BigInteger.valueOf(0)` or a product with a zero factor,
  and both return the shared `ZERO` object. `max` returns its `ZERO` argument
  exactly when `d <= 0`.
- The sign test at line 11 is on the original `d`, before dividing by the gcd.
  This is sound because the gcd is positive when `d != 0`.
- `Add`, `Sub`, `Mul`, `Div`, `IntPart` and `Pow` take `Valid` values as a
  precondition. That is the class invariant every constructor establishes, so
  every `RatNum` object meets it. `Equals`, `LessThan`, `ToString`, `Copy` and
  the accessors accept any pair.
- The Javadoc of the static `gcd` says the result is always non-negative
  (src/RatNum.java:78). It also lists the special cases "if m = 0, returns n"
  (lines 86-87), and the code at lines 91-92 returns the other argument with its
  sign. The model follows the code: `gcd(0, -5)` is `-5`.
- `pow` with a negative exponent reaches `BigInteger.pow`, which throws
  `ArithmeticException`. The model returns `Err(Arithmetic)` for it.

## Model

| member | source | states |
|---|---|---|
| `RatNum.Normalize` | src/RatNum.java:8-22 | fails with NumberFormat exactly when d = 0; otherwise the stored pair is canonical (den > 0, gcd(\|num\|, den) = 1) and num·d = n·den |
| `RatNum.CanonicalUnique` | src/RatNum.java:8-22 | two canonical pairs denoting the same fraction are identical, which is why component-wise equality is sound |
| `RatNum.NormalizeIdempotent` | src/RatNum.java:8-22 | re-normalising a stored pair returns it unchanged |
| `RatNum.NormalizeRespectsValue` | src/RatNum.java:8-22 | two pairs with nonzero denominators normalise to the same result iff n·d' = n'·d |
| `RatNum.NormalizeExamples` | src/RatNum.java:39-50 | (3, -9) becomes -1/3, (2, 4) becomes 1/2, (3, 0) fails |
| `RatNum.Zero` | src/RatNum.java:27-30 | the default value is canonical and denotes 0 |
| `RatNum.FromInt` | src/RatNum.java:35-38 | `RatNum(int n)` is canonical and denotes n/1 |
| `RatNum.FromPair` | src/RatNum.java:48-50 | `RatNum(int n, int d)` fails exactly when d = 0, otherwise is canonical and denotes n/d |
| `RatNum.Copy` | src/RatNum.java:55-58 | the copy has the same numerator and denominator |
| `RatNum.ConstructorsCanonical` | src/RatNum.java:27-58 | the 0- and 1-argument constructors store exactly what normalising 0/1 and n/1 gives; a copy is still canonical |
| `RatNum.GetNumerator` | src/RatNum.java:64-66 | the numerator's low 32 bits; equal to the numerator when it fits in an `int` |
| `RatNum.GetDenominator` | src/RatNum.java:72-74 | the denominator's low 32 bits; equal to it when it fits in an `int` |
| `RatNum.StaticGcd` | src/RatNum.java:89-103 | fails when both are 0; returns n when m = 0 and m when n = 0, sign kept; otherwise returns the positive gcd of the magnitudes, which divides both and is divisible by every common divisor |
| `RatNum.GcdAsWritten` | src/RatNum.java:89-103 | the same code on 32-bit ints (`Math.abs` wraps, `%` keeps the dividend's sign); fails with IllegalArgument exactly when both arguments are 0; returns n when m = 0 and m when n = 0; for two nonzero arguments the result's magnitude is always the gcd of the magnitudes, so only its sign can be wrong |
| `RatNum.EuclidAsWritten` | src/RatNum.java:96-101 | the 32-bit loop, for operands of any sign whose remainder differs from the dividend by a multiple of the divisor, ends with a number whose magnitude is the gcd of the magnitudes |
| `NumberTheory.GcdShift` | src/RatNum.java:96-101 | one loop step keeps the gcd: replacing the dividend by anything congruent to it modulo the divisor leaves the gcd unchanged |
| `RatNum.EuclidAsWrittenAgrees` | src/RatNum.java:96-101 | on positive operands the 32-bit loop computes Euclid's gcd |
| `RatNum.GcdAsWrittenAgrees` | src/RatNum.java:94-102 | for nonzero arguments other than `Integer.MIN_VALUE` the 32-bit code returns the gcd of the magnitudes |
| `RatNum.GcdAsWrittenMinValue` | src/RatNum.java:94-102 | `gcd(Integer.MIN_VALUE, 6)` as written returns -2 although the gcd is 2, and `gcd(Integer.MIN_VALUE, Integer.MIN_VALUE)` returns `Integer.MIN_VALUE`; `gcd(Integer.MIN_VALUE, 4)` = 4 and `gcd(Integer.MIN_VALUE, 7)` = 1 come out right |
| `RatNum.ToString` | src/RatNum.java:109-111 | the text holds exactly one '/', right after the numerator's rendering and followed by exactly the denominator's rendering; the part before it reads back as the numerator and the part after it as the denominator; it starts with '-' exactly for a negative numerator |
| `RatNum.ToStringInjective` | src/RatNum.java:109-111 | "num/den" can be split back at the one '/': distinct values print differently |
| `RatNum.ToStringExample` | src/RatNum.java:109-111 | 5/6 prints "5/6", -12/1 prints "-12/1" (no "/1" trimming) |
| `RatNum.Equals` | src/RatNum.java:118-123 | true exactly when the two stored pairs are identical, and then the fractions are numerically equal |
| `RatNum.EqualsIsNumericEquality` | src/RatNum.java:118-123 | on canonical values, component-wise equality holds iff a·d = c·b |
| `RatNum.LessThan` | src/RatNum.java:130-133 | over a common positive denominator it compares the numerators; against a zero numerator it is the sign test (x < 0 iff x's numerator is negative, 0 < y iff y's numerator is positive) |
| `RatNum.LessThanIrreflexive` | src/RatNum.java:130-133 | no value is less than itself |
| `RatNum.LessThanAsymmetric` | src/RatNum.java:130-133 | x < y excludes y < x |
| `RatNum.LessThanTransitive` | src/RatNum.java:130-133 | on canonical values (positive denominators) x < y and y < z give x < z |
| `RatNum.Trichotomy` | src/RatNum.java:118-133 | exactly one of x < y, x equals y, y < x holds on canonical values |
| `RatNum.LessThanIffDifferencePositive` | src/RatNum.java:130-155 | x < y iff y.sub(x) has a positive numerator |
| `RatNum.LessThanExamples` | src/RatNum.java:130-133 | 1/2 < 2/3 holds and 2/3 < 1/2 does not |
| `RatNum.Add` | src/RatNum.java:140-144 | never fails on canonical inputs; canonical result denoting (a·d + c·b)/(b·d) |
| `RatNum.Sub` | src/RatNum.java:151-155 | never fails on canonical inputs; canonical result denoting (a·d − c·b)/(b·d) |
| `RatNum.Mul` | src/RatNum.java:162-166 | never fails on canonical inputs; canonical result denoting (a·c)/(b·d) |
| `RatNum.Div` | src/RatNum.java:173-177 | fails with NumberFormat exactly when the divisor's numerator is 0; otherwise canonical result denoting (a·d)/(b·c) |
| `RatNum.AddCommutes` | src/RatNum.java:140-144 | x.add(y) = y.add(x) |
| `RatNum.AddZero` | src/RatNum.java:140-144 | x.add(0/1) = x |
| `RatNum.SubSelf` | src/RatNum.java:151-155 | x.sub(x) = 0/1 |
| `RatNum.SubUndoesAdd` | src/RatNum.java:140-155 | (x.add(y)).sub(y) = x |
| `RatNum.MulCommutes` | src/RatNum.java:162-166 | x.mul(y) = y.mul(x) |
| `RatNum.MulOne` | src/RatNum.java:162-166 | x.mul(1/1) = x |
| `RatNum.DivSelf` | src/RatNum.java:173-177 | x.div(x) = 1/1 for nonzero x |
| `RatNum.DivUndoesMul` | src/RatNum.java:162-177 | (x.mul(y)).div(y) = x for nonzero y |
| `RatNum.ArithmeticExamples` | src/RatNum.java:140-177 | 1/2 + 1/3 = 5/6; 1/2 divided by 0/1 fails |
| `RatNum.IntPart` | src/RatNum.java:182-184 | the quotient rounded toward zero (remainder has the numerator's sign and is smaller than den), narrowed to 32 bits |
| `RatNum.IntPartExamples` | src/RatNum.java:182-184 | 7/2 gives 3 and -7/2 gives -3 |
| `RatNum.Pow` | src/RatNum.java:193-201 | k = 0 gives 1/1 for every base; k < 0 fails with Arithmetic; k > 0 gives exactly num^k/den^k, which is canonical |
| `RatNum.PowerPreservesCanonical` | src/RatNum.java:197-199 | raising both parts of a canonical pair to k keeps den^k > 0 and the parts coprime |
| `RatNum.PowExamples` | src/RatNum.java:193-201 | x.pow(0) = 1/1 (also for 0/1) and (2/3).pow(2) = 4/9 |
| `NumberTheory.Gcd` | src/RatNum.java:10 | `BigInteger.gcd` on magnitudes; zero exactly when both arguments are zero |
| `NumberTheory.GcdDivides` | src/RatNum.java:10 | the gcd divides both arguments |
| `NumberTheory.GcdGreatest` | src/RatNum.java:10 | every common divisor divides the gcd |
| `NumberTheory.ReducedCoprime` | src/RatNum.java:10-13 | dividing both parts by their gcd leaves a coprime pair |
| `NumberTheory.Power` | src/RatNum.java:197-198 | `BigInteger.pow` for k >= 0: a positive base has a positive power, a nonzero base a nonzero power, and 0^k = 0 for k > 0 |
| `NumberTheory.CoprimePowers` | src/RatNum.java:197-198 | powers of coprime numbers are coprime |
| `JavaNumbers.TruncDiv` | src/RatNum.java:183 | `BigInteger.divide` by a positive divisor rounds toward zero |
| `JavaNumbers.ToInt32` | src/RatNum.java:65 | `intValue()` keeps the value modulo 2^32 and is the identity on `int` range |
| `JavaNumbers.JavaAbs` | src/RatNum.java:94-95 | `Math.abs` is the magnitude, except that `Integer.MIN_VALUE` maps to itself |
| `JavaNumbers.JavaRem` | src/RatNum.java:96 | Java `%`: remainder smaller than the divisor, with the dividend's sign, differing from it by a multiple of the divisor |
| `JavaNumbers.IntToString` | src/RatNum.java:110 | the decimal rendering of a `BigInteger` is nonempty, contains no '/', and starts with '-' exactly for a negative number |
| `JavaNumbers.ParseIntToString` | src/RatNum.java:110 | the decimal rendering of an integer reads back to that integer |

## Left out

- `Object.equals` plumbing: the `this == r` shortcut, the `null` check and the `getClass` check (src/RatNum.java:119-120). `Equals` compares two `Rat` values directly.
- `null` arguments: the copy constructor, `lessThan`, `add`, `sub`, `mul` and `div` throw `NullPointerException` on a `null` argument (src/RatNum.java:56, 132, 141, 152, 163, 174). Every argument of the model is a `Rat` value, which cannot be `null`, so this exception is not modelled.
- Exception messages and Java's exception classes are kept only as the three `Error` values.
- `BigInteger` internals: `gcd`, `divide`, `multiply` and `pow` are their mathematical definitions, not the library's algorithms.
- Object identity and aliasing: the copy constructor shares the two `BigInteger` objects. That cannot be observed because `BigInteger` is immutable, so values stand for objects.
- `StaticGcd` computes `Math.abs` on unbounded integers, so it does not reproduce the `Integer.MIN_VALUE` overflow, and its result for `gcd(MIN_VALUE, MIN_VALUE)`, 2^31, does not fit in an `int`. `GcdAsWritten` keeps the overflow (see Findings).

## Findings

| source | as written | input that shows it | evidently intended | confidence | as-written member | corrected member |
|---|---|---|---|---|---|---|
| src/RatNum.java:94-102 | `Math.abs(Integer.MIN_VALUE)` stays negative, and `%` then keeps the negative sign through the loop. A wrong result needs an `Integer.MIN_VALUE` argument (for all other nonzero arguments the result is the gcd), and only its sign can be wrong (its magnitude is always the gcd) | `gcd(Integer.MIN_VALUE, 6)` returns -2; `gcd(Integer.MIN_VALUE, Integer.MIN_VALUE)` returns `Integer.MIN_VALUE`, whose gcd 2^31 has no `int` value at all | the non-negative gcd promised at line 78, here 2 | high (not executed) | `RatNum.GcdAsWritten`, `RatNum.GcdAsWrittenMinValue` | `RatNum.StaticGcd` |
