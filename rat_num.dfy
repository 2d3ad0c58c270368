/** An exact rational number kept as a numerator/denominator pair of unbounded
    integers (the `RatNum` class). Every object goes through the normalising
    constructor, so the pair is always in canonical form: positive
    denominator, lowest terms. */
module RatNum {

  import opened NumberTheory
  import opened JavaNumbers

  /** The exceptions the class can raise. */
  datatype Error =
    | NumberFormat     // NumberFormatException("Denominator = 0") from the normalising constructor
    | IllegalArgument  // IllegalArgumentException from the static gcd when both arguments are 0
    | Arithmetic       // ArithmeticException from BigInteger.pow on a negative exponent

  datatype Result<T> = Ok(value: T) | Err(error: Error)

  /** The two `BigInteger` fields of a `RatNum`. */
  datatype Rat = Rat(num: int, den: int)

  /** The class invariant: the denominator is positive and the pair is in
      lowest terms (so zero is stored as 0/1). */
  predicate Valid(x: Rat)
  {
    x.den > 0 && Coprime(Abs(x.num), x.den)
  }

  /** `x` stands for the same fraction as `n/d`. */
  predicate Denotes(x: Rat, n: int, d: int)
  {
    x.num * d == n * x.den
  }

  // ---------------------------------------------------------------------------
  // Construction

  /** The private constructor `RatNum(BigInteger n, BigInteger d)`: reject a
      zero denominator, divide both parts by their gcd (which is positive as
      `d != 0`), and negate both when the original `d` is negative. */
  function Normalize(n: int, d: int): (r: Result<Rat>)
    ensures r.Err? <==> d == 0
    ensures r.Err? ==> r.error == NumberFormat
    ensures r.Ok? ==> Valid(r.value) && Denotes(r.value, n, d)
  {
    if d == 0 then Err(NumberFormat)
    else
      var m := Gcd(Abs(n), Abs(d));
      ReducedCoprime(Abs(n), Abs(d));
      ReducedPairSound(n, d, m);
      if d < 0 then Ok(Rat(-TruncDiv(n, m), -TruncDiv(d, m)))
      else Ok(Rat(TruncDiv(n, m), TruncDiv(d, m)))
  }

  lemma ReducedPairSound(n: int, d: int, m: nat)
    requires d != 0 && m > 0
    requires Divides(m, Abs(n)) && Divides(m, Abs(d)) && Coprime(Abs(n) / m, Abs(d) / m)
    ensures var r := if d < 0 then Rat(-TruncDiv(n, m), -TruncDiv(d, m))
                     else Rat(TruncDiv(n, m), TruncDiv(d, m));
      Valid(r) && Denotes(r, n, d)
  {
    var p, q := Abs(n) / m, Abs(d) / m;
    NonNegQuotient(Abs(n), m);
    NonNegQuotient(Abs(d), m);
    assert Abs(d) == m * q;
    assert q > 0;
    var s := TruncDiv(n, m);
    assert Abs(s) == p && n == m * s;
    var t := TruncDiv(d, m);
    assert d < 0 ==> t == -q && d == m * t;
    assert d > 0 ==> t == q && d == m * t;
    ScaledCross(m, s, t);
    if d < 0 {
      assert Rat(-s, -t).num * d == n * Rat(-s, -t).den;
    }
  }

  lemma ScaledCross(m: int, s: int, t: int)
    ensures s * (m * t) == (m * s) * t
    ensures (-s) * (m * t) == (m * s) * (-t)
  {
  }

  /** The no-argument constructor `RatNum()`: the value 0/1. */
  function Zero(): (r: Rat)
    ensures Valid(r) && Denotes(r, 0, 1)
  {
    Rat(0, 1)
  }

  /** The constructor `RatNum(int n)`: the value n/1. */
  function FromInt(n: int32): (r: Rat)
    ensures Valid(r) && Denotes(r, n as int, 1)
  {
    assert Gcd(Abs(n as int), 1) == Gcd(1, 0);
    Rat(n as int, 1)
  }

  /** The constructor `RatNum(int n, int d)`, which widens both arguments and
      normalises them. */
  function FromPair(n: int32, d: int32): (r: Result<Rat>)
    ensures r.Err? <==> d == 0
    ensures r.Err? ==> r.error == NumberFormat
    ensures r.Ok? ==> Valid(r.value) && Denotes(r.value, n as int, d as int)
  {
    Normalize(n as int, d as int)
  }

  /** The copy constructor `RatNum(RatNum r)`. */
  function Copy(x: Rat): (r: Rat)
    ensures r == x
  {
    Rat(x.num, x.den)
  }

  /** `getNumerator()`: the numerator narrowed to `int`. */
  function GetNumerator(x: Rat): (r: int32)
    ensures (r as int - x.num) % Two32 == 0
    ensures InInt32(x.num) ==> r as int == x.num
  {
    ToInt32(x.num)
  }

  /** `getDenominator()`: the denominator narrowed to `int`. */
  function GetDenominator(x: Rat): (r: int32)
    ensures (r as int - x.den) % Two32 == 0
    ensures InInt32(x.den) ==> r as int == x.den
  {
    ToInt32(x.den)
  }

  // ---------------------------------------------------------------------------
  // Canonical form

  /** Two canonical pairs that stand for the same fraction are the same pair. */
  lemma CanonicalUnique(x: Rat, y: Rat)
    requires Valid(x) && Valid(y) && Denotes(x, y.num, y.den)
    ensures x == y
  {
    AbsCross(x.num, x.den, y.num, y.den);
    CoprimeCrossSameDenominator(Abs(x.num), x.den, Abs(y.num), y.den);
    CancelMul(x.num, y.num, y.den);
  }

  lemma AbsCross(a: int, b: int, c: int, d: int)
    requires b > 0 && d > 0 && a * d == c * b
    ensures Abs(a) * d == Abs(c) * b
  {
    AbsMul(a, d);
    AbsMul(c, b);
  }

  /** p/b = q/d with both fractions in lowest terms forces b = d. */
  lemma CoprimeCrossSameDenominator(p: nat, b: nat, q: nat, d: nat)
    requires b > 0 && d > 0 && Coprime(p, b) && Coprime(q, d)
    requires p * d == q * b
    ensures b == d
  {
    DividesProduct(b, q);
    assert Divides(b, p * d);
    Euclid(p, b, d);
    DividesProduct(d, p);
    assert Divides(d, q * b);
    Euclid(q, d, b);
    DividesAntisymmetric(b, d);
  }

  /** Normalisation is idempotent: a canonical pair is its own normal form. */
  lemma NormalizeIdempotent(x: Rat)
    requires Valid(x)
    ensures Normalize(x.num, x.den) == Ok(x)
  {
    CanonicalUnique(Normalize(x.num, x.den).value, x);
  }

  /** Two pairs normalise to the same value exactly when they stand for the
      same fraction. */
  lemma NormalizeRespectsValue(n: int, d: int, n': int, d': int)
    requires d != 0 && d' != 0
    ensures Normalize(n, d) == Normalize(n', d') <==> n * d' == n' * d
  {
    var r, r' := Normalize(n, d).value, Normalize(n', d').value;
    if n * d' == n' * d {
      CrossMultiply(r.num, r.den, r'.num, r'.den, n, d, n', d');
      CanonicalUnique(r, r');
    }
    if Normalize(n, d) == Normalize(n', d') {
      SharedValue(r.num, r.den, n, d, n', d');
    }
  }

  /** If rn/rd = n/d, rn'/rd' = n'/d' and n/d = n'/d', then rn/rd = rn'/rd'. */
  lemma CrossMultiply(rn: int, rd: int, rn': int, rd': int, n: int, d: int, n': int, d': int)
    requires d != 0 && d' != 0
    requires rn * d == n * rd && rn' * d' == n' * rd' && n * d' == n' * d
    ensures rn * rd' == rn' * rd
  {
    calc {
      (rn * rd') * (d * d');
      (rn * d) * (rd' * d');
      (n * rd) * (rd' * d');
      (n * d') * (rd * rd');
      (n' * d) * (rd * rd');
      (n' * rd') * (rd * d);
      (rn' * d') * (rd * d);
      (rn' * rd) * (d * d');
    }
    MulNonZero(d, d');
    CancelMul(rn * rd', rn' * rd, d * d');
  }

  /** If rn/rd = n/d and rn/rd = n'/d' with rd nonzero, then n/d = n'/d'. */
  lemma SharedValue(rn: int, rd: int, n: int, d: int, n': int, d': int)
    requires rd != 0 && rn * d == n * rd && rn * d' == n' * rd
    ensures n * d' == n' * d
  {
    calc {
      (n * d') * rd;
      (n * rd) * d';
      (rn * d) * d';
      (rn * d') * d;
      (n' * rd) * d;
      (n' * d) * rd;
    }
    CancelMul(n * d', n' * d, rd);
  }

  /** The public constructors agree with the normalising one: `RatNum()` and
      `RatNum(int n)` store the canonical pairs of 0/1 and n/1, and the copy
      constructor keeps a canonical pair canonical. */
  lemma ConstructorsCanonical(n: int32, x: Rat)
    requires Valid(x)
    ensures Normalize(0, 1) == Ok(Zero())
    ensures Normalize(n as int, 1) == Ok(FromInt(n))
    ensures Valid(Copy(x)) && Normalize(Copy(x).num, Copy(x).den) == Ok(x)
  {
    NormalizeIdempotent(Zero());
    NormalizeIdempotent(FromInt(n));
    NormalizeIdempotent(x);
  }

  lemma NormalizeExamples()
    ensures Normalize(3, -9) == Ok(Rat(-1, 3))
    ensures Normalize(2, 4) == Ok(Rat(1, 2))
    ensures Normalize(3, 0) == Err(NumberFormat)
  {
    assert Gcd(3, 9) == 3 by {
      assert Gcd(3, 9) == Gcd(9, 3) == Gcd(3, 0);
    }
    assert Gcd(2, 4) == 2 by {
      assert Gcd(2, 4) == Gcd(4, 2) == Gcd(2, 0);
    }
  }

  // ---------------------------------------------------------------------------
  // Comparison

  /** `equals`: component-wise comparison of the stored pairs, so two values
      are equal exactly when they store the same pair. */
  function Equals(x: Rat, y: Rat): (r: bool)
    ensures r <==> x == y
    ensures r ==> x.num * y.den == y.num * x.den
  {
    x.num == y.num && x.den == y.den
  }

  /** On canonical values, component-wise equality is numeric equality. */
  lemma EqualsIsNumericEquality(x: Rat, y: Rat)
    requires Valid(x) && Valid(y)
    ensures Equals(x, y) <==> x.num * y.den == y.num * x.den
  {
    if x.num * y.den == y.num * x.den {
      CanonicalUnique(x, y);
    }
  }

  /** `lessThan`: cross-multiplication, sound because both denominators are
      positive. Over a common positive denominator it compares numerators, and
      against a zero numerator it is a sign test. */
  function LessThan(x: Rat, y: Rat): (r: bool)
    ensures x.den == y.den && x.den > 0 ==> (r <==> x.num < y.num)
    ensures y.num == 0 && y.den > 0 ==> (r <==> x.num < 0)
    ensures x.num == 0 && x.den > 0 ==> (r <==> y.num > 0)
  {
    CompareScaled(x.num, y.num, x.den);
    SignScaled(x.num, y.den);
    SignScaled(y.num, x.den);
    x.num * y.den < y.num * x.den
  }

  lemma CompareScaled(a: int, c: int, d: int)
    ensures d > 0 ==> (a * d < c * d <==> a < c)
  {
    if d > 0 {
      if a < c {
        MulStrictMono(d, a, c);
      } else if c < a {
        MulStrictMono(d, c, a);
      }
    }
  }

  lemma SignScaled(a: int, d: int)
    ensures d > 0 ==> (a * d < 0 <==> a < 0) && (a * d > 0 <==> a > 0)
  {
    if d > 0 {
      CompareScaled(a, 0, d);
      CompareScaled(0, a, d);
    }
  }

  lemma LessThanIrreflexive(x: Rat)
    ensures !LessThan(x, x)
  {
  }

  lemma LessThanAsymmetric(x: Rat, y: Rat)
    requires LessThan(x, y)
    ensures !LessThan(y, x)
  {
  }

  lemma LessThanTransitive(x: Rat, y: Rat, z: Rat)
    requires Valid(x) && Valid(y) && Valid(z)
    requires LessThan(x, y) && LessThan(y, z)
    ensures LessThan(x, z)
  {
    CrossTransitive(x.num, x.den, y.num, y.den, z.num, z.den);
  }

  /** a/b < c/d and c/d < e/f give a/b < e/f, for positive b, d, f. */
  lemma CrossTransitive(a: int, b: int, c: int, d: int, e: int, f: int)
    requires b > 0 && d > 0 && f > 0
    requires a * d < c * b && c * f < e * d
    ensures a * f < e * b
  {
    MulStrictMono(f, a * d, c * b);
    MulStrictMono(b, c * f, e * d);
    calc {
      (a * f) * d;
      f * (a * d);
    <
      f * (c * b);
      b * (c * f);
    <
      b * (e * d);
      (e * b) * d;
    }
    if a * f >= e * b {
      MulNonNeg(d, a * f - e * b);
      assert false;
    }
  }

  /** Exactly one of `x < y`, `x equals y`, `y < x` holds on canonical values. */
  lemma Trichotomy(x: Rat, y: Rat)
    requires Valid(x) && Valid(y)
    ensures LessThan(x, y) || Equals(x, y) || LessThan(y, x)
    ensures !(LessThan(x, y) && Equals(x, y))
    ensures !(LessThan(y, x) && Equals(x, y))
    ensures !(LessThan(x, y) && LessThan(y, x))
  {
    EqualsIsNumericEquality(x, y);
  }

  lemma LessThanExamples()
    ensures LessThan(Rat(1, 2), Rat(2, 3))
    ensures !LessThan(Rat(2, 3), Rat(1, 2))
  {
  }

  // ---------------------------------------------------------------------------
  // Arithmetic

  lemma DenominatorProduct(x: Rat, y: Rat)
    requires Valid(x) && Valid(y)
    ensures x.den * y.den > 0
  {
    MulStrictMono(x.den, 0, y.den);
  }

  lemma DivisorProduct(x: Rat, y: Rat)
    requires Valid(x)
    ensures x.den * y.num == 0 <==> y.num == 0
  {
    if y.num != 0 {
      MulNonZero(x.den, y.num);
    }
  }

  /** `add`: (a*d + c*b) / (b*d), normalised. */
  function Add(x: Rat, y: Rat): (r: Result<Rat>)
    requires Valid(x) && Valid(y)
    ensures r.Ok? && Valid(r.value)
    ensures Denotes(r.value, x.num * y.den + y.num * x.den, x.den * y.den)
  {
    DenominatorProduct(x, y);
    Normalize(x.num * y.den + y.num * x.den, x.den * y.den)
  }

  /** `sub`: (a*d - c*b) / (b*d), normalised. */
  function Sub(x: Rat, y: Rat): (r: Result<Rat>)
    requires Valid(x) && Valid(y)
    ensures r.Ok? && Valid(r.value)
    ensures Denotes(r.value, x.num * y.den - y.num * x.den, x.den * y.den)
  {
    DenominatorProduct(x, y);
    Normalize(x.num * y.den - y.num * x.den, x.den * y.den)
  }

  /** `mul`: (a*c) / (b*d), normalised. */
  function Mul(x: Rat, y: Rat): (r: Result<Rat>)
    requires Valid(x) && Valid(y)
    ensures r.Ok? && Valid(r.value)
    ensures Denotes(r.value, x.num * y.num, x.den * y.den)
  {
    DenominatorProduct(x, y);
    Normalize(x.num * y.num, x.den * y.den)
  }

  /** `div`: (a*d) / (b*c), normalised; the new denominator b*c is zero
      exactly when the divisor is zero, and a negative one is moved to the
      numerator by the normalisation. */
  function Div(x: Rat, y: Rat): (r: Result<Rat>)
    requires Valid(x) && Valid(y)
    ensures r.Err? <==> y.num == 0
    ensures r.Err? ==> r.error == NumberFormat
    ensures r.Ok? ==> Valid(r.value) && Denotes(r.value, x.num * y.den, x.den * y.num)
  {
    DivisorProduct(x, y);
    Normalize(x.num * y.den, x.den * y.num)
  }

  lemma AddCommutes(x: Rat, y: Rat)
    requires Valid(x) && Valid(y)
    ensures Add(x, y) == Add(y, x)
  {
  }

  lemma MulCommutes(x: Rat, y: Rat)
    requires Valid(x) && Valid(y)
    ensures Mul(x, y) == Mul(y, x)
  {
  }

  lemma AddZero(x: Rat)
    requires Valid(x)
    ensures Add(x, Zero()) == Ok(x)
  {
    NormalizeIdempotent(x);
  }

  lemma MulOne(x: Rat)
    requires Valid(x)
    ensures Mul(x, FromInt(1)) == Ok(x)
  {
    NormalizeIdempotent(x);
  }

  lemma SubSelf(x: Rat)
    requires Valid(x)
    ensures Sub(x, x) == Ok(Zero())
  {
    DenominatorProduct(x, x);
    NormalizeRespectsValue(x.num * x.den - x.num * x.den, x.den * x.den, 0, 1);
    NormalizeIdempotent(Zero());
  }

  lemma DivSelf(x: Rat)
    requires Valid(x) && x.num != 0
    ensures Div(x, x) == Ok(FromInt(1))
  {
    MulNonZero(x.den, x.num);
    NormalizeRespectsValue(x.num * x.den, x.den * x.num, 1, 1);
    NormalizeIdempotent(FromInt(1));
  }

  /** Subtracting what was added gives back the original value. */
  lemma SubUndoesAdd(x: Rat, y: Rat)
    requires Valid(x) && Valid(y)
    ensures Sub(Add(x, y).value, y) == Ok(x)
  {
    var z := Add(x, y).value;
    DenominatorProduct(z, y);
    SumMinusPart(z.num, z.den, x.num, x.den, y.num, y.den);
    NormalizeRespectsValue(z.num * y.den - y.num * z.den, z.den * y.den, x.num, x.den);
    NormalizeIdempotent(x);
  }

  /** If zn/zd = (a*d + c*b)/(b*d) then (zn*d - c*zd)/(zd*d) = a/b. */
  lemma SumMinusPart(zn: int, zd: int, a: int, b: int, c: int, d: int)
    requires zn * (b * d) == (a * d + c * b) * zd
    ensures (zn * d - c * zd) * b == a * (zd * d)
  {
    calc {
      (zn * d - c * zd) * b;
      zn * (b * d) - (c * b) * zd;
      (a * d + c * b) * zd - (c * b) * zd;
      a * (zd * d);
    }
  }

  /** Dividing by a nonzero factor undoes multiplying by it. */
  lemma DivUndoesMul(x: Rat, y: Rat)
    requires Valid(x) && Valid(y) && y.num != 0
    ensures Div(Mul(x, y).value, y) == Ok(x)
  {
    var z := Mul(x, y).value;
    MulNonZero(z.den, y.num);
    ProductOverPart(z.num, z.den, x.num, x.den, y.num, y.den);
    NormalizeRespectsValue(z.num * y.den, z.den * y.num, x.num, x.den);
    NormalizeIdempotent(x);
  }

  /** If zn/zd = (a*c)/(b*d) then (zn*d)/(zd*c) = a/b. */
  lemma ProductOverPart(zn: int, zd: int, a: int, b: int, c: int, d: int)
    requires zn * (b * d) == (a * c) * zd
    ensures (zn * d) * b == a * (zd * c)
  {
    calc {
      (zn * d) * b;
      zn * (b * d);
      (a * c) * zd;
      a * (zd * c);
    }
  }

  /** `x < y` exactly when `y - x` has a positive numerator. */
  lemma LessThanIffDifferencePositive(x: Rat, y: Rat)
    requires Valid(x) && Valid(y)
    ensures LessThan(x, y) <==> Sub(y, x).value.num > 0
  {
    var r := Sub(y, x).value;
    var t := y.num * x.den - x.num * y.den;
    // r.num * (y.den * x.den) == t * r.den
    DenominatorProduct(y, x);
    if t > 0 {
      MulStrictMono(r.den, 0, t);
      if r.num <= 0 {
        MulNonNeg(-r.num, y.den * x.den);
        assert false;
      }
    } else {
      MulNonNeg(r.den, -t);
      if r.num > 0 {
        MulStrictMono(y.den * x.den, 0, r.num);
        assert false;
      }
    }
  }

  lemma ArithmeticExamples()
    ensures Add(Rat(1, 2), Rat(1, 3)) == Ok(Rat(5, 6))
    ensures Div(Rat(1, 2), Rat(0, 1)) == Err(NumberFormat)
  {
    assert Valid(Rat(1, 2)) && Valid(Rat(1, 3)) by {
      assert Gcd(1, 2) == Gcd(2, 1) == Gcd(1, 0);
      assert Gcd(1, 3) == Gcd(3, 1) == Gcd(1, 0);
    }
    assert Valid(Rat(0, 1)) && Valid(Rat(5, 6)) by {
      assert Gcd(0, 1) == Gcd(1, 0);
      assert Gcd(5, 6) == Gcd(6, 5) == Gcd(5, 1) == Gcd(1, 0);
    }
    CanonicalUnique(Add(Rat(1, 2), Rat(1, 3)).value, Rat(5, 6));
  }

  // ---------------------------------------------------------------------------
  // Integer part and powers

  /** `intPart`: the quotient rounded toward zero (`BigInteger.divide`),
      narrowed to `int`. */
  function IntPart(x: Rat): (r: int32)
    requires Valid(x)
    ensures (r as int - TruncDiv(x.num, x.den)) % Two32 == 0
    ensures InInt32(TruncDiv(x.num, x.den)) ==>
      (x.num >= 0 ==> 0 <= x.num - x.den * (r as int) < x.den) &&
      (x.num < 0 ==> -x.den < x.num - x.den * (r as int) <= 0)
  {
    ToInt32(TruncDiv(x.num, x.den))
  }

  lemma IntPartExamples()
    ensures IntPart(Rat(7, 2)) == 3
    ensures IntPart(Rat(-7, 2)) == -3
  {
    assert Valid(Rat(7, 2)) && Valid(Rat(-7, 2)) by {
      assert Gcd(7, 2) == Gcd(2, 1) == Gcd(1, 0);
    }
  }

  /** `pow(k)`: 1/1 when `k == 0` whatever the base; `BigInteger.pow` rejects a
      negative exponent; otherwise num^k/den^k, which is already canonical. */
  function Pow(x: Rat, k: int32): (r: Result<Rat>)
    requires Valid(x)
    ensures k == 0 ==> r == Ok(FromInt(1))
    ensures k < 0 ==> r == Err(Arithmetic)
    ensures k > 0 ==> r == Ok(Rat(Power(x.num, k as int), Power(x.den, k as int)))
    ensures r.Ok? ==> Valid(r.value)
  {
    if k == 0 then
      NormalizeIdempotent(FromInt(1));
      Normalize(1, 1)
    else if k < 0 then
      Err(Arithmetic)
    else
      PowerPreservesCanonical(x, k as int);
      Normalize(Power(x.num, k as int), Power(x.den, k as int))
  }

  /** Raising both parts of a canonical pair to the same power keeps it
      canonical. */
  lemma PowerPreservesCanonical(x: Rat, k: nat)
    requires Valid(x)
    ensures Valid(Rat(Power(x.num, k), Power(x.den, k)))
    ensures Normalize(Power(x.num, k), Power(x.den, k)) == Ok(Rat(Power(x.num, k), Power(x.den, k)))
  {
    PowerAbs(x.num, k);
    CoprimePowers(Abs(x.num), x.den, k);
    NormalizeIdempotent(Rat(Power(x.num, k), Power(x.den, k)));
  }

  lemma PowExamples(x: Rat)
    requires Valid(x)
    ensures Pow(x, 0) == Ok(Rat(1, 1))
    ensures Pow(Rat(2, 3), 2) == Ok(Rat(4, 9))
    ensures Pow(Rat(0, 1), 0) == Ok(Rat(1, 1))
  {
    assert Valid(Rat(2, 3)) by {
      assert Gcd(2, 3) == Gcd(3, 2) == Gcd(2, 1) == Gcd(1, 0);
    }
    assert Valid(Rat(0, 1)) by {
      assert Gcd(0, 1) == Gcd(1, 0);
    }
  }

  // ---------------------------------------------------------------------------
  // The static gcd

  /** The static `gcd(int m, int n)`, with `Math.abs` taken on unbounded
      integers. Both arguments zero is an error; a zero argument returns the
      other one unchanged, sign included; otherwise Euclid's loop runs on the
      magnitudes and returns their greatest common divisor. */
  method StaticGcd(m: int32, n: int32) returns (r: Result<int>)
    ensures r.Err? <==> m == 0 && n == 0
    ensures r.Err? ==> r.error == IllegalArgument
    ensures m == 0 && n != 0 ==> r == Ok(n as int)
    ensures m != 0 && n == 0 ==> r == Ok(m as int)
    ensures m != 0 && n != 0 ==>
      r.Ok? && r.value > 0 && r.value == Gcd(Abs(m as int), Abs(n as int)) &&
      Divides(r.value, m as int) && Divides(r.value, n as int) &&
      forall k: nat :: Divides(k, m as int) && Divides(k, n as int) ==> Divides(k, r.value)
  {
    if m == 0 && n == 0 {
      return Err(IllegalArgument);
    }
    if m == 0 {
      return Ok(n as int);
    }
    if n == 0 {
      return Ok(m as int);
    }
    var a: int := Abs(m as int);
    var b: int := Abs(n as int);
    var rem := a % b;
    while rem != 0
      invariant a > 0 && b > 0 && rem == a % b
      invariant Gcd(a, b) == Gcd(Abs(m as int), Abs(n as int))
      decreases rem
    {
      a := b;
      b := rem;
      rem := a % b;
    }
    assert Gcd(a, b) == Gcd(b, 0) == b;
    var g := Gcd(Abs(m as int), Abs(n as int));
    GcdDivides(Abs(m as int), Abs(n as int));
    DividesAbs(g, m as int);
    DividesAbs(g, n as int);
    forall k: nat | Divides(k, m as int) && Divides(k, n as int)
      ensures Divides(k, g)
    {
      DividesAbs(k, m as int);
      DividesAbs(k, n as int);
      GcdGreatest(Abs(m as int), Abs(n as int), k);
    }
    r := Ok(b);
  }

  /** The static `gcd` as the Java code computes it on 32-bit `int`s, where
      `Math.abs(Integer.MIN_VALUE)` is still negative and `%` keeps the sign
      of the dividend. */
  function GcdAsWritten(m: int32, n: int32): (r: Result<int32>)
    ensures r.Err? <==> m == 0 && n == 0
    ensures r.Err? ==> r.error == IllegalArgument
    ensures m == 0 && n != 0 ==> r == Ok(n)
    ensures m != 0 && n == 0 ==> r == Ok(m)
    ensures m != 0 && n != 0 ==>
      r.Ok? && Abs(r.value as int) == Gcd(Abs(m as int), Abs(n as int))
  {
    if m == 0 && n == 0 then Err(IllegalArgument)
    else if m == 0 then Ok(n)
    else if n == 0 then Ok(m)
    else
      var a, b := JavaAbs(m), JavaAbs(n);
      Ok(EuclidAsWritten(a, b, JavaRem(a, b)))
  }

  /** The `while (r != 0)` loop of the static `gcd` on 32-bit `int`s. Whatever
      the signs, when `rem` differs from `a` by a multiple of `b` (as Java's
      `a % b` does) the loop ends with a number whose magnitude is the gcd of
      the magnitudes; only its sign can differ. */
  function EuclidAsWritten(a: int32, b: int32, rem: int32): (g: int32)
    requires b != 0
    ensures Divides(Abs(b as int), (a as int) - (rem as int)) ==>
      Abs(g as int) == Gcd(Abs(a as int), Abs(b as int))
    decreases Abs(rem as int)
  {
    GcdShift(a as int, b as int, rem as int);
    if rem == 0 then b else EuclidAsWritten(b, rem, JavaRem(b, rem))
  }

  /** On positive operands the 32-bit loop is Euclid's algorithm. */
  lemma {:induction false} EuclidAsWrittenAgrees(a: int32, b: int32, rem: int32)
    requires a > 0 && b > 0 && rem as int == (a as int) % (b as int)
    ensures EuclidAsWritten(a, b, rem) as int == Gcd(a as int, b as int)
    decreases rem
  {
    if rem != 0 {
      EuclidAsWrittenAgrees(b, rem, JavaRem(b, rem));
    }
  }

  /** Away from `Integer.MIN_VALUE` the code as written returns the greatest
      common divisor of the magnitudes. */
  lemma GcdAsWrittenAgrees(m: int32, n: int32)
    requires m != 0 && n != 0 && m as int != MinInt && n as int != MinInt
    ensures GcdAsWritten(m, n).Ok?
    ensures GcdAsWritten(m, n).value as int == Gcd(Abs(m as int), Abs(n as int))
  {
    var a, b := JavaAbs(m), JavaAbs(n);
    EuclidAsWrittenAgrees(a, b, JavaRem(a, b));
  }

  /** `gcd(Integer.MIN_VALUE, 6)` as written returns -2, although the
      greatest common divisor is 2 and the result is documented to be
      non-negative; `gcd(Integer.MIN_VALUE, Integer.MIN_VALUE)` returns
      `Integer.MIN_VALUE` itself. Other arguments next to `Integer.MIN_VALUE`
      can still come out right, as 4 and 7 do. */
  lemma GcdAsWrittenMinValue()
    ensures GcdAsWritten(-0x8000_0000, 6) == Ok(-2)
    ensures Gcd(Abs(MinInt), 6) == 2
    ensures GcdAsWritten(-0x8000_0000, -0x8000_0000) == Ok(-0x8000_0000)
    ensures GcdAsWritten(-0x8000_0000, 4) == Ok(4)
    ensures GcdAsWritten(-0x8000_0000, 7) == Ok(1)
  {
    assert JavaAbs(-0x8000_0000) == -0x8000_0000;
    assert JavaRem(-0x8000_0000, 6) == -2;
    assert JavaRem(6, -2) == 0;
    assert EuclidAsWritten(-0x8000_0000, 6, -2) == EuclidAsWritten(6, -2, 0) == -2;
    assert Gcd(0x8000_0000, 6) == Gcd(6, 2) == Gcd(2, 0) == 2;
    assert JavaRem(-0x8000_0000, -0x8000_0000) == 0;
    assert JavaRem(-0x8000_0000, 4) == 0;
    assert JavaRem(-0x8000_0000, 7) == -2;
    assert JavaRem(7, -2) == 1;
    assert JavaRem(-2, 1) == 0;
    assert EuclidAsWritten(-0x8000_0000, 7, -2) == EuclidAsWritten(7, -2, 1)
      == EuclidAsWritten(-2, 1, 0) == 1;
  }

  // ---------------------------------------------------------------------------
  // String conversion

  /** `toString`: "numerator/denominator" in decimal, with no shortening of a
      "/1" suffix. The one '/' splits the text into two decimal numbers that
      read back as the numerator and the denominator. */
  function ToString(x: Rat): (s: string)
    ensures var k := |IntToString(x.num)|;
      |s| == k + 1 + |IntToString(x.den)| && s[k] == '/' && '/' !in s[..k] && '/' !in s[k + 1..] &&
      ReadsAs(s[..k], x.num) && ReadsAs(s[k + 1..], x.den)
    ensures s[0] == '-' <==> x.num < 0
  {
    var n, d := IntToString(x.num), IntToString(x.den);
    ParseIntToString(x.num);
    ParseIntToString(x.den);
    assert (n + "/" + d)[..|n|] == n;
    assert (n + "/" + d)[|n| + 1..] == d;
    n + "/" + d
  }

  /** Distinct values print differently: the rendering can be read back. */
  lemma ToStringInjective(x: Rat, y: Rat)
    requires ToString(x) == ToString(y)
    ensures x == y
  {
    SplitAtSlash(IntToString(x.num), IntToString(x.den), IntToString(y.num), IntToString(y.den));
    IntToStringInjective(x.num, y.num);
    IntToStringInjective(x.den, y.den);
  }

  lemma SplitAtSlash(s1: string, t1: string, s2: string, t2: string)
    requires '/' !in s1 && '/' !in s2
    requires s1 + "/" + t1 == s2 + "/" + t2
    ensures s1 == s2 && t1 == t2
  {
    var s := s1 + "/" + t1;
    // the first '/' of s sits right after the numerator, whichever split is read
    assert s[|s1|] == '/' && s[|s2|] == '/';
    assert forall i :: 0 <= i < |s1| ==> s[i] == s1[i];
    assert forall i :: 0 <= i < |s2| ==> s[i] == s2[i];
    assert |s1| == |s2|;
    assert s1 == s[..|s1|] == s2;
    assert t1 == s[|s1| + 1..] == t2;
  }

  lemma ToStringExample()
    ensures ToString(Rat(5, 6)) == "5/6"
    ensures ToString(Rat(-12, 1)) == "-12/1"
  {
  }
}
