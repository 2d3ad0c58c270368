/** The Java numeric primitives that `RatNum` relies on, written out over
    mathematical integers: the 32-bit `int` type and its wrap-around
    (`BigInteger.intValue`, `Math.abs`), Java's truncating `%` on `int`,
    `BigInteger.divide` (which rounds toward zero, unlike Dafny's Euclidean
    `/`) and the decimal rendering of `BigInteger.toString`. */
module JavaNumbers {

  import opened NumberTheory

  const Two32: int := 0x1_0000_0000
  const MinInt: int := -0x8000_0000
  const MaxInt: int := 0x7fff_ffff

  /** Java's `int`. */
  newtype int32 = x: int | -0x8000_0000 <= x < 0x8000_0000

  predicate InInt32(x: int)
  {
    MinInt <= x <= MaxInt
  }

  /** `BigInteger.intValue()` and every other narrowing to `int`: keep the low
      32 bits, read as two's complement. */
  function ToInt32(x: int): (r: int32)
    ensures (r as int - x) % Two32 == 0
    ensures InInt32(x) ==> r as int == x
  {
    var low := x % Two32;
    if low <= MaxInt then low as int32 else (low - Two32) as int32
  }

  /** `BigInteger.divide` for a positive divisor: the quotient rounded toward
      zero. The remainder keeps the sign of the dividend and is smaller than
      the divisor in magnitude. */
  function TruncDiv(a: int, b: int): (q: int)
    requires b > 0
    ensures a >= 0 ==> 0 <= a - b * q < b
    ensures a < 0 ==> -b < a - b * q <= 0
  {
    if a >= 0 then a / b else -((-a) / b)
  }

  /** Java's `%` on `int`: the remainder keeps the sign of the dividend, is
      smaller than the divisor in magnitude and differs from the dividend by a
      multiple of the divisor. */
  function JavaRem(a: int32, b: int32): (r: int32)
    requires b != 0
    ensures Abs(r as int) < Abs(b as int)
    ensures a >= 0 ==> r >= 0
    ensures a < 0 ==> r <= 0
    ensures Divides(Abs(b as int), (a as int) - (r as int))
  {
    TruncRem(a as int, Abs(b as int)) as int32
  }

  /** Remainder of the division rounded toward zero by a positive divisor. */
  function TruncRem(x: int, m: nat): (r: int)
    requires m > 0
    ensures Abs(r) < m
    ensures x >= 0 ==> r >= 0
    ensures x < 0 ==> r <= 0
    ensures Divides(m, x - r)
  {
    if x >= 0 then
      assert x - x % m == m * (x / m);
      DividesProduct(m, x / m);
      x % m
    else
      assert x + (-x) % m == m * (-((-x) / m));
      DividesProduct(m, -((-x) / m));
      -((-x) % m)
  }

  /** `Math.abs` on `int`: `-x` wrapped to 32 bits, so that
      `Math.abs(Integer.MIN_VALUE)` is `Integer.MIN_VALUE` itself. */
  function JavaAbs(x: int32): (r: int32)
    ensures x as int != MinInt ==> r as int == Abs(x as int)
    ensures x as int == MinInt ==> r == x
  {
    if x < 0 then ToInt32(-(x as int)) else x
  }

  // ---------------------------------------------------------------------------
  // Decimal rendering, as `BigInteger.toString()` does it

  function DigitChar(d: int): (c: char)
    requires 0 <= d < 10
    ensures '0' <= c <= '9' && (c as int) - ('0' as int) == d
  {
    ((('0' as int) + d) as char)
  }

  predicate IsDigits(s: string)
  {
    forall i :: 0 <= i < |s| ==> '0' <= s[i] <= '9'
  }

  /** Decimal digits of a natural number, most significant first, with no
      leading zero. */
  function NatToString(n: nat): (s: string)
    ensures |s| > 0 && IsDigits(s)
    ensures s[0] == '0' ==> n == 0
    decreases n
  {
    if n < 10 then [DigitChar(n)] else NatToString(n / 10) + [DigitChar(n % 10)]
  }

  /** Decimal rendering of an integer: a `-` sign before the digits of a
      negative number. */
  function IntToString(i: int): (s: string)
    ensures |s| > 0 && '/' !in s
    ensures i < 0 <==> s[0] == '-'
  {
    if i < 0 then "-" + NatToString(-i) else NatToString(i)
  }

  /** Value of a string of decimal digits. */
  function ParseNat(s: string): nat
    requires IsDigits(s)
  {
    if s == [] then 0
    else ParseNat(s[..|s| - 1]) * 10 + ((s[|s| - 1] as int) - ('0' as int))
  }

  function ParseInt(s: string): int
    requires |s| > 0 && (if s[0] == '-' then IsDigits(s[1..]) else IsDigits(s))
  {
    if s[0] == '-' then -(ParseNat(s[1..]) as int) else ParseNat(s)
  }

  lemma {:induction false} ParseNatToString(n: nat)
    ensures ParseNat(NatToString(n)) == n
    decreases n
  {
    var s := NatToString(n);
    if n >= 10 {
      ParseNatToString(n / 10);
      assert s[..|s| - 1] == NatToString(n / 10);
    }
  }

  /** `s` is an optionally signed decimal numeral whose value is `i`. */
  predicate ReadsAs(s: string, i: int)
  {
    |s| > 0 && (if s[0] == '-' then IsDigits(s[1..]) else IsDigits(s)) && ParseInt(s) == i
  }

  /** Reading back the decimal rendering of an integer gives the integer. */
  lemma ParseIntToString(i: int)
    ensures ReadsAs(IntToString(i), i)
  {
    if i < 0 {
      ParseNatToString(-i);
      assert IntToString(i)[1..] == NatToString(-i);
    } else {
      ParseNatToString(i);
    }
  }

  lemma IntToStringInjective(i: int, j: int)
    requires IntToString(i) == IntToString(j)
    ensures i == j
  {
    ParseIntToString(i);
    ParseIntToString(j);
  }
}
