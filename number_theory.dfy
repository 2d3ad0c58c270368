/** Greatest common divisors, divisibility and powers on mathematical integers.
    These are the definitions that stand in for `BigInteger.gcd` and
    `BigInteger.pow`, together with the facts about them that canonical
    fractions rely on (Euclid's lemma, coprimality of powers). */
module NumberTheory {

  function Abs(x: int): nat
  {
    if x < 0 then -x else x
  }

  /** `k` is a (positive) divisor of `x`. */
  predicate Divides(k: nat, x: int)
  {
    k > 0 && x % k == 0
  }

  /** Euclid's algorithm on magnitudes; `BigInteger.gcd(a, b)` is `Gcd(Abs(a), Abs(b))`,
      and in particular `Gcd(0, 0) == 0`. */
  function Gcd(a: nat, b: nat): (g: nat)
    ensures g == 0 <==> a == 0 && b == 0
    decreases b
  {
    if b == 0 then a else Gcd(b, a % b)
  }

  /** Integer power with a natural exponent; `BigInteger.pow(k)` for `k >= 0`.
      A positive base has a positive power and a nonzero base a nonzero one. */
  function Power(b: int, k: nat): (p: int)
    ensures b > 0 ==> p > 0
    ensures b != 0 ==> p != 0
    ensures b == 0 && k > 0 ==> p == 0
  {
    if k == 0 then 1
    else
      var q := Power(b, k - 1);
      MulSigns(b, q);
      b * q
  }

  predicate Coprime(a: nat, b: nat)
  {
    Gcd(a, b) == 1
  }

  // ---------------------------------------------------------------------------
  // Arithmetic helpers

  lemma DivModUnique(x: int, k: int, q: int, r: int)
    requires k > 0 && x == k * q + r && 0 <= r < k
    ensures x / k == q && x % k == r
  {
    var q0, r0 := x / k, x % k;
    assert k * (q - q0) == r0 - r;
    if q - q0 >= 1 {
      MulAtLeast(k, q - q0);
      assert false;
    } else if q - q0 <= -1 {
      MulAtLeast(k, q0 - q);
      assert false;
    }
  }

  lemma MulAtLeast(k: int, t: int)
    requires k > 0 && t >= 1
    ensures k * t >= k
  {
    assert k * t == k * (t - 1) + k;
    MulNonNeg(k, t - 1);
  }

  lemma MulNonNeg(x: int, y: int)
    requires x >= 0 && y >= 0
    ensures x * y >= 0
  {
  }

  lemma MulStrictMono(k: int, x: int, y: int)
    requires k > 0 && x < y
    ensures k * x < k * y
  {
    assert k * y == k * x + k * (y - x);
    MulAtLeast(k, y - x);
  }

  lemma CancelMul(x: int, y: int, k: int)
    requires k != 0 && x * k == y * k
    ensures x == y
  {
    assert (x - y) * k == 0;
    if x - y != 0 {
      MulNonZero(x - y, k);
    }
  }

  lemma MulNonZero(x: int, y: int)
    requires x != 0 && y != 0
    ensures x * y != 0
  {
    if x > 0 && y > 0 {
      MulAtLeast(x, y);
    } else if x > 0 {
      MulAtLeast(x, -y);
    } else if y > 0 {
      MulAtLeast(-x, y);
    } else {
      MulAtLeast(-x, -y);
    }
  }

  lemma MulSigns(x: int, y: int)
    ensures x > 0 && y > 0 ==> x * y > 0
    ensures x != 0 && y != 0 ==> x * y != 0
  {
    if x > 0 && y > 0 {
      MulStrictMono(x, 0, y);
    }
    if x != 0 && y != 0 {
      MulNonZero(x, y);
    }
  }

  lemma AbsMul(x: int, y: int)
    ensures Abs(x * y) == Abs(x) * Abs(y)
  {
    if x < 0 && y < 0 {
      assert x * y == (-x) * (-y);
    } else if x < 0 {
      assert x * y == -((-x) * y);
      MulNonNeg(-x, y);
    } else if y < 0 {
      assert x * y == -(x * (-y));
      MulNonNeg(x, -y);
    } else {
      MulNonNeg(x, y);
    }
  }

  // ---------------------------------------------------------------------------
  // Divisibility

  lemma DividesProduct(k: nat, j: int)
    requires k > 0
    ensures Divides(k, k * j)
  {
    DivModUnique(k * j, k, j, 0);
  }

  lemma DividesCombination(k: nat, x: int, y: int, c: int)
    requires Divides(k, x) && Divides(k, y)
    ensures Divides(k, x + c * y)
  {
    var i, j := x / k, y / k;
    assert x == k * i && y == k * j;
    assert x + c * y == k * (i + c * j);
    DividesProduct(k, i + c * j);
  }

  lemma DividesTransitive(a: nat, b: nat, c: int)
    requires Divides(a, b) && Divides(b, c)
    ensures Divides(a, c)
  {
    var i, j := b / a, c / b;
    assert b == a * i && c == b * j;
    assert c == a * (i * j);
    DividesProduct(a, i * j);
  }

  lemma DividesAbs(k: nat, x: int)
    requires k > 0
    ensures Divides(k, x) <==> Divides(k, Abs(x))
  {
    if x < 0 {
      if Divides(k, x) {
        DividesCombination(k, 0, x, -1);
      }
      if Divides(k, Abs(x)) {
        DividesCombination(k, 0, Abs(x), -1);
      }
    }
  }

  /** A divisor of a positive number is no larger than it. */
  lemma DividesBound(k: nat, x: int)
    requires Divides(k, x) && x > 0
    ensures k <= x
  {
    var j := x / k;
    assert x == k * j;
    if j <= 0 {
      MulNonNeg(k, -j);
      assert false;
    }
    MulAtLeast(k, j);
  }

  lemma DividesAntisymmetric(a: nat, b: nat)
    requires Divides(a, b) && Divides(b, a)
    ensures a == b
  {
    DividesBound(a, b);
    DividesBound(b, a);
  }

  /** Replacing `a` by `r`, which differs from it by a multiple of `b`, keeps
      the gcd: the step of Euclid's algorithm, for any remainder convention. */
  lemma GcdShift(a: int, b: int, r: int)
    requires b != 0
    ensures Divides(Abs(b), a - r) ==> Gcd(Abs(a), Abs(b)) == Gcd(Abs(b), Abs(r))
  {
    if Divides(Abs(b), a - r) {
      var g1, g2 := Gcd(Abs(a), Abs(b)), Gcd(Abs(b), Abs(r));
      GcdDivides(Abs(a), Abs(b));
      GcdDivides(Abs(b), Abs(r));
      DividesAbs(g1, a);
      DividesAbs(g1, b);
      DividesAbs(g2, b);
      DividesAbs(g2, r);
      // g1 divides r = a - (a - r)
      DividesTransitive(g1, Abs(b), a - r);
      DividesCombination(g1, a, a - r, -1);
      assert a + (-1) * (a - r) == r;
      DividesAbs(g1, r);
      GcdGreatest(Abs(b), Abs(r), g1);
      // g2 divides a = r + (a - r)
      DividesTransitive(g2, Abs(b), a - r);
      DividesCombination(g2, r, a - r, 1);
      assert r + 1 * (a - r) == a;
      DividesAbs(g2, a);
      GcdGreatest(Abs(a), Abs(b), g2);
      DividesAntisymmetric(g1, g2);
    }
  }

  // ---------------------------------------------------------------------------
  // Greatest common divisor

  lemma {:induction false} GcdDivides(a: nat, b: nat)
    requires a != 0 || b != 0
    ensures Divides(Gcd(a, b), a) && Divides(Gcd(a, b), b)
    decreases b
  {
    if b == 0 {
      DividesProduct(a, 1);
      DividesProduct(a, 0);
    } else {
      var g := Gcd(a, b);
      GcdDivides(b, a % b);
      assert a == a % b + (a / b) * b;
      DividesCombination(g, a % b, b, a / b);
    }
  }

  /** Every common divisor divides the gcd. */
  lemma {:induction false} GcdGreatest(a: nat, b: nat, k: nat)
    requires Divides(k, a) && Divides(k, b)
    ensures Divides(k, Gcd(a, b))
    decreases b
  {
    if b != 0 {
      assert a % b == a + (-(a / b)) * b;
      DividesCombination(k, a, b, -(a / b));
      GcdGreatest(b, a % b, k);
    }
  }

  lemma GcdCommutes(a: nat, b: nat)
    ensures Gcd(a, b) == Gcd(b, a)
  {
    if a != 0 || b != 0 {
      GcdDivides(a, b);
      GcdDivides(b, a);
      GcdGreatest(a, b, Gcd(b, a));
      GcdGreatest(b, a, Gcd(a, b));
      DividesAntisymmetric(Gcd(a, b), Gcd(b, a));
    }
  }

  lemma GcdZeroLeft(b: nat)
    ensures Gcd(0, b) == b
  {
    if b != 0 {
      assert Gcd(0, b) == Gcd(b, 0);
    }
  }

  /** Scaling both arguments scales the gcd. */
  lemma {:induction false} GcdScale(k: nat, a: nat, b: nat)
    requires k > 0
    ensures Gcd(k * a, k * b) == k * Gcd(a, b)
    decreases b
  {
    MulNonNeg(k, a);
    MulNonNeg(k, b);
    if b == 0 {
      assert k * b == 0;
    } else {
      MulStrictMono(k, 0, b);
      assert k * a == (k * b) * (a / b) + k * (a % b);
      MulStrictMono(k, a % b, b);
      MulNonNeg(k, a % b);
      DivModUnique(k * a, k * b, a / b, k * (a % b));
      GcdScale(k, b, a % b);
    }
  }

  /** Dividing both arguments by their gcd leaves a coprime pair. */
  lemma ReducedCoprime(a: nat, b: nat)
    requires a != 0 || b != 0
    ensures Gcd(a, b) > 0 && Divides(Gcd(a, b), a) && Divides(Gcd(a, b), b)
    ensures Coprime(a / Gcd(a, b), b / Gcd(a, b))
  {
    var g := Gcd(a, b);
    GcdDivides(a, b);
    var p, q := a / g, b / g;
    assert g * p == a && g * q == b;
    NonNegQuotient(a, g);
    NonNegQuotient(b, g);
    ScaledGcdIsOne(g, p, q);
  }

  lemma NonNegQuotient(a: nat, g: nat)
    requires g > 0
    ensures a / g >= 0
  {
  }

  lemma ScaledGcdIsOne(g: nat, p: nat, q: nat)
    requires g > 0 && Gcd(g * p, g * q) == g
    ensures Gcd(p, q) == 1
  {
    GcdScale(g, p, q);
    CancelMul(Gcd(p, q), 1, g);
  }

  /** Euclid's lemma: a divisor of a product that is coprime to one factor
      divides the other factor. */
  lemma Euclid(a: nat, b: nat, c: nat)
    requires Coprime(a, b) && Divides(b, a * c)
    ensures Divides(b, c)
  {
    if c == 0 {
      DividesProduct(b, 0);
    } else {
      GcdScale(c, a, b);
      DividesProduct(b, c);
      assert Divides(b, c * b);
      GcdGreatest(c * a, c * b, b);
      assert c * Gcd(a, b) == c;
    }
  }

  /** Coprimality to both factors gives coprimality to their product. */
  lemma CoprimeProduct(a: nat, b: nat, c: nat)
    requires Coprime(a, b) && Coprime(a, c)
    ensures Coprime(a, b * c)
  {
    MulNonNeg(b, c);
    var g := Gcd(a, b * c);
    if a == 0 {
      GcdZeroLeft(b);
      GcdZeroLeft(c);
      GcdZeroLeft(b * c);
    } else {
      GcdDivides(a, b * c);
      var h := Gcd(g, b);
      GcdDivides(g, b);
      DividesTransitive(h, g, a);
      GcdGreatest(a, b, h);
      DividesBound(h, 1);
      GcdCommutes(g, b);
      Euclid(b, g, c);
      GcdGreatest(a, c, g);
      DividesBound(g, 1);
    }
  }

  lemma {:induction false} CoprimePowerRight(a: nat, b: nat, k: nat)
    requires Coprime(a, b)
    ensures Power(b, k) >= 0 && Coprime(a, Power(b, k))
  {
    if k == 0 {
      assert Gcd(a, 1) == Gcd(1, 0);
    } else {
      CoprimePowerRight(a, b, k - 1);
      CoprimeProduct(a, b, Power(b, k - 1));
    }
  }

  /** Powers of coprime numbers are coprime. */
  lemma CoprimePowers(a: nat, b: nat, k: nat)
    requires Coprime(a, b)
    ensures Power(a, k) >= 0 && Power(b, k) >= 0
    ensures Coprime(Power(a, k), Power(b, k))
  {
    GcdCommutes(a, b);
    CoprimePowerRight(b, a, k);
    GcdCommutes(b, Power(a, k));
    CoprimePowerRight(Power(a, k), b, k);
  }

  lemma {:induction false} PowerAbs(b: int, k: nat)
    ensures Abs(Power(b, k)) == Power(Abs(b), k)
  {
    if k > 0 {
      PowerAbs(b, k - 1);
      AbsMul(b, Power(b, k - 1));
    }
  }
}
