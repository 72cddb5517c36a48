/** Elementary number theory over unbounded integers: divisibility, the
    greatest common divisor by Euclid's algorithm, and the least common
    multiple. These are the reference definitions against which the Java
    loops of `IntMath` (gcd and scm) are proved correct, and on which the
    canonical form of `Rational` rests. */
module Divisibility {

  function Abs(x: int): (r: nat)
    ensures r == x || r == -x
  {
    if x < 0 then -x else x
  }

  /** `d` divides `n`. Zero divides only zero. */
  predicate Divides(d: nat, n: int) {
    if d == 0 then n == 0 else n % d == 0
  }

  /** `g` is a greatest common divisor of `a` and `b`: a common divisor that
      every common divisor divides. */
  ghost predicate IsGcd(g: nat, a: int, b: int) {
    && Divides(g, a)
    && Divides(g, b)
    && forall d: nat {:trigger Divides(d, a), Divides(d, b)} :: Divides(d, a) && Divides(d, b) ==> Divides(d, g)
  }

  // ---------------------------------------------------------------------
  // Multiplication and division facts the solver does not find alone
  // ---------------------------------------------------------------------

  lemma MulStrictMono(k: int, x: int, y: int)
    requires k > 0 && x < y
    ensures k * x < k * y
  {
    assert k * y - k * x == k * (y - x);
  }

  lemma MulCancel(k: int, x: int, y: int)
    requires k != 0 && k * x == k * y
    ensures x == y
  {
    if x < y {
      if k > 0 { MulStrictMono(k, x, y); } else { MulStrictMono(-k, x, y); }
    } else if y < x {
      if k > 0 { MulStrictMono(k, y, x); } else { MulStrictMono(-k, y, x); }
    }
  }

  /** Euclidean division is unique: any decomposition x == q * d + r with
      0 <= r < d is the one Dafny's `/` and `%` compute. */
  lemma DivModUnique(x: int, d: int, q: int, r: int)
    requires d > 0 && x == q * d + r && 0 <= r < d
    ensures x / d == q && x % d == r
  {
    var q0, r0 := x / d, x % d;
    assert (q - q0) * d == r0 - r;
    if q - q0 >= 1 {
      MulStrictMono(d, 0, q - q0);
      assert (q - q0) * d >= d by { assert (q - q0) * d == (q - q0 - 1) * d + d; MulNonneg(q - q0 - 1, d); }
    } else if q - q0 <= -1 {
      assert (q0 - q) * d >= d by { assert (q0 - q) * d == (q0 - q - 1) * d + d; MulNonneg(q0 - q - 1, d); }
    }
  }

  lemma MulNonneg(x: int, y: int)
    requires x >= 0 && y >= 0
    ensures x * y >= 0
  {
  }

  // ---------------------------------------------------------------------
  // Divisibility
  // ---------------------------------------------------------------------

  lemma DividesByWitness(d: nat, n: int, k: int)
    requires n == k * d
    ensures Divides(d, n)
  {
    if d > 0 {
      DivModUnique(n, d, k, 0);
    }
  }

  lemma DividesGivesWitness(d: nat, n: int)
    requires d > 0 && Divides(d, n)
    ensures n == (n / d) * d
  {
  }

  lemma DividesRefl(d: nat)
    ensures Divides(d, d)
  {
    DividesByWitness(d, d, 1);
  }

  lemma DividesLinear(d: nat, x: int, y: int, c: int)
    requires Divides(d, x) && Divides(d, y)
    ensures Divides(d, x + c * y)
  {
    if d > 0 {
      var a, b := x / d, y / d;
      DividesGivesWitness(d, x);
      DividesGivesWitness(d, y);
      assert x + c * y == (a + c * b) * d;
      DividesByWitness(d, x + c * y, a + c * b);
    }
  }

  lemma DividesNeg(d: nat, n: int)
    ensures Divides(d, n) <==> Divides(d, -n)
  {
    if Divides(d, n) {
      DividesLinear(d, 0, n, -1);
    }
    if Divides(d, -n) {
      DividesLinear(d, 0, -n, -1);
    }
  }

  lemma DividesAbs(d: nat, n: int)
    ensures Divides(d, n) <==> Divides(d, Abs(n))
  {
    DividesNeg(d, n);
  }

  lemma DividesMod(d: nat, x: int, y: int)
    requires y > 0 && Divides(d, y)
    ensures Divides(d, x) <==> Divides(d, x % y)
  {
    var q, r := x / y, x % y;
    assert x == q * y + r;
    if Divides(d, x) {
      DividesLinear(d, x, y, -q);
      assert x + (-q) * y == r;
    }
    if Divides(d, r) {
      DividesLinear(d, r, y, q);
    }
  }

  lemma DividesTrans(a: nat, b: nat, c: int)
    requires Divides(a, b) && Divides(b, c)
    ensures Divides(a, c)
  {
    if a > 0 && b > 0 {
      DividesGivesWitness(a, b);
      DividesGivesWitness(b, c);
      assert c == ((c / b) * (b / a)) * a;
      DividesByWitness(a, c, (c / b) * (b / a));
    }
  }

  lemma DividesLe(d: nat, n: int)
    requires d > 0 && n > 0 && Divides(d, n)
    ensures d <= n
  {
    DividesGivesWitness(d, n);
    var k := n / d;
    if k <= 0 {
      MulNonneg(-k, d);
    } else {
      assert n == (k - 1) * d + d;
      MulNonneg(k - 1, d);
    }
  }

  lemma DividesAntisym(x: nat, y: nat)
    requires Divides(x, y) && Divides(y, x)
    ensures x == y
  {
    if x > 0 && y > 0 {
      DividesLe(x, y);
      DividesLe(y, x);
    }
  }

  // ---------------------------------------------------------------------
  // Greatest common divisor
  // ---------------------------------------------------------------------

  /** Euclid's algorithm on natural numbers; the reference gcd. */
  function GcdNat(a: nat, b: nat): (g: nat)
    ensures a > 0 || b > 0 ==> g > 0
    decreases b
  {
    if b == 0 then a else GcdNat(b, a % b)
  }

  /** Euclid's algorithm computes a greatest common divisor. */
  lemma {:induction false} GcdNatIsGcd(a: nat, b: nat)
    ensures IsGcd(GcdNat(a, b), a, b)
    decreases b
  {
    if b == 0 {
      DividesRefl(a);
    } else {
      GcdNatIsGcd(b, a % b);
      GcdStep(a, b, GcdNat(b, a % b));
    }
  }

  /** One Euclid step keeps the set of common divisors. */
  lemma GcdStep(a: nat, b: nat, g: nat)
    requires b > 0 && IsGcd(g, b, a % b)
    ensures IsGcd(g, a, b)
  {
    DividesMod(g, a, b);
    forall d: nat | Divides(d, a) && Divides(d, b)
      ensures Divides(d, g)
    {
      DividesMod(d, a, b);
    }
  }

  /** The gcd is unique. */
  lemma GcdUnique(g1: nat, g2: nat, a: int, b: int)
    requires IsGcd(g1, a, b) && IsGcd(g2, a, b)
    ensures g1 == g2
  {
    DividesAntisym(g1, g2);
  }

  lemma IsGcdAbs(g: nat, a: int, b: int)
    ensures IsGcd(g, a, b) <==> IsGcd(g, Abs(a), Abs(b))
  {
    DividesAbs(g, a);
    DividesAbs(g, b);
    forall d: nat
      ensures Divides(d, a) <==> Divides(d, Abs(a))
      ensures Divides(d, b) <==> Divides(d, Abs(b))
    {
      DividesAbs(d, a);
      DividesAbs(d, b);
    }
  }

  /** The gcd of two integers: the gcd of their absolute values. */
  function Gcd(a: int, b: int): (g: nat)
    ensures a != 0 || b != 0 ==> g > 0
  {
    GcdNat(Abs(a), Abs(b))
  }

  /** `Gcd` divides both arguments and every common divisor divides it. */
  lemma GcdIsGcd(a: int, b: int)
    ensures IsGcd(Gcd(a, b), a, b)
  {
    GcdNatIsGcd(Abs(a), Abs(b));
    IsGcdAbs(Gcd(a, b), a, b);
  }

  /** Any common divisor that every common divisor divides is `Gcd`. */
  lemma GcdCharacterization(g: nat, a: int, b: int)
    requires IsGcd(g, a, b)
    ensures g == Gcd(a, b)
  {
    GcdIsGcd(a, b);
    GcdUnique(g, Gcd(a, b), a, b);
  }

  lemma ModScale(k: int, a: int, b: int)
    requires k > 0 && b > 0
    ensures (k * a) % (k * b) == k * (a % b)
  {
    var q, r := a / b, a % b;
    assert k * a == q * (k * b) + k * r;
    MulStrictMono(k, r, b);
    MulNonneg(k, r);
    DivModUnique(k * a, k * b, q, k * r);
  }

  /** Scaling both arguments scales the gcd. */
  lemma {:induction false} GcdNatScale(k: nat, a: nat, b: nat)
    ensures GcdNat(k * a, k * b) == k * GcdNat(a, b)
    decreases b
  {
    if k == 0 {
    } else if b == 0 {
    } else {
      ModScale(k, a, b);
      MulNonneg(k, a % b);
      GcdNatScale(k, b, a % b);
    }
  }

  /** Euclid's lemma: a divisor of a product that is coprime to one
      factor divides the other. */
  lemma EuclidLemma(a: nat, b: nat, k: nat)
    requires GcdNat(a, b) == 1 && Divides(b, a * k)
    ensures Divides(b, k)
  {
    GcdNatScale(k, a, b);
    GcdNatIsGcd(k * a, k * b);
    DividesByWitness(b, k * b, k);
    assert Divides(b, k * a);
  }

  /** Dividing out the gcd leaves coprime cofactors. */
  lemma CofactorsCoprime(a: nat, b: nat)
    requires a > 0 || b > 0
    ensures GcdNat(a, b) > 0
    ensures GcdNat(a / GcdNat(a, b), b / GcdNat(a, b)) == 1
  {
    var g := GcdNat(a, b);
    GcdNatIsGcd(a, b);
    var a', b' := a / g, b / g;
    DividesGivesWitness(g, a);
    DividesGivesWitness(g, b);
    GcdNatScale(g, a', b');
    assert g * a' == a && g * b' == b;
    MulCancel(g, GcdNat(a', b'), 1);
  }

  // ---------------------------------------------------------------------
  // Least common multiple
  // ---------------------------------------------------------------------

  /** The least common multiple of two naturals (0 when either is 0). */
  function LcmNat(a: nat, b: nat): nat {
    if a == 0 || b == 0 then 0 else (a / GcdNat(a, b)) * b
  }

  lemma LcmIsCommonMultiple(a: nat, b: nat)
    requires a > 0 && b > 0
    ensures LcmNat(a, b) > 0
    ensures Divides(a, LcmNat(a, b)) && Divides(b, LcmNat(a, b))
  {
    var g := GcdNat(a, b);
    CofactorsCoprime(a, b);
    GcdNatIsGcd(a, b);
    DividesGivesWitness(g, a);
    DividesGivesWitness(g, b);
    var a', b' := a / g, b / g;
    assert a' > 0 by {
      if a' <= 0 { MulNonneg(-a', g); }
    }
    MulStrictMono(b, 0, a');
    assert LcmNat(a, b) == a' * b;
    DividesByWitness(b, a' * b, a');
    CofactorSwap(a, b, g, a', b');
    DividesByWitness(a, a' * b, b');
  }

  lemma CofactorSwap(a: int, b: int, g: int, a': int, b': int)
    requires a == g * a' && b == g * b'
    ensures a' * b == b' * a
  {
    calc {
      a' * b;
      a' * (g * b');
      (a' * g) * b';
      b' * (g * a');
    }
  }

  /** Every positive common multiple is a multiple of the lcm. */
  lemma LcmDividesCommonMultiple(a: nat, b: nat, m: int)
    requires a > 0 && b > 0 && m > 0 && Divides(a, m) && Divides(b, m)
    ensures Divides(LcmNat(a, b), m)
  {
    var g := GcdNat(a, b);
    CofactorsCoprime(a, b);
    GcdNatIsGcd(a, b);
    DividesGivesWitness(g, a);
    DividesGivesWitness(g, b);
    var a', b' := a / g, b / g;
    DividesGivesWitness(a, m);
    DividesGivesWitness(b, m);
    var k, j := m / a, m / b;
    assert k > 0 by {
      if k <= 0 { MulNonneg(-k, a); }
    }
    CofactorEquation(a', b', g, k, j, m);
    DividesByWitness(b', a' * k, j);
    EuclidLemma(a', b', k);
    DividesGivesWitness(b', k);
    var t := k / b';
    LcmWitness(a, b, g, a', b', k, t, m);
    DividesByWitness(LcmNat(a, b), m, t);
  }

  lemma CofactorEquation(a': int, b': int, g: int, k: int, j: int, m: int)
    requires g > 0 && m == k * (a' * g) && m == j * (b' * g)
    ensures a' * k == j * b'
  {
    assert g * (a' * k) == g * (j * b');
    MulCancel(g, a' * k, j * b');
  }

  lemma LcmWitness(a: nat, b: nat, g: nat, a': int, b': int, k: int, t: int, m: int)
    requires a > 0 && b > 0 && g == GcdNat(a, b) && a == a' * g && b == b' * g
    requires a' == a / g && m == k * a && k == t * b'
    ensures m == t * LcmNat(a, b)
  {
    assert LcmNat(a, b) == a' * b;
    assert m == t * (a' * (b' * g));
  }
}
