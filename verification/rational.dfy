/** Model of `org.monte.media.math.Rational`: an immutable fraction of two
    `long`s kept in a canonical form. The denominator is never negative,
    0/1 is the only zero, 1/0 and -1/0 are the only infinities, and a finite
    value is stored in lowest terms. The canonical form is the subset type
    `Rational`; every operation builds its result through `Make`, the
    model of the two-argument constructor.

    A finite value denotes the real number `Val(r)`. The infinities are
    ordered below and above every finite value (`Less`). Integers are
    unbounded: `long` overflow in the products is not modelled. */
module Rationals {
  import opened Wrappers
  import opened Divisibility
  import opened IntMath

  datatype Fraction = Fraction(num: int, den: int)

  /** The class invariant the constructor establishes. */
  predicate Canonical(f: Fraction) {
    if f.den == 0 then f.num == 1 || f.num == -1
    else f.den > 0 && Gcd(f.num, f.den) == 1
  }

  type Rational = f: Fraction | Canonical(f) witness Fraction(0, 1)

  const Zero: Rational := Fraction(0, 1)
  const PosInf: Rational := Fraction(1, 0)
  const NegInf: Rational := Fraction(-1, 0)

  predicate IsFinite(r: Rational) {
    r.den != 0
  }

  /** The real number a finite rational denotes. */
  ghost function Val(r: Rational): real
    requires IsFinite(r)
  {
    r.num as real / r.den as real
  }

  /** The sign of a rational, infinities included. */
  function Sign(r: Rational): int {
    SignOf(r.num)
  }

  function SignOf(x: int): int {
    if x > 0 then 1 else if x < 0 then -1 else 0
  }

  /** The order of the extended reals: -1/0 below every other value, 1/0
      above every other value, finite values by the real they denote. */
  ghost predicate Less(a: Rational, b: Rational) {
    if IsFinite(a) && IsFinite(b) then Val(a) < Val(b)
    else (a == NegInf && b != NegInf) || (a != PosInf && b == PosInf)
  }

  /** `r` is an integer multiple of 1/|d|: its reduced denominator divides d. */
  predicate OnGrid(r: Rational, d: int) {
    IsFinite(r) && Divides(r.den, Abs(d))
  }

  // ---------------------------------------------------------------------
  // Facts about fractions of integers read as reals
  // ---------------------------------------------------------------------

  /** Comparing p/q with r/s by cross-multiplication. */
  lemma RealCross(p: int, q: int, r: int, s: int)
    requires q > 0 && s > 0
    ensures (p as real / q as real < r as real / s as real) <==> p * s < r * q
    ensures (p as real / q as real == r as real / s as real) <==> p * s == r * q
  {
    var x, y := p as real / q as real, r as real / s as real;
    assert x * q as real == p as real;
    assert y * s as real == r as real;
    assert (p * s) as real == x * (q as real) * (s as real);
    assert (r * q) as real == y * (s as real) * (q as real);
  }

  /** A real p/q with q > 0 has the sign of p. */
  lemma RealSign(p: int, q: int)
    requires q > 0
    ensures p > 0 <==> p as real / q as real > 0.0
    ensures p == 0 <==> p as real / q as real == 0.0
  {
    RealCross(p, q, 0, 1);
    RealCross(0, 1, p, q);
  }

  lemma RealNegateBoth(n: int, d: int)
    requires d != 0
    ensures (-n) as real / (-d) as real == n as real / d as real
  {
  }

  lemma RealNeg(n: int, d: int)
    requires d != 0
    ensures (-n) as real / d as real == -(n as real / d as real)
  {
  }

  lemma RealRecip(n: int, d: int)
    requires n != 0 && d != 0
    ensures (d as real / n as real) * (n as real / d as real) == 1.0
  {
  }

  lemma RealSumFractions(n1: int, d1: int, n2: int, d2: int, s: int, k1: int, k2: int)
    requires d1 > 0 && d2 > 0 && s > 0 && k1 * d1 == s && k2 * d2 == s
    ensures (n1 * k1 + n2 * k2) as real / s as real == n1 as real / d1 as real + n2 as real / d2 as real
  {
    var x1, x2 := n1 as real / d1 as real, n2 as real / d2 as real;
    assert (n1 * k1) as real == x1 * s as real by {
      assert (n1 * k1) as real == n1 as real * k1 as real;
      assert s as real == k1 as real * d1 as real;
    }
    assert (n2 * k2) as real == x2 * s as real by {
      assert (n2 * k2) as real == n2 as real * k2 as real;
      assert s as real == k2 as real * d2 as real;
    }
  }

  lemma RealMulFractions(n1: int, d1: int, n2: int, d2: int)
    requires d1 != 0 && d2 != 0
    ensures (n1 * n2) as real / (d1 * d2) as real == (n1 as real / d1 as real) * (n2 as real / d2 as real)
  {
    assert (n1 * n2) as real == n1 as real * n2 as real;
    assert (d1 * d2) as real == d1 as real * d2 as real;
  }

  lemma RealQuotient(n1: int, d1: int, n2: int, d2: int)
    requires d1 != 0 && n2 != 0 && d2 != 0
    ensures ((n1 * d2) as real / (d1 * n2) as real) * (n2 as real / d2 as real) == n1 as real / d1 as real
  {
    assert (n1 * d2) as real == n1 as real * d2 as real;
    assert (d1 * n2) as real == d1 as real * n2 as real;
  }

  // ---------------------------------------------------------------------
  // The constructor
  // ---------------------------------------------------------------------

  lemma JDivOne(x: int)
    ensures JDiv(x, 1) == x
  {
    assert Abs(x) / 1 == Abs(x);
  }

  /** Dividing out the gcd of a numerator and a non-negative denominator
      leaves coprime cofactors. */
  lemma CofactorsOfGcd(n: int, d: nat, p: int, q: nat)
    requires Gcd(n, d) > 0 && p * Gcd(n, d) == n && q * Gcd(n, d) == d
    ensures Gcd(p, q) == 1
  {
    var g := Gcd(n, d);
    var ap := Abs(p);
    assert ap * g == Abs(n) by {
      if p < 0 { assert Abs(n) == -n; } else { MulNonneg(p, g); }
    }
    GcdNatScale(g, ap, q);
    assert g * ap == Abs(n) && g * q == d;
    assert g * GcdNat(ap, q) == g * 1;
    MulCancel(g, GcdNat(ap, q), 1);
  }

  /** The quotients of n and d by their gcd, and what is known of them. */
  lemma GcdQuotients(n: int, d: nat)
    requires d > 0 || n == 1 || n == -1
    ensures Gcd(n, d) > 0
    ensures JDiv(n, Gcd(n, d)) * Gcd(n, d) == n
    ensures JDiv(d, Gcd(n, d)) * Gcd(n, d) == d
    ensures JDiv(d, Gcd(n, d)) >= 0
    ensures Gcd(JDiv(n, Gcd(n, d)), JDiv(d, Gcd(n, d))) == 1
  {
    var g := Gcd(n, d);
    GcdIsGcd(n, d);
    DividesAbs(g, n);
    JDivExact(n, g);
    JDivExact(d, g);
    CofactorsOfGcd(n, d, JDiv(n, g), JDiv(d, g));
  }

  /** The last step of the constructor: divide numerator and denominator
      by their gcd. The denominator is positive here, or zero with a
      numerator of ±1. */
  function Reduce(n: int, d: nat): (r: Rational)
    requires d > 0 || n == 1 || n == -1
    ensures d > 0 ==> r.den > 0
    ensures d == 0 ==> r == Fraction(n, 0)
  {
    var g := Gcd(n, d);
    GcdQuotients(n, d);
    if d == 0 then
      assert g == 1;
      JDivOne(n);
      Fraction(n, 0)
    else
      var q := JDiv(d, g);
      assert q > 0;
      Fraction(JDiv(n, g), q)
  }

  /** `Reduce` keeps the value and its denominator divides the original. */
  lemma ReduceValue(n: int, d: nat)
    requires d > 0
    ensures Val(Reduce(n, d)) == n as real / d as real
    ensures Divides(Reduce(n, d).den, d)
  {
    var g := Gcd(n, d);
    GcdQuotients(n, d);
    var p, q := JDiv(n, g), JDiv(d, g);
    assert Reduce(n, d) == Fraction(p, q);
    assert p * d == n * q by {
      assert p * d == p * (q * g) == (p * g) * q;
    }
    RealCross(p, q, n, d);
    DividesByWitness(q, d, g);
  }

  /** A fraction already in lowest terms is left as it is. */
  lemma ReduceCoprime(n: int, d: nat)
    requires d > 0 && Gcd(n, d) == 1
    ensures Reduce(n, d) == Fraction(n, d)
  {
    JDivOne(n);
    JDivOne(d);
  }

  /** `new Rational(numerator, denominator)`: a zero numerator forces the
      denominator to 1, a zero denominator turns the numerator into its
      sign, a negative denominator moves its sign to the numerator, and
      both are divided by their gcd. */
  function Make(n: int, d: int): (r: Rational)
    ensures n == 0 ==> r == Zero
    ensures n != 0 && d == 0 ==> r == (if n > 0 then PosInf else NegInf)
    ensures d != 0 ==> IsFinite(r)
  {
    if n == 0 then
      var r := Reduce(0, 1);
      assert Gcd(0, 1) == 1;
      ReduceCoprime(0, 1);
      r
    else if d == 0 then
      Reduce(if n > 0 then 1 else -1, 0)
    else if d < 0 then
      Reduce(-n, -d)
    else
      Reduce(n, d)
  }

  /** The constructor keeps the value n/d of a finite fraction, and its
      denominator divides |d|. */
  lemma MakeValue(n: int, d: int)
    requires d != 0
    ensures Val(Make(n, d)) == n as real / d as real
    ensures Divides(Make(n, d).den, Abs(d))
  {
    if n == 0 {
      DividesByWitness(1, Abs(d), Abs(d));
      assert 0 as real / d as real == 0.0;
    } else if d < 0 {
      ReduceValue(-n, -d);
      RealNegateBoth(n, d);
    } else {
      ReduceValue(n, d);
    }
  }

  /** A finite canonical fraction with numerator 0 is 0/1. */
  lemma CanonicalZero(r: Rational)
    requires IsFinite(r) && r.num == 0
    ensures r == Zero
  {
    assert GcdNat(0, r.den) == GcdNat(r.den, 0);
  }

  /** The constructor leaves a fraction in lowest terms unchanged. */
  lemma MakeCoprime(n: int, d: int)
    requires d > 0 && Gcd(n, d) == 1
    ensures Make(n, d) == Fraction(n, d)
  {
    if n == 0 {
      assert GcdNat(0, d) == GcdNat(d, 0);
    } else {
      ReduceCoprime(n, d);
    }
  }

  /** `new Rational(Rational r)`: copying a canonical value returns it. */
  lemma MakeCanonical(a: Rational)
    ensures Make(a.num, a.den) == a
  {
    if IsFinite(a) {
      MakeCoprime(a.num, a.den);
    }
  }

  /** Negating both parts of a finite fraction does not change it. */
  lemma MakeNegateBoth(n: int, d: int)
    requires d != 0
    ensures Make(-n, -d) == Make(n, d)
  {
    MakeValue(n, d);
    MakeValue(-n, -d);
    RealNegateBoth(n, d);
    CanonicalUnique(Make(-n, -d), Make(n, d));
  }

  /** Two finite canonical fractions with the same value are the same
      fraction: 0/1 is the only zero and every value has one lowest-terms
      form. */
  lemma CanonicalUnique(a: Rational, b: Rational)
    requires IsFinite(a) && IsFinite(b) && Val(a) == Val(b)
    ensures a == b
  {
    RealCross(a.num, a.den, b.num, b.den);
    assert a.num * b.den == b.num * a.den;
    DenominatorDivides(a, b);
    DenominatorDivides(b, a);
    DividesAntisym(a.den, b.den);
    MulCancel(a.den, a.num, b.num);
  }

  /** Equal cross products with positive denominators force equal signs. */
  lemma CrossAbs(p: int, q: int, r: int, s: int)
    requires q > 0 && s > 0 && p * s == r * q
    ensures Abs(p) * s == Abs(r) * q
  {
    if p < 0 {
      MulStrictMono(s, p, 0);
      if r >= 0 { MulNonneg(r, q); }
      assert Abs(p) * s == -(p * s);
      assert Abs(r) * q == -(r * q);
    } else {
      MulNonneg(p, s);
      if r < 0 { MulStrictMono(q, r, 0); }
    }
  }

  lemma DenominatorDivides(a: Rational, b: Rational)
    requires IsFinite(a) && IsFinite(b) && a.num * b.den == b.num * a.den
    ensures Divides(a.den, b.den)
  {
    assert GcdNat(Abs(a.num), a.den) == 1;
    CrossAbs(a.num, a.den, b.num, b.den);
    DividesByWitness(a.den, Abs(a.num) * b.den, Abs(b.num));
    EuclidLemma(Abs(a.num), a.den, b.den);
  }

  /** Two infinities of the same sign are the same value. */
  lemma InfiniteBySign(a: Rational, b: Rational)
    requires !IsFinite(a) && !IsFinite(b) && Sign(a) == Sign(b)
    ensures a == b
  {
  }

  /** `Make` keeps the sign of the numerator when the denominator is not
      negative. */
  lemma MakeSign(n: int, d: int)
    requires d >= 0
    ensures Sign(Make(n, d)) == SignOf(n)
  {
    if d > 0 {
      var r := Make(n, d);
      MakeValue(n, d);
      RealSign(r.num, r.den);
      RealSign(n, d);
    }
  }

  lemma SignOfMul(x: int, y: int)
    ensures SignOf(x * y) == SignOf(x) * SignOf(y)
  {
    if x > 0 && y > 0 { MulStrictMono(x, 0, y); }
    if x > 0 && y < 0 { MulStrictMono(x, y, 0); }
    if x < 0 && y > 0 { MulStrictMono(y, x, 0); }
    if x < 0 && y < 0 { MulStrictMono(-x, 0, -y); }
  }

  // ---------------------------------------------------------------------
  // Arithmetic
  // ---------------------------------------------------------------------

  /** `negate`: the constructor has nothing to reduce, so only the sign of
      the numerator changes. */
  function Negate(a: Rational): (r: Rational)
    ensures r == Fraction(-a.num, a.den)
    ensures IsFinite(a) ==> IsFinite(r) && Val(r) == -Val(a)
  {
    var r := Make(-a.num, a.den);
    if IsFinite(a) then
      NegateFinite(a);
      r
    else
      r
  }

  lemma NegateFinite(a: Rational)
    requires IsFinite(a)
    ensures Make(-a.num, a.den) == Fraction(-a.num, a.den)
    ensures Val(Fraction(-a.num, a.den)) == -Val(a)
  {
    if a.num != 0 {
      assert Gcd(-a.num, a.den) == Gcd(a.num, a.den);
      MakeCoprime(-a.num, a.den);
    } else {
      CanonicalZero(a);
    }
    RealNeg(a.num, a.den);
  }

  lemma NegateNegate(a: Rational)
    ensures Negate(Negate(a)) == a
  {
  }

  /** `inverse`: numerator and denominator swap places, the sign staying on
      the numerator; 0 becomes 1/0 and both infinities become 0. */
  function Inverse(a: Rational): (r: Rational)
    ensures a == Zero ==> r == PosInf
    ensures !IsFinite(a) ==> r == Zero
    ensures IsFinite(a) && a.num > 0 ==> r == Fraction(a.den, a.num)
    ensures IsFinite(a) && a.num < 0 ==> r == Fraction(-a.den, -a.num)
    ensures IsFinite(a) && a.num != 0 ==> IsFinite(r) && Val(r) * Val(a) == 1.0
  {
    var r := Make(a.den, a.num);
    if IsFinite(a) && a.num > 0 then
      GcdNatSym(Abs(a.num), a.den);
      MakeCoprime(a.den, a.num);
      RealRecip(a.num, a.den);
      r
    else if IsFinite(a) && a.num < 0 then
      GcdNatSym(Abs(a.num), a.den);
      MakeNegateBoth(a.den, a.num);
      MakeCoprime(-a.den, -a.num);
      RealRecip(a.num, a.den);
      RealNegateBoth(a.den, a.num);
      r
    else if IsFinite(a) then
      CanonicalZero(a);
      r
    else
      r
  }

  /** Inverting twice gives back every value except -1/0, which comes back
      as 1/0 (its inverse is 0, whose inverse is 1/0). */
  lemma InverseInverse(a: Rational)
    ensures a != NegInf ==> Inverse(Inverse(a)) == a
    ensures a == NegInf ==> Inverse(Inverse(a)) == PosInf
  {
    if IsFinite(a) && a.num == 0 {
      CanonicalZero(a);
    }
  }

  /** `add`. Equal denominators add numerators; otherwise both fractions
      are brought to the smallest common multiple of the denominators.
      When exactly one operand is infinite that multiple is 0 and the
      division by it throws. Two infinities share the denominator 0: equal
      ones sum to themselves, opposite ones to 0. */
  function Add(a: Rational, b: Rational): (r: Result<Rational, Exception>)
    ensures r.Failure? <==> IsFinite(a) != IsFinite(b)
    ensures r.Failure? ==> r.error == ArithmeticException
    ensures IsFinite(a) && IsFinite(b) ==> r.Success? && IsFinite(r.value) && Val(r.value) == Val(a) + Val(b)
    ensures !IsFinite(a) && !IsFinite(b) ==> r == Success(if a == b then a else Zero)
  {
    if a.den == b.den then
      var r := Make(a.num + b.num, a.den);
      if a.den != 0 then
        MakeValue(a.num + b.num, a.den);
        RealSumFractions(a.num, a.den, b.num, b.den, a.den, 1, 1);
        Success(r)
      else
        Success(r)
    else
      var s := Scm(a.den, b.den);
      // s / den throws when s is 0; the denominators are not negative, so
      // Java's division and Dafny's agree
      if s == 0 then
        Failure(ArithmeticException)
      else
        var k1, k2 := s / a.den, s / b.den;
        DividesGivesWitness(a.den, s);
        DividesGivesWitness(b.den, s);
        MakeValue(a.num * k1 + b.num * k2, s);
        RealSumFractions(a.num, a.den, b.num, b.den, s, k1, k2);
        Success(Make(a.num * k1 + b.num * k2, s))
  }

  /** `subtract`: adding the negation. */
  function Subtract(a: Rational, b: Rational): (r: Result<Rational, Exception>)
    ensures r.Failure? <==> IsFinite(a) != IsFinite(b)
    ensures IsFinite(a) && IsFinite(b) ==> r.Success? && IsFinite(r.value) && Val(r.value) == Val(a) - Val(b)
    ensures !IsFinite(a) && !IsFinite(b) ==> r == Success(if a == b then Zero else a)
  {
    Add(a, Negate(b))
  }

  lemma AddCommutes(a: Rational, b: Rational)
    ensures Add(a, b) == Add(b, a)
  {
    if IsFinite(a) && IsFinite(b) {
      CanonicalUnique(Add(a, b).value, Add(b, a).value);
    }
  }

  /** Subtracting what was added gives back the finite operand. */
  lemma SubtractAfterAdd(a: Rational, b: Rational)
    requires IsFinite(a) && IsFinite(b)
    ensures Add(a, b).Success? && Subtract(Add(a, b).value, b) == Success(a)
  {
    CanonicalUnique(Subtract(Add(a, b).value, b).value, a);
  }

  /** Adding the negation gives the canonical zero, for the infinities
      too: 1/0 + -1/0 shares the denominator 0 and sums the numerators. */
  lemma AddNegate(a: Rational)
    ensures Add(a, Negate(a)) == Success(Zero)
  {
    if IsFinite(a) {
      var z := Add(a, Negate(a)).value;
      assert Val(z) == 0.0;
      assert Val(Zero) == 0.0;
      CanonicalUnique(z, Zero);
    }
  }

  /** Two fractions with equal cross products construct the same
      rational, so `equals` holds between them. */
  lemma MakeEqualValues(n1: int, d1: int, n2: int, d2: int)
    requires d1 != 0 && d2 != 0 && n1 * d2 == n2 * d1
    ensures Make(n1, d1) == Make(n2, d2)
    ensures Equals(Make(n1, d1), Make(n2, d2))
  {
    MakeValue(n1, d1);
    MakeValue(n2, d2);
    MakeSameValue(n1, d1, n2, d2);
    CanonicalUnique(Make(n1, d1), Make(n2, d2));
  }

  lemma MakeSameValue(n1: int, d1: int, n2: int, d2: int)
    requires d1 != 0 && d2 != 0 && n1 * d2 == n2 * d1
    ensures n1 as real / d1 as real == n2 as real / d2 as real
  {
    if d1 < 0 { RealNegateBoth(n1, d1); }
    if d2 < 0 { RealNegateBoth(n2, d2); }
    var p1, q1 := if d1 < 0 then -n1 else n1, Abs(d1);
    var p2, q2 := if d2 < 0 then -n2 else n2, Abs(d2);
    assert p1 * q2 == p2 * q1;
    RealCross(p1, q1, p2, q2);
  }

  /** `multiply(Rational)`. An infinity times 0 is 0; otherwise a product
      with an infinite factor is the infinity of the product's sign. */
  function Multiply(a: Rational, b: Rational): (r: Rational)
    ensures IsFinite(a) && IsFinite(b) ==> IsFinite(r) && Val(r) == Val(a) * Val(b)
    ensures Sign(r) == Sign(a) * Sign(b)
    ensures !(IsFinite(a) && IsFinite(b)) ==> (IsFinite(r) <==> r == Zero)
  {
    var r := Make(a.num * b.num, a.den * b.den);
    MulNonneg(a.den, b.den);
    MakeSign(a.num * b.num, a.den * b.den);
    SignOfMul(a.num, b.num);
    if IsFinite(a) && IsFinite(b) then
      MulStrictMono(a.den, 0, b.den);
      MakeValue(a.num * b.num, a.den * b.den);
      RealMulFractions(a.num, a.den, b.num, b.den);
      r
    else
      r
  }

  /** `multiply(long)`. */
  function MultiplyInt(a: Rational, k: int): (r: Rational)
    ensures IsFinite(a) ==> IsFinite(r) && Val(r) == Val(a) * k as real
    ensures Sign(r) == Sign(a) * SignOf(k)
    ensures !IsFinite(a) ==> (IsFinite(r) <==> k == 0)
  {
    var r := Make(a.num * k, a.den);
    MakeSign(a.num * k, a.den);
    SignOfMul(a.num, k);
    if IsFinite(a) then
      MakeValue(a.num * k, a.den);
      RealMulFractions(a.num, a.den, k, 1);
      r
    else
      r
  }

  /** Multiplying by an integer is multiplying by that integer over 1. */
  lemma MultiplyIntIsMultiply(a: Rational, k: int)
    ensures MultiplyInt(a, k) == Multiply(a, Make(k, 1))
  {
    MakeInteger(k);
    assert a.den * 1 == a.den;
  }

  /** An integer over 1 is already in lowest terms. */
  lemma MakeInteger(k: int)
    ensures Make(k, 1) == Fraction(k, 1)
  {
    assert GcdNat(Abs(k), 1) == GcdNat(1, 0) == 1;
    MakeCoprime(k, 1);
  }

  /** `divide`: multiply by the other operand's denominator, divide by its
      numerator. Dividing by an infinity gives 0. An infinity divided by a
      finite value keeps its own sign, whatever the divisor's sign. */
  function Divide(a: Rational, b: Rational): (r: Rational)
    ensures IsFinite(a) && IsFinite(b) && b != Zero ==> IsFinite(r) && Val(r) * Val(b) == Val(a)
    ensures IsFinite(a) && b == Zero ==> Sign(r) == Sign(a) && (IsFinite(r) <==> a == Zero)
    ensures !IsFinite(b) ==> r == Zero
    ensures !IsFinite(a) && IsFinite(b) ==> r == a
  {
    var n, d := a.num * b.den, a.den * b.num;
    if !IsFinite(b) then
      assert n == 0;
      Make(n, d)
    else if !IsFinite(a) then
      assert d == 0;
      assert a.num > 0 ==> n == b.den;
      assert a.num < 0 ==> n == -b.den;
      Make(n, d)
    else if b.num == 0 then
      CanonicalZero(b);
      assert n == a.num && d == 0;
      if a.num == 0 then
        CanonicalZero(a);
        Make(n, d)
      else
        Make(n, d)
    else
      QuotientValue(a, b);
      Make(n, d)
  }

  /** The value of the quotient of two finite operands, the divisor
      nonzero. */
  lemma QuotientValue(a: Rational, b: Rational)
    requires IsFinite(a) && IsFinite(b) && b.num != 0
    ensures IsFinite(Make(a.num * b.den, a.den * b.num))
    ensures Val(Make(a.num * b.den, a.den * b.num)) * Val(b) == Val(a)
  {
    var n, d := a.num * b.den, a.den * b.num;
    assert d != 0 by {
      if b.num > 0 { MulStrictMono(a.den, 0, b.num); }
      else { MulStrictMono(a.den, b.num, 0); }
    }
    MakeValue(n, d);
    RealQuotient(a.num, a.den, b.num, b.den);
  }

  /** For a finite dividend, dividing is multiplying by the inverse. */
  lemma DivideIsMultiplyInverse(a: Rational, b: Rational)
    requires IsFinite(a)
    ensures Divide(a, b) == Multiply(a, Inverse(b))
  {
    if IsFinite(b) && b.num < 0 {
      DivideByNegative(a, b);
    } else if IsFinite(b) && b.num > 0 {
      DivideByPositive(a, b);
    } else if IsFinite(b) {
      CanonicalZero(b);
      assert Inverse(b) == PosInf;
    } else {
      assert Inverse(b) == Zero;
    }
  }

  lemma DivideByPositive(a: Rational, b: Rational)
    requires IsFinite(a) && IsFinite(b) && b.num > 0
    ensures Divide(a, b) == Multiply(a, Inverse(b))
  {
    var c := Inverse(b);
    assert c.num == b.den && c.den == b.num;
    assert Multiply(a, c) == Make(a.num * c.num, a.den * c.den);
  }

  /** A negative divisor's sign moves from the inverse's numerator to the
      quotient's denominator, which the constructor moves back. */
  lemma DivideByNegative(a: Rational, b: Rational)
    requires IsFinite(a) && IsFinite(b) && b.num < 0
    ensures Divide(a, b) == Multiply(a, Inverse(b))
  {
    var n, d := a.num * b.den, a.den * b.num;
    MultiplyByNegativeInverse(a, b);
    MulStrictMono(a.den, b.num, 0);
    MakeNegateBoth(n, d);
  }

  lemma MultiplyByNegativeInverse(a: Rational, b: Rational)
    requires IsFinite(a) && IsFinite(b) && b.num < 0
    ensures Multiply(a, Inverse(b)) == Make(-(a.num * b.den), -(a.den * b.num))
  {
    var c := Inverse(b);
    assert c.num == -b.den && c.den == -b.num;
    assert a.num * c.num == -(a.num * b.den);
    assert a.den * c.den == -(a.den * b.num);
  }

  /** The sign of a negative divisor is lost when the dividend is
      infinite: 1/0 divided by -2 is 1/0, while 1/0 times the inverse of
      -2 is -1/0. */
  lemma DivideInfinityKeepsSign()
    ensures Divide(PosInf, Make(-2, 1)) == PosInf
    ensures Multiply(PosInf, Inverse(Make(-2, 1))) == NegInf
  {
    assert Gcd(-2, 1) == 1;
    MakeCoprime(-2, 1);
  }

  // ---------------------------------------------------------------------
  // Comparison
  // ---------------------------------------------------------------------

  /** Cross products order two rationals that are not both infinite. */
  lemma CrossOrder(a: Rational, b: Rational)
    requires IsFinite(a) || IsFinite(b)
    ensures a.num * b.den < a.den * b.num <==> Less(a, b)
    ensures a.num * b.den == a.den * b.num <==> a == b
  {
    if IsFinite(a) && IsFinite(b) {
      RealCross(a.num, a.den, b.num, b.den);
      if a.num * b.den == a.den * b.num {
        CanonicalUnique(a, b);
      }
    } else if IsFinite(a) {
      assert a.num * b.den == 0;
      if b.num == 1 { assert a.den * b.num == a.den; }
      else { assert a.den * b.num == -a.den; }
    } else {
      assert a.den * b.num == 0;
      if a.num == 1 { assert a.num * b.den == b.den; }
      else { assert a.num * b.den == -b.den; }
    }
  }

  /** `compareTo`. Two infinities are compared through the largest and
      smallest `long`; otherwise the cross products are compared exactly
      (the source uses `BigInteger` here, so there is no overflow). */
  function CompareTo(a: Rational, b: Rational): (r: int)
    ensures r == -1 || r == 0 || r == 1
    ensures r == -1 <==> Less(a, b)
    ensures r == 1 <==> Less(b, a)
    ensures r == 0 <==> a == b
  {
    var both := !IsFinite(a) && !IsFinite(b);
    var lhs := if both then (if a.num == 1 then Int64Max else Int64Min) else a.num * b.den;
    var rhs := if both then (if b.num == 1 then Int64Max else Int64Min) else a.den * b.num;
    if both then
      if lhs < rhs then -1 else if lhs > rhs then 1 else 0
    else
      CrossOrder(a, b);
      CrossOrder(b, a);
      if lhs < rhs then -1 else if lhs > rhs then 1 else 0
  }

  /** `Less` is a strict total order. */
  lemma LessTotal(a: Rational, b: Rational)
    ensures !Less(a, a)
    ensures a == b || Less(a, b) || Less(b, a)
    ensures !(Less(a, b) && Less(b, a))
  {
    var _ := CompareTo(a, b);
    var _ := CompareTo(a, a);
  }

  lemma LessTransitive(a: Rational, b: Rational, c: Rational)
    requires Less(a, b) && Less(b, c)
    ensures Less(a, c)
  {
  }

  /** `equals` on two rationals: `compareTo` answers 0. */
  function Equals(a: Rational, b: Rational): (r: bool)
    ensures r <==> a == b
  {
    CompareTo(a, b) == 0
  }

  /** `max`: the first argument wins a tie. */
  function Max(a: Rational, b: Rational): (r: Rational)
    ensures r == a || r == b
    ensures !Less(r, a) && !Less(r, b)
    ensures !Less(a, b) ==> r == a
  {
    if CompareTo(a, b) >= 0 then a else b
  }

  /** `min`: the first argument wins a tie. */
  function Min(a: Rational, b: Rational): (r: Rational)
    ensures r == a || r == b
    ensures !Less(a, r) && !Less(b, r)
    ensures !Less(b, a) ==> r == a
  {
    if CompareTo(a, b) <= 0 then a else b
  }

  /** `isZero`. */
  function IsZero(a: Rational): (r: bool)
    ensures r <==> a == Zero
  {
    if IsFinite(a) && a.num == 0 then CanonicalZero(a); true
    else a.num == 0
  }

  /** `isLessOrEqualZero`. */
  function IsLessOrEqualZero(a: Rational): (r: bool)
    ensures r <==> !Less(Zero, a)
  {
    if IsFinite(a) then
      RealSign(a.num, a.den);
      a.num <= 0
    else
      a.num <= 0
  }

  /** `isNegative`. */
  function IsNegative(a: Rational): (r: bool)
    ensures r <==> Less(a, Zero)
  {
    if IsFinite(a) then
      RealSign(a.num, a.den);
      a.num < 0
    else
      a.num < 0
  }

  // ---------------------------------------------------------------------
  // Conversion to integers
  // ---------------------------------------------------------------------

  /** `longValue`: the value truncated toward zero; an infinity divides by
      its zero denominator and throws. */
  function LongValue(a: Rational): (r: Result<int, Exception>)
    ensures r.Failure? <==> !IsFinite(a)
    ensures r.Failure? ==> r.error == ArithmeticException
    ensures r.Success? && a.num >= 0 ==> r.value as real <= Val(a) < (r.value + 1) as real
    ensures r.Success? && a.num < 0 ==> (r.value - 1) as real < Val(a) <= r.value as real
  {
    var r := JavaDiv(a.num, a.den);
    if r.Success? then
      TruncationValue(a, r.value);
      r
    else
      r
  }

  /** The truncated quotient of a finite rational brackets its value. */
  lemma TruncationValue(a: Rational, q: int)
    requires IsFinite(a) && q == JDiv(a.num, a.den)
    ensures a.num >= 0 ==> q as real <= Val(a) < (q + 1) as real
    ensures a.num < 0 ==> (q - 1) as real < Val(a) <= q as real
  {
    var m, n := Abs(a.num), a.den;
    DivBounds(m, n);
    if a.num >= 0 {
      TruncationBounds(a.num, a.den, q);
    } else {
      TruncationBounds(-a.num, a.den, -q);
      RealNeg(a.num, a.den);
    }
  }

  lemma TruncationBounds(m: nat, n: int, k: int)
    requires n > 0 && k * n <= m < (k + 1) * n
    ensures k as real <= m as real / n as real < (k + 1) as real
  {
    RealCross(k, 1, m, n);
    RealCross(m, n, k + 1, 1);
  }

  /** `intValue`: the truncated `long` narrowed to 32 bits. */
  function IntValue(a: Rational): (r: Result<int, Exception>)
    ensures r.Failure? <==> !IsFinite(a)
    ensures r.Success? ==> IsInt32(r.value)
    ensures r.Success? ==> Divides(Word, LongValue(a).value - r.value)
    ensures r.Success? && IsInt32(LongValue(a).value) ==> r.value == LongValue(a).value
  {
    var v :- LongValue(a);
    Success(ToInt32(v))
  }
}
