/** Model of the rounding operations of `Rational`: `floor(d)`, `ceil(d)`
    and `round(d)` move a value onto the grid of multiples of 1/d.

    The source computes these with Java's `/`, which truncates toward
    zero. That is the floor and the ceiling only while the scaled numerator
    is not negative, so `Floor`, `Ceil` and `Round` below reproduce the
    source and are exact for non-negative values only. `FloorCorrected`,
    `CeilCorrected` and `RoundCorrected` round every finite value the way
    the source's documentation describes; the lemmas at the end show where
    the two agree and where they part. */
module RationalRounding {
  import opened Wrappers
  import opened Divisibility
  import opened IntMath
  import opened Rationals

  /** The distance between two finite values. */
  ghost function Dist(x: Rational, y: Rational): real
    requires IsFinite(x) && IsFinite(y)
  {
    if Val(x) >= Val(y) then Val(x) - Val(y) else Val(y) - Val(x)
  }

  // ---------------------------------------------------------------------
  // Integer floor and ceiling
  // ---------------------------------------------------------------------

  /** Java's `/` and Dafny's agree on a non-negative dividend. */
  lemma JDivNonneg(n: int, m: int)
    requires n >= 0 && m > 0
    ensures JDiv(n, m) == n / m
  {
  }

  /** On a non-positive dividend Java's `/` rounds up. */
  lemma JDivNonpos(n: int, m: int)
    requires n <= 0 && m > 0
    ensures JDiv(n, m) == -((-n) / m)
  {
  }

  /** Dafny's `/` by a positive divisor is the floor. */
  lemma FloorBounds(n: int, m: int)
    requires m > 0
    ensures (n / m) * m <= n < (n / m + 1) * m
  {
    var q, r := n / m, n % m;
    assert n == q * m + r;
    assert (q + 1) * m == q * m + m;
  }

  /** Negating around the floor gives the ceiling. */
  lemma CeilBounds(n: int, m: int)
    requires m > 0
    ensures (-((-n) / m) - 1) * m < n <= -((-n) / m) * m
  {
    var p := (-n) / m;
    FloorBounds(-n, m);
    assert (-p - 1) * m == -((p + 1) * m);
    assert -p * m == -(p * m);
  }

  /** An integer ceiling is unique. */
  lemma CeilUnique(n: int, m: int, q1: int, q2: int)
    requires m > 0
    requires (q1 - 1) * m < n <= q1 * m
    requires (q2 - 1) * m < n <= q2 * m
    ensures q1 == q2
  {
    if q1 < q2 {
      if q1 < q2 - 1 { MulStrictMono(m, q1, q2 - 1); }
    } else if q2 < q1 {
      if q2 < q1 - 1 { MulStrictMono(m, q2, q1 - 1); }
    }
  }

  /** Adding m - 1 before a truncating division by m is the ceiling, as
      long as the dividend is not negative. */
  lemma TruncCeilAgree(n: int, m: int)
    requires n >= 0 && m > 0
    ensures JDiv(n + m - 1, m) == -((-n) / m)
  {
    JDivNonneg(n + m - 1, m);
    var q := (n + m - 1) / m;
    FloorBounds(n + m - 1, m);
    assert (q + 1) * m == q * m + m;
    assert (q - 1) * m == q * m - m;
    CeilBounds(n, m);
    CeilUnique(n, m, q, -((-n) / m));
  }

  // ---------------------------------------------------------------------
  // Reals on a grid of step 1/e
  // ---------------------------------------------------------------------

  /** Grid points compare as their indices do. */
  lemma GridOrder(j: int, k: int, e: int)
    requires e > 0
    ensures j as real / e as real <= k as real / e as real <==> j <= k
  {
    RealCross(k, e, j, e);
    if j < k {
      MulStrictMono(e, j, k);
    } else if k < j {
      MulStrictMono(e, k, j);
    }
  }

  /** The next grid point is one step further. */
  lemma GridStep(q: int, e: int)
    requires e > 0
    ensures (q + 1) as real / e as real == q as real / e as real + 1.0 / e as real
  {
  }

  /** The index of a value that lies on the grid of step 1/e. */
  function GridIndex(g: Rational, e: int): (k: int)
    requires e > 0 && OnGrid(g, e)
    ensures k as real / e as real == Val(g)
  {
    DividesGivesWitness(g.den, e);
    var t := e / g.den;
    RealCross(g.num * t, e, g.num, g.den);
    g.num * t
  }

  /** An integer multiple of 1/e is on the grid of step 1/d, |d| == e. */
  lemma MakeOnGrid(q: int, e: int, d: int)
    requires e > 0 && Abs(d) == e
    ensures OnGrid(Make(q, e), d) && Val(Make(q, e)) == q as real / e as real
  {
    MakeValue(q, e);
  }

  /** A canonical finite value lies on the grid of its own denominator. */
  lemma OwnGrid(a: Rational)
    requires IsFinite(a)
    ensures OnGrid(a, a.den)
  {
    DividesRefl(a.den);
  }

  // ---------------------------------------------------------------------
  // The source's floor, ceil and round
  // ---------------------------------------------------------------------

  /** `floor(d)`: unless d is already the denominator, the numerator is
      scaled to d and divided by the old denominator with Java's `/`. The
      three branches on the common multiple compute the same quotient. An
      infinite value with a different d divides by its zero denominator. */
  function Floor(a: Rational, d: int): (r: Result<Rational, Exception>)
    ensures r.Failure? <==> d != a.den && !IsFinite(a)
    ensures r.Failure? ==> r.error == ArithmeticException
    ensures d == a.den ==> r == Success(a)
    ensures r.Success? && d != a.den ==> IsFinite(r.value)
    ensures r.Success? && d != 0 ==> OnGrid(r.value, d)
  {
    if d == a.den then
      MakeCanonical(a);
      if d != 0 then OwnGrid(a); Success(Make(a.num, a.den)) else Success(Make(a.num, a.den))
    else
      var s := Scm(a.den, d);
      if s == d then
        ScaledOnGrid(JDiv(a.num * s, a.den), d)
      else if s == a.den then
        var q :- JavaDiv(a.num * d, a.den);
        ScaledOnGrid(q, d)
      else
        ScaledOnGrid(JDiv(a.num * d, a.den), d)
  }

  /** `new Rational(q, d)` for a quotient q already divided onto the grid;
      a zero d only arises with a zero q. */
  function ScaledOnGrid(q: int, d: int): (r: Result<Rational, Exception>)
    ensures r.Success? && (d != 0 || q == 0 ==> IsFinite(r.value))
    ensures d != 0 ==> OnGrid(r.value, d)
    ensures d != 0 ==> Val(r.value) == q as real / d as real
  {
    if d != 0 then MakeValue(q, d); Success(Make(q, d)) else Success(Make(q, d))
  }

  /** `ceil(d)`: as `floor`, with den - 1 added to the scaled numerator
      before the truncating division. */
  function Ceil(a: Rational, d: int): (r: Result<Rational, Exception>)
    ensures r.Failure? <==> d != a.den && !IsFinite(a)
    ensures r.Failure? ==> r.error == ArithmeticException
    ensures d == a.den ==> r == Success(a)
    ensures r.Success? && d != a.den ==> IsFinite(r.value)
    ensures r.Success? && d != 0 ==> OnGrid(r.value, d)
  {
    if d == a.den then
      MakeCanonical(a);
      if d != 0 then OwnGrid(a); Success(Make(a.num, a.den)) else Success(Make(a.num, a.den))
    else
      var s := Scm(a.den, d);
      if s == d then
        var q := JDiv(a.num * s + a.den - 1, a.den);
        assert d == 0 ==> q == JDiv(a.den - 1, a.den) == 0;
        ScaledOnGrid(q, d)
      else if s == a.den then
        var q :- JavaDiv(a.num * d + a.den - 1, a.den);
        ScaledOnGrid(q, d)
      else
        ScaledOnGrid(JDiv(a.num * d + a.den - 1, a.den), d)
  }

  /** The magnitude `round` computes: a negative difference is negated. */
  lemma Magnitude(x: Rational)
    requires IsFinite(x)
    ensures IsFinite(if IsNegative(x) then Negate(x) else x)
    ensures Val(if IsNegative(x) then Negate(x) else x) == (if Val(x) >= 0.0 then Val(x) else -Val(x))
  {
    RealSign(x.num, x.den);
  }

  /** A difference is zero exactly when its value is. */
  lemma ZeroByValue(x: Rational)
    requires IsFinite(x)
    ensures IsZero(x) <==> Val(x) == 0.0
  {
    RealSign(x.num, x.den);
  }

  /** The choice at the end of `round`: the candidate at the smaller
      distance, the lower one on a tie. The source tests each difference
      for zero first, which picks the same candidate. */
  function Nearer(a: Rational, fl: Rational, cl: Rational): (r: Rational)
    requires IsFinite(a) && IsFinite(fl) && IsFinite(cl)
    ensures r == (if Dist(fl, a) <= Dist(cl, a) then fl else cl)
  {
    var diffFl := Subtract(a, fl).value;
    ZeroByValue(diffFl);
    if IsZero(diffFl) then
      fl
    else
      var diffCl := Subtract(a, cl).value;
      ZeroByValue(diffCl);
      if IsZero(diffCl) then
        cl
      else
        var absFl := if IsNegative(diffFl) then Negate(diffFl) else diffFl;
        var absCl := if IsNegative(diffCl) then Negate(diffCl) else diffCl;
        Magnitude(diffFl);
        Magnitude(diffCl);
        if CompareTo(absFl, absCl) <= 0 then fl else cl
  }

  /** `round(d)`: the nearer of `floor(d)` and `ceil(d)`. The source calls
      `ceil` only once the floor turned out inexact; `ceil` has no effects
      and fails exactly when `floor` does, so calling it first changes
      nothing. */
  function Round(a: Rational, d: int): (r: Result<Rational, Exception>)
    ensures r.Failure? <==> d != a.den && !IsFinite(a)
    ensures d == a.den ==> r == Success(a)
    ensures r.Success? && d != 0 ==> OnGrid(r.value, d)
    ensures r.Success? && d != a.den ==>
      var fl, cl := Floor(a, d).value, Ceil(a, d).value;
      (r.value == fl || r.value == cl) && Dist(r.value, a) <= Dist(fl, a) && Dist(r.value, a) <= Dist(cl, a)
    ensures r.Success? && d != a.den ==>
      var fl, cl := Floor(a, d).value, Ceil(a, d).value;
      r.value == (if Dist(fl, a) <= Dist(cl, a) then fl else cl)
  {
    if d == a.den then
      MakeCanonical(a);
      Success(Make(a.num, a.den))
    else
      var fl :- Floor(a, d);
      // ceil fails exactly when floor does
      var cl := Ceil(a, d).value;
      Success(Nearer(a, fl, cl))
  }

  // ---------------------------------------------------------------------
  // Rounding as documented
  // ---------------------------------------------------------------------

  /** The floor onto the grid of step 1/e. */
  lemma FloorValue(a: Rational, e: int)
    requires IsFinite(a) && e > 0
    ensures var q := (a.num * e) / a.den;
      q as real / e as real <= Val(a) < (q + 1) as real / e as real
  {
    var q := (a.num * e) / a.den;
    FloorBounds(a.num * e, a.den);
    RealCross(q, e, a.num, a.den);
    RealCross(a.num, a.den, q + 1, e);
  }

  /** The ceiling onto the grid of step 1/e. */
  lemma CeilValue(a: Rational, e: int)
    requires IsFinite(a) && e > 0
    ensures var q := -((-(a.num * e)) / a.den);
      (q - 1) as real / e as real < Val(a) <= q as real / e as real
  {
    var q := -((-(a.num * e)) / a.den);
    CeilBounds(a.num * e, a.den);
    RealCross(a.num, a.den, q, e);
    RealCross(q - 1, e, a.num, a.den);
  }

  /** The greatest value on the grid of step 1/|d| not above `a`. */
  function FloorCorrected(a: Rational, d: int): (r: Result<Rational, Exception>)
    ensures r.Failure? <==> d != a.den && !IsFinite(a)
    ensures r.Failure? ==> r.error == ArithmeticException
    ensures d == a.den ==> r == Success(a)
    ensures r.Success? && d != a.den ==> IsFinite(r.value)
    ensures r.Success? && d != 0 ==>
      OnGrid(r.value, d) && Val(r.value) <= Val(a) < Val(r.value) + 1.0 / Abs(d) as real
  {
    if d == a.den then
      if d != 0 then OwnGrid(a); Success(a) else Success(a)
    else if !IsFinite(a) then
      Failure(ArithmeticException)
    else
      var e := Abs(d);
      var q := (a.num * e) / a.den;
      if e != 0 then
        FloorValue(a, e);
        MakeOnGrid(q, e, d);
        GridStep(q, e);
        Success(Make(q, e))
      else
        assert q == 0;
        Success(Make(q, e))
  }

  /** The least value on the grid of step 1/|d| not below `a`. */
  function CeilCorrected(a: Rational, d: int): (r: Result<Rational, Exception>)
    ensures r.Failure? <==> d != a.den && !IsFinite(a)
    ensures r.Failure? ==> r.error == ArithmeticException
    ensures d == a.den ==> r == Success(a)
    ensures r.Success? && d != a.den ==> IsFinite(r.value)
    ensures r.Success? && d != 0 ==>
      OnGrid(r.value, d) && Val(a) <= Val(r.value) < Val(a) + 1.0 / Abs(d) as real
  {
    if d == a.den then
      if d != 0 then OwnGrid(a); Success(a) else Success(a)
    else if !IsFinite(a) then
      Failure(ArithmeticException)
    else
      var e := Abs(d);
      var q := -((-(a.num * e)) / a.den);
      if e != 0 then
        CeilValue(a, e);
        MakeOnGrid(q, e, d);
        GridStep(q - 1, e);
        Success(Make(q, e))
      else
        assert q == 0;
        Success(Make(q, e))
  }

  /** The nearer of the corrected floor and ceiling. */
  function RoundCorrected(a: Rational, d: int): (r: Result<Rational, Exception>)
    ensures r.Failure? <==> d != a.den && !IsFinite(a)
    ensures d == a.den ==> r == Success(a)
    ensures r.Success? && d != 0 ==> OnGrid(r.value, d)
  {
    if d == a.den then
      Success(a)
    else
      var fl :- FloorCorrected(a, d);
      var cl := CeilCorrected(a, d).value;
      Success(Nearer(a, fl, cl))
  }

  /** No grid point below `a` lies above the corrected floor. */
  lemma FloorCorrectedGreatest(a: Rational, d: int, g: Rational)
    requires IsFinite(a) && d != 0 && OnGrid(g, d) && Val(g) <= Val(a)
    ensures FloorCorrected(a, d).Success?
    ensures Val(g) <= Val(FloorCorrected(a, d).value)
  {
    if d != a.den {
      var e := Abs(d);
      var q := (a.num * e) / a.den;
      FloorValue(a, e);
      MakeOnGrid(q, e, d);
      var k := GridIndex(g, e);
      GridOrder(q + 1, k, e);
      GridOrder(k, q, e);
    }
  }

  /** No grid point above `a` lies below the corrected ceiling. */
  lemma CeilCorrectedLeast(a: Rational, d: int, g: Rational)
    requires IsFinite(a) && d != 0 && OnGrid(g, d) && Val(a) <= Val(g)
    ensures CeilCorrected(a, d).Success?
    ensures Val(CeilCorrected(a, d).value) <= Val(g)
  {
    if d != a.den {
      var e := Abs(d);
      var q := -((-(a.num * e)) / a.den);
      CeilValue(a, e);
      MakeOnGrid(q, e, d);
      var k := GridIndex(g, e);
      GridOrder(k, q - 1, e);
      GridOrder(q, k, e);
    }
  }

  /** The corrected round is the closest value on the grid. */
  lemma RoundCorrectedNearest(a: Rational, d: int, g: Rational)
    requires IsFinite(a) && d != 0 && OnGrid(g, d)
    ensures RoundCorrected(a, d).Success?
    ensures Dist(RoundCorrected(a, d).value, a) <= Dist(g, a)
  {
    if d != a.den {
      var fl, cl := FloorCorrected(a, d).value, CeilCorrected(a, d).value;
      assert RoundCorrected(a, d).value == Nearer(a, fl, cl);
      if Val(g) <= Val(a) {
        FloorCorrectedGreatest(a, d, g);
      } else {
        CeilCorrectedLeast(a, d, g);
      }
    }
  }

  // ---------------------------------------------------------------------
  // Where the source agrees with the documented rounding, and where not
  // ---------------------------------------------------------------------

  /** For a value that is not negative, the source's floor is exact, for
      every d. */
  lemma FloorAgrees(a: Rational, d: int)
    requires IsFinite(a) && a.num >= 0
    ensures Floor(a, d) == FloorCorrected(a, d)
  {
    if d != a.den {
      assert Floor(a, d) == ScaledOnGrid(JDiv(a.num * d, a.den), d);
      if d > 0 {
        MulNonneg(a.num, d);
        JDivNonneg(a.num * d, a.den);
      } else if d < 0 {
        FloorAgreesNegativeStep(a, d);
      }
    }
  }

  lemma FloorAgreesNegativeStep(a: Rational, d: int)
    requires IsFinite(a) && a.num >= 0 && d < 0
    ensures Make(JDiv(a.num * d, a.den), d) == Make((a.num * Abs(d)) / a.den, Abs(d))
  {
    var e := -d;
    var q := (a.num * e) / a.den;
    MulNonneg(a.num, e);
    assert a.num * d == -(a.num * e);
    JDivNonpos(a.num * d, a.den);
    MakeNegateBoth(q, e);
  }

  /** For a value that is not negative and a d that is not negative, the
      source's ceiling is exact. */
  lemma CeilAgrees(a: Rational, d: int)
    requires IsFinite(a) && a.num >= 0 && d >= 0
    ensures Ceil(a, d) == CeilCorrected(a, d)
  {
    if d != a.den {
      assert Ceil(a, d) == ScaledOnGrid(JDiv(a.num * d + a.den - 1, a.den), d);
      if d > 0 {
        MulNonneg(a.num, d);
        TruncCeilAgree(a.num * d, a.den);
      }
    }
  }

  /** Hence the source's round is exact on the same inputs. */
  lemma RoundAgrees(a: Rational, d: int)
    requires IsFinite(a) && a.num >= 0 && d >= 0
    ensures Round(a, d) == RoundCorrected(a, d)
  {
    FloorAgrees(a, d);
    CeilAgrees(a, d);
  }

  /** The source's floor of -1/2 onto the integers is 0, above the value;
      the greatest integer not above it is -1. */
  lemma FloorOfNegative()
    ensures Make(-1, 2) == Fraction(-1, 2)
    ensures Floor(Make(-1, 2), 1) == Success(Zero)
    ensures Less(Make(-1, 2), Zero)
    ensures FloorCorrected(Make(-1, 2), 1) == Success(Make(-1, 1))
  {
    assert Gcd(-1, 2) == 1;
    MakeCoprime(-1, 2);
    assert Gcd(-1, 1) == 1;
    MakeCoprime(-1, 1);
    ScmOne(2);
    assert JDiv(-1, 2) == 0;
    assert (-1 * 1) / 2 == -1;
  }

  /** The source's ceiling of -4/3 onto the integers is 0, while -1 is the
      least integer not below it. */
  lemma CeilOfNegative()
    ensures Make(-4, 3) == Fraction(-4, 3)
    ensures Ceil(Make(-4, 3), 1) == Success(Zero)
    ensures CeilCorrected(Make(-4, 3), 1) == Success(Make(-1, 1))
    ensures Less(Make(-4, 3), Make(-1, 1)) && Less(Make(-1, 1), Zero)
  {
    assert Gcd(-4, 3) == 1 by {
      assert GcdNat(4, 3) == GcdNat(3, 1) == GcdNat(1, 0) == 1;
    }
    MakeCoprime(-4, 3);
    assert Gcd(-1, 1) == 1;
    MakeCoprime(-1, 1);
    ScmOne(3);
    assert JDiv(-4 * 1 + 3 - 1, 3) == 0;
    assert -((-(-4 * 1)) / 3) == -1;
  }

  /** The source's round of -5/3 onto the integers is -1, at distance 2/3,
      while -2 is at distance 1/3. */
  lemma RoundOfNegative()
    ensures Make(-5, 3) == Fraction(-5, 3)
    ensures Round(Make(-5, 3), 1) == Success(Make(-1, 1))
    ensures RoundCorrected(Make(-5, 3), 1) == Success(Make(-2, 1))
  {
    var a := Make(-5, 3);
    assert Gcd(-5, 3) == 1 by {
      assert GcdNat(5, 3) == GcdNat(3, 2) == GcdNat(2, 1) == GcdNat(1, 0) == 1;
    }
    MakeCoprime(-5, 3);
    assert Gcd(-1, 1) == 1;
    MakeCoprime(-1, 1);
    assert Gcd(-2, 1) == 1;
    MakeCoprime(-2, 1);
    ScmOne(3);
    assert JDiv(-5 * 1, 3) == -1;
    assert JDiv(-5 * 1 + 3 - 1, 3) == -1;
    assert Floor(a, 1) == Success(Make(-1, 1));
    assert Ceil(a, 1) == Success(Make(-1, 1));
    assert (-5 * 1) / 3 == -2;
    assert -((-(-5 * 1)) / 3) == -1;
    assert FloorCorrected(a, 1) == Success(Make(-2, 1));
    assert CeilCorrected(a, 1) == Success(Make(-1, 1));
    assert Dist(Make(-2, 1), a) < Dist(Make(-1, 1), a);
  }

  /** With a negative d the source's ceiling of 1/2 is 0, below the value. */
  lemma CeilNegativeStep()
    ensures Make(1, 2) == Fraction(1, 2)
    ensures Ceil(Make(1, 2), -1) == Success(Zero)
    ensures Less(Zero, Make(1, 2))
    ensures CeilCorrected(Make(1, 2), -1) == Success(Make(1, 1))
  {
    assert Gcd(1, 2) == 1;
    MakeCoprime(1, 2);
    assert Gcd(1, 1) == 1;
    MakeCoprime(1, 1);
    ScmOne(2);
    assert JDiv(1 * -1 + 2 - 1, 2) == 0;
    assert -((-(1 * 1)) / 2) == 1;
  }
}
