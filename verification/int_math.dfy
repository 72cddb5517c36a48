/** Model of `IntMath`: the Java loops for gcd and scm (smallest common
    multiple) in their `int` and `long` overloads, `reverseBits`, and the
    Java integer operators the rest of the model needs (truncating
    division, the narrowing cast to `int`).

    Integers are unbounded: `long` overflow is not modelled (see README);
    the `int` overloads narrow to 32 bits explicitly. */
module IntMath {
  import opened Wrappers
  import opened Divisibility

  const Int32Min: int := -0x8000_0000
  const Int32Max: int := 0x7fff_ffff
  const Int64Min: int := -0x8000_0000_0000_0000
  const Int64Max: int := 0x7fff_ffff_ffff_ffff
  const Word: nat := 0x1_0000_0000

  predicate IsInt32(x: int) {
    Int32Min <= x <= Int32Max
  }

  /** Java's `/` on `int` and `long`: the quotient truncated toward zero
      (Dafny's `/` is Euclidean and differs for negative operands). */
  function JDiv(a: int, b: int): (q: int)
    requires b != 0
    ensures Abs(q) == Abs(a) / Abs(b)
    ensures q != 0 ==> (q < 0 <==> (a < 0) != (b < 0))
  {
    var m, n := Abs(a), Abs(b);
    assert n > 0;
    var q := m / n;
    assert q >= 0;
    if (a < 0) == (b < 0) then q else -q
  }

  /** Java's `/` with its error case: dividing by zero throws. */
  function JavaDiv(a: int, b: int): (r: Result<int, Exception>)
    ensures r.Failure? <==> b == 0
    ensures r.Failure? ==> r.error == ArithmeticException
    ensures r.Success? ==> r.value == JDiv(a, b)
    ensures r.Success? ==> Abs(r.value) * Abs(b) <= Abs(a) < (Abs(r.value) + 1) * Abs(b)
  {
    if b == 0 then Failure(ArithmeticException)
    else
      var q := JDiv(a, b);
      DivBounds(Abs(a), Abs(b));
      Success(q)
  }

  /** Euclidean division of naturals brackets the dividend. */
  lemma DivBounds(x: nat, y: nat)
    requires y > 0
    ensures (x / y) * y <= x < (x / y + 1) * y
  {
    var q, r := x / y, x % y;
    assert x == q * y + r;
    assert (q + 1) * y == q * y + y;
  }

  /** Java's narrowing cast `(int)` of a `long`: keep the low 32 bits, read
      them as a two's-complement number. */
  function ToInt32(x: int): (r: int)
    ensures IsInt32(r)
    ensures IsInt32(x) ==> r == x
    ensures Divides(Word, x - r)
  {
    var low := x % Word;
    var r := if low > Int32Max then low - Word else low;
    DividesByWitness(Word, x - r, if low > Int32Max then x / Word + 1 else x / Word);
    if IsInt32(x) then
      assert x >= 0 ==> x % Word == x by { if x >= 0 { DivModUnique(x, Word, 0, x); } }
      assert x < 0 ==> x % Word == x + Word by { if x < 0 { DivModUnique(x, Word, -1, x + Word); } }
      r
    else
      r
  }

  lemma JDivExact(a: int, b: int)
    requires b != 0 && Divides(Abs(b), a)
    ensures JDiv(a, b) * b == a
  {
    DividesAbs(Abs(b), a);
    DividesGivesWitness(Abs(b), Abs(a));
    var q := Abs(a) / Abs(b);
    assert Abs(a) == q * Abs(b);
  }

  lemma GcdNatSym(a: nat, b: nat)
    ensures GcdNat(a, b) == GcdNat(b, a)
  {
    GcdNatIsGcd(a, b);
    GcdNatIsGcd(b, a);
    GcdUnique(GcdNat(a, b), GcdNat(b, a), a, b);
  }

  lemma GcdNatSelf(a: nat)
    ensures GcdNat(a, a) == a
  {
    DividesRefl(a);
    GcdNatIsGcd(a, a);
    GcdUnique(GcdNat(a, a), a, a, a);
  }

  /** Subtracting the smaller argument from the larger keeps the gcd. */
  lemma GcdNatSub(x: nat, y: nat)
    requires 0 < x < y
    ensures GcdNat(x, y - x) == GcdNat(x, y)
  {
    var g := GcdNat(x, y);
    GcdNatIsGcd(x, y);
    GcdNatIsGcd(x, y - x);
    DividesLinear(g, y, x, -1);
    forall d: nat | Divides(d, x) && Divides(d, y - x)
      ensures Divides(d, g)
    {
      DividesLinear(d, y - x, x, 1);
    }
    GcdUnique(g, GcdNat(x, y - x), x, y - x);
  }

  lemma ModBound(x: nat, y: nat)
    requires y > 0
    ensures x % y < y && x % y <= x
  {
    if x < y {
      DivModUnique(x, y, 0, x);
    }
  }

  /** One remainder step of the Java loop keeps the gcd. */
  lemma GcdNatRem(x: nat, y: nat)
    requires y > 0
    ensures GcdNat(x % y, y) == GcdNat(x, y)
  {
    assert GcdNat(x, y) == GcdNat(y, x % y);
    GcdNatSym(x % y, y);
  }

  // -----------------------------------------------------------------------
  // gcd
  // -----------------------------------------------------------------------

  /** `IntMath.gcd(long, long)`: the Java loop, which alternates two
      remainder steps and returns the sum of what is left. */
  method GcdLong(a: int, b: int) returns (g: int)
    ensures g == Gcd(a, b)
    ensures b == 0 ==> g == Abs(a)
  {
    var x: nat, y: nat := Abs(a), Abs(b);
    ghost var G := GcdNat(x, y);
    while x > 0 && y > 0
      invariant GcdNat(x, y) == G
      decreases x + y
    {
      GcdNatRem(x, y);
      ModBound(x, y);
      x := x % y;
      if x > 0 {
        ModBound(y, x);
        GcdNatRem(y, x);
        GcdNatSym(y % x, x);
        GcdNatSym(y, x);
        y := y % x;
      }
    }
    if y == 0 {
      assert GcdNat(x, y) == x;
    } else {
      GcdNatSym(x, y);
      assert GcdNat(y, x) == y;
    }
    assert Gcd(a, b) == G;
    g := x + y;
  }

  /** Java's `Math.abs` on an `int`: `Integer.MIN_VALUE` has no positive
      counterpart and comes back unchanged. */
  function Abs32(x: int): (r: int)
    requires IsInt32(x)
    ensures IsInt32(r)
    ensures x != Int32Min ==> r == Abs(x)
    ensures x == Int32Min ==> r < 0
  {
    if x == Int32Min then x else Abs(x)
  }

  /** `IntMath.gcd(int, int)`: the same loop on 32-bit arguments. Away from
      `Integer.MIN_VALUE` it returns the gcd. At `MIN_VALUE` the absolute
      value stays negative, the loop does not run and the 32-bit sum of the
      two absolute values comes back. */
  method GcdInt(a: int, b: int) returns (g: int)
    requires IsInt32(a) && IsInt32(b)
    ensures IsInt32(g)
    ensures a != Int32Min && b != Int32Min ==> g == Gcd(a, b)
    ensures a == Int32Min || b == Int32Min ==> g == ToInt32(Abs32(a) + Abs32(b))
  {
    var x0, y0 := Abs32(a), Abs32(b);
    if x0 < 0 || y0 < 0 {
      // the loop guard is false at once
      return ToInt32(x0 + y0);
    }
    var x: nat, y: nat := x0, y0;
    ghost var G := GcdNat(x, y);
    while x > 0 && y > 0
      invariant x <= Int32Max && y <= Int32Max
      invariant GcdNat(x, y) == G
      decreases x + y
    {
      GcdNatRem(x, y);
      ModBound(x, y);
      x := x % y;
      if x > 0 {
        ModBound(y, x);
        GcdNatRem(y, x);
        GcdNatSym(y % x, x);
        GcdNatSym(y, x);
        y := y % x;
      }
    }
    if y == 0 {
      assert GcdNat(x, y) == x;
    } else {
      GcdNatSym(x, y);
      assert GcdNat(y, x) == y;
    }
    assert Gcd(a, b) == G;
    g := x + y;
  }

  // -----------------------------------------------------------------------
  // scm (least common multiple)
  // -----------------------------------------------------------------------

  lemma LcmLeast(a: nat, b: nat)
    requires a > 0 && b > 0
    ensures forall n: int :: n > 0 && Divides(a, n) && Divides(b, n) ==> LcmNat(a, b) <= n
  {
    LcmIsCommonMultiple(a, b);
    forall n: int | n > 0 && Divides(a, n) && Divides(b, n)
      ensures LcmNat(a, b) <= n
    {
      LcmDividesCommonMultiple(a, b, n);
      DividesLe(LcmNat(a, b), n);
    }
  }

  /** The smallest common multiple of |a| and |b|; 0 when either is 0. */
  function Scm(a: int, b: int): (m: nat)
    ensures m == 0 <==> a == 0 || b == 0
    ensures Divides(Abs(a), m) && Divides(Abs(b), m)
    ensures forall n: int :: n > 0 && Divides(Abs(a), n) && Divides(Abs(b), n) ==> m <= n
  {
    if a == 0 || b == 0 then
      0
    else
      LcmIsCommonMultiple(Abs(a), Abs(b));
      LcmLeast(Abs(a), Abs(b));
      LcmNat(Abs(a), Abs(b))
  }

  /** scm(a, ±1) is |a|: this is what the early return of the `long`
      overload produces. */
  lemma ScmOne(a: int)
    ensures Scm(a, 1) == Abs(a) && Scm(a, -1) == Abs(a)
  {
    if a != 0 {
      DividesByWitness(1, Abs(a), Abs(a));
      LcmIsCommonMultiple(Abs(a), 1);
      DividesLe(Abs(a), Scm(a, 1));
      DividesLe(Abs(a), Scm(a, -1));
    }
  }

  /** The final step of the subtraction loop: once both counters meet at
      the gcd, (u + v) / 2 is the lcm. */
  lemma ScmLoopResult(A: nat, B: nat, x: nat, u: int, v: int)
    requires A > 0 && B > 0 && x == GcdNat(A, B)
    requires x * v + x * u == 2 * A * B
    ensures u + v == 2 * LcmNat(A, B) && (u + v) / 2 == LcmNat(A, B)
  {
    GcdNatIsGcd(A, B);
    DividesGivesWitness(x, A);
    var a' := A / x;
    assert A == a' * x;
    assert LcmNat(A, B) == a' * B;
    assert x * (u + v) == x * v + x * u;
    ScmCancel(A, B, x, a', u + v);
  }

  lemma ScmCancel(A: int, B: int, x: int, a': int, s: int)
    requires x > 0 && A == a' * x && x * s == 2 * A * B
    ensures s == 2 * (a' * B) && s / 2 == a' * B
  {
    assert x * s == x * (2 * (a' * B));
    MulCancel(x, s, 2 * (a' * B));
  }

  /** One subtraction step of the scm loop keeps `x * v + y * u`. */
  lemma ScmStep(x: int, y: int, u: int, v: int)
    ensures x * (v + u) + (y - x) * u == x * v + y * u
    ensures (x - y) * v + y * (u + v) == x * v + y * u
  {
  }

  /** `IntMath.scm(long, long)`: the subtraction loop of the source, with
      the early return for a second argument of magnitude 1. */
  method ScmLong(a: int, b: int) returns (m: int)
    ensures m == Scm(a, b)
  {
    if a == 0 || b == 0 {
      return 0;
    }
    var x: nat, y: nat := Abs(a), Abs(b);
    if y == 1 {
      ScmOne(a);
      return x;
    }
    ghost var A, B := x, y;
    var u, v := x, y;
    while x != y
      invariant x > 0 && y > 0
      invariant GcdNat(x, y) == GcdNat(A, B)
      invariant x * v + y * u == 2 * A * B
      decreases x + y
    {
      ScmStep(x, y, u, v);
      if x < y {
        GcdNatSub(x, y);
        y := y - x;
        v := v + u;
      } else {
        GcdNatSym(x, y);
        GcdNatSub(y, x);
        GcdNatSym(x - y, y);
        x := x - y;
        u := u + v;
      }
    }
    GcdNatSelf(x);
    ScmLoopResult(A, B, x, u, v);
    assert Scm(a, b) == LcmNat(A, B);
    m := (u + v) / 2;
  }

  /** `IntMath.scm(int, int)`: the same loop without the early return, in
      32-bit arithmetic. `Math.abs` leaves Integer.MIN_VALUE negative, and
      with MIN_VALUE beside an argument other than 0 or MIN_VALUE the loop
      never ends (`ScmIntCycles`), so those inputs are required away. The
      counters u and v wrap on overflow but never steer the loop: the
      result is twice the lcm wrapped to 32 bits and halved by truncation,
      which is the lcm whenever its double fits an int. scm(MIN_VALUE,
      MIN_VALUE) wraps to 0. */
  method ScmInt(a: int, b: int) returns (m: int)
    requires IsInt32(a) && IsInt32(b)
    requires a == Int32Min || b == Int32Min ==> a == 0 || b == 0 || a == b
    ensures IsInt32(m)
    ensures a == 0 || b == 0 ==> m == 0
    ensures a == Int32Min && b == Int32Min ==> m == 0
    ensures a != Int32Min && b != Int32Min ==> m == JDiv(ToInt32(2 * Scm(a, b)), 2)
    ensures a != Int32Min && b != Int32Min && 2 * Scm(a, b) <= Int32Max ==> m == Scm(a, b)
  {
    if a == 0 || b == 0 {
      return 0;
    }
    var x, y := Abs32(a), Abs32(b);
    var u, v := x, y;
    ghost var A, B := Abs(a), Abs(b);
    ghost var U, V := u, v;
    if x > 0 {
      ScmPairStart(x, y);
    }
    while x != y
      invariant (a == Int32Min && x == Int32Min && y == Int32Min && U == V == Int32Min) || (a != Int32Min && b != Int32Min && ScmPair(x, y, U, V, A, B))
      invariant u == ToInt32(U) && v == ToInt32(V)
      decreases x + y
    {
      ScmPairStep(x, y, U, V, A, B);
      if x < y {
        y := ToInt32(y - x);
        WrapAdd(v, u, V, U);
        v := ToInt32(v + u);
        V := V + U;
      } else {
        x := ToInt32(x - y);
        WrapAdd(u, v, U, V);
        u := ToInt32(u + v);
        U := U + V;
      }
    }
    WrapAdd(u, v, U, V);
    if x > 0 {
      ScmIntResult(a, b, x, U, V);
    } else {
      assert ToInt32(U + V) == 0 by {
        DividesByWitness(Word, U + V, -1);
        ToInt32Congruent(U + V, 0);
      }
    }
    m := JDiv(ToInt32(u + v), 2);
  }

  /** The state of the subtraction loop away from MIN_VALUE: both
      arguments positive ints, their gcd that of the magnitudes A and B,
      and the unwrapped counters keeping x·V + y·U = 2·A·B. */
  ghost predicate ScmPair(x: int, y: int, U: int, V: int, A: nat, B: nat) {
    && 0 < x <= Int32Max && 0 < y <= Int32Max && A > 0 && B > 0
    && GcdNat(x, y) == GcdNat(A, B) && x * V + y * U == 2 * A * B
  }

  lemma ScmIntResult(a: int, b: int, x: int, U: int, V: int)
    requires a != 0 && b != 0
    requires ScmPair(x, x, U, V, Abs(a), Abs(b))
    ensures U + V == 2 * Scm(a, b)
  {
    GcdNatSelf(x);
    ScmLoopResult(Abs(a), Abs(b), x, U, V);
  }

  lemma ScmPairStart(x: int, y: int)
    requires 0 < x <= Int32Max && 0 < y <= Int32Max
    ensures ScmPair(x, y, x, y, x, y)
  {
    assert x * y + y * x == 2 * x * y;
  }

  lemma ScmPairStep(x: int, y: int, U: int, V: int, A: nat, B: nat)
    requires ScmPair(x, y, U, V, A, B) && x != y
    ensures x < y ==> ScmPair(x, y - x, U, V + U, A, B)
    ensures y < x ==> ScmPair(x - y, y, U + V, V, A, B)
  {
    ScmStep(x, y, U, V);
    if x < y {
      GcdNatSub(x, y);
    } else {
      GcdNatSym(x, y);
      GcdNatSub(y, x);
      GcdNatSym(x - y, y);
    }
  }

  /** Two values congruent modulo 2^32 narrow to the same int. */
  lemma ToInt32Congruent(x: int, y: int)
    requires Divides(Word, x - y)
    ensures ToInt32(x) == ToInt32(y)
  {
    DividesGivesWitness(Word, x - y);
    var k := (x - y) / Word;
    var q, r := y / Word, y % Word;
    assert x == (q + k) * Word + r;
    DivModUnique(x, Word, q + k, r);
  }

  /** Integer.MAX_VALUE + 1 wraps to Integer.MIN_VALUE. */
  lemma MaxPlusOneWraps()
    ensures ToInt32(Int32Max + 1) == Int32Min
  {
    DividesByWitness(Word, Int32Max + 1 - Int32Min, 1);
    ToInt32Congruent(Int32Max + 1, Int32Min);
  }

  /** Java's `int` addition of narrowed values narrows the exact sum. */
  lemma WrapAdd(p: int, q: int, P: int, Q: int)
    requires p == ToInt32(P) && q == ToInt32(Q)
    ensures ToInt32(p + q) == ToInt32(P + Q)
  {
    DividesNeg(Word, P - p);
    DividesNeg(Word, Q - q);
    DividesLinear(Word, p - P, q - Q, 1);
    assert (p + q) - (P + Q) == (p - P) + 1 * (q - Q);
    ToInt32Congruent(p + q, P + Q);
  }

  /** One pass of the `int` scm loop on the pair (a, b). */
  function ScmIntPass(a: int, b: int): (int, int) {
    if a < b then (a, ToInt32(b - a)) else (ToInt32(a - b), b)
  }

  /** With Integer.MIN_VALUE (what `Math.abs` leaves of it) beside a
      positive int, two passes of the loop bring the pair back to where it
      was without the two ever being equal, so `scm(int, int)` never
      returns. */
  lemma ScmIntCycles(b: int)
    requires 0 < b <= Int32Max
    ensures var p1 := ScmIntPass(Int32Min, b);
      Int32Min != b && p1.0 != p1.1 && ScmIntPass(p1.0, p1.1) == (Int32Min, b)
    ensures var p1 := ScmIntPass(b, Int32Min);
      p1.0 != p1.1 && ScmIntPass(p1.0, p1.1) == (b, Int32Min)
  {
    ToInt32Congruent(b - Int32Min, b - Word - Int32Min);
    assert ScmIntPass(Int32Min, b) == (Int32Min, b + Int32Min);
    assert ScmIntPass(b, Int32Min) == (b + Int32Min, Int32Min);
  }

  // -----------------------------------------------------------------------
  // reverseBits
  // -----------------------------------------------------------------------

  function Pow2(n: nat): (p: nat)
    ensures p > 0
  {
    if n == 0 then 1 else 2 * Pow2(n - 1)
  }

  /** Bit `i` of the unsigned number `x`. */
  function Bit(x: nat, i: nat): bool {
    if i == 0 then x % 2 == 1 else Bit(x / 2, i - 1)
  }

  /** `r` is the reversal of the low `n` bits of `a`: it has no bits at or
      above `n`, and its bit `i` is bit `n - 1 - i` of `a`. */
  ghost predicate IsReversal(r: nat, a: nat, n: nat) {
    && r < Pow2(n)
    && forall i :: 0 <= i < n ==> Bit(r, i) == Bit(a, n - 1 - i)
  }

  /** `IntMath.reverseBits(int, int)`. The `int` argument is taken as its
      unsigned 32-bit pattern (the loop shifts it with `>>>`), and so is the
      result. The left shift of the accumulator wraps at 32 bits, which
      only matters for more than 32 iterations. */
  method ReverseBits(a: nat, numBits: int) returns (b: nat)
    requires a < Word
    ensures b < Word
    ensures 0 <= numBits <= 32 ==> IsReversal(b, a, numBits)
  {
    b := 0;
    var x: nat := a;
    var i := 0;
    while i < numBits
      invariant b < Word
      invariant 0 <= i && (numBits >= 0 ==> i <= numBits)
      invariant forall j: nat :: Bit(x, j) == Bit(a, i + j)
      invariant i <= 32 ==> b < Pow2(i)
      invariant i <= 32 ==> forall j :: 0 <= j < i ==> Bit(b, j) == Bit(a, i - 1 - j)
    {
      if i < 32 {
        ShiftInBit(b, x, a, i, 2 * b + x % 2);
        DivModUnique(2 * b + x % 2, Word, 0, 2 * b + x % 2);
      }
      ShiftOutBit(x, a, i);
      b := (2 * b + x % 2) % Word;
      x := x / 2;
      i := i + 1;
    }
  }

  /** Shifting the accumulator left and or-ing in bit i of `a` extends the
      reversed prefix by one bit. */
  lemma ShiftInBit(b: nat, x: nat, a: nat, i: nat, c: nat)
    requires i < 32 && b < Pow2(i) && Bit(x, 0) == Bit(a, i)
    requires forall j :: 0 <= j < i ==> Bit(b, j) == Bit(a, i - 1 - j)
    requires c == 2 * b + x % 2
    ensures c < Pow2(i + 1) <= Word
    ensures forall j :: 0 <= j < i + 1 ==> Bit(c, j) == Bit(a, i - j)
  {
    Pow2Le32(i + 1);
    DivModUnique(c, 2, b, x % 2);
    forall j | 0 <= j < i + 1
      ensures Bit(c, j) == Bit(a, i - j)
    {
      if j > 0 {
        assert Bit(c, j) == Bit(b, j - 1);
      }
    }
  }

  /** The unsigned right shift moves bit i + 1 down to bit i. */
  lemma ShiftOutBit(x: nat, a: nat, i: nat)
    requires forall j: nat :: Bit(x, j) == Bit(a, i + j)
    ensures forall j: nat :: Bit(x / 2, j) == Bit(a, i + 1 + j)
  {
    forall j: nat
      ensures Bit(x / 2, j) == Bit(a, i + 1 + j)
    {
      assert Bit(x, j + 1) == Bit(a, i + (j + 1));
    }
  }

  lemma Pow2Le32(n: nat)
    requires n <= 32
    ensures Pow2(n) <= Word
    decreases 32 - n
  {
    if n < 32 {
      Pow2Le32(n + 1);
    } else {
      Pow2Word();
    }
  }

  lemma {:induction false} Pow2Add(m: nat, n: nat)
    ensures Pow2(m + n) == Pow2(m) * Pow2(n)
    decreases m
  {
    if m > 0 {
      Pow2Add(m - 1, n);
    }
  }

  lemma Pow2Word()
    ensures Pow2(32) == Word
  {
    assert Pow2(2) == 4;
    Pow2Add(2, 2);
    Pow2Add(4, 4);
    Pow2Add(8, 8);
    Pow2Add(16, 16);
  }

  /** `IntMath.reverseBits(int)`: all 32 bits. */
  method ReverseAllBits(a: nat) returns (b: nat)
    requires a < Word
    ensures IsReversal(b, a, 32)
  {
    b := ReverseBits(a, 32);
  }

  /** Two numbers below 2^n with the same low n bits are equal. */
  lemma {:induction false} BitsDetermine(x: nat, y: nat, n: nat)
    requires x < Pow2(n) && y < Pow2(n)
    requires forall i :: 0 <= i < n ==> Bit(x, i) == Bit(y, i)
    ensures x == y
  {
    if n > 0 {
      forall i | 0 <= i < n - 1
        ensures Bit(x / 2, i) == Bit(y / 2, i)
      {
        assert Bit(x, i + 1) == Bit(y, i + 1);
      }
      BitsDetermine(x / 2, y / 2, n - 1);
      assert Bit(x, 0) == Bit(y, 0);
    }
  }

  /** Taking a number modulo 2^n keeps its low n bits. */
  lemma {:induction false} BitsOfLow(a: nat, n: nat, i: nat)
    requires i < n
    ensures Bit(a % Pow2(n), i) == Bit(a, i)
  {
    var P := Pow2(n - 1);
    assert Pow2(n) == 2 * P;
    var q, r := a / (2 * P), a % (2 * P);
    assert a == 2 * (q * P + r / 2) + r % 2;
    DivModUnique(a, 2, q * P + r / 2, r % 2);
    DivModUnique(a / 2, P, q, r / 2);
    if i == 0 {
      assert r % 2 == a % 2;
    } else {
      assert r / 2 == (a / 2) % P;
      BitsOfLow(a / 2, n - 1, i - 1);
    }
  }

  /** Reversing the low n bits twice gives back the low n bits. */
  lemma ReverseTwice(a: nat, r: nat, r2: nat, n: nat)
    requires IsReversal(r, a, n) && IsReversal(r2, r, n)
    ensures r2 == a % Pow2(n)
  {
    forall i | 0 <= i < n
      ensures Bit(r2, i) == Bit(a % Pow2(n), i)
    {
      BitsOfLow(a, n, i);
      assert Bit(r2, i) == Bit(r, n - 1 - i);
    }
    BitsDetermine(r2, a % Pow2(n), n);
  }
}
