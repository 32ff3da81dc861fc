/** Powers and finite sums of complex numbers, and the roots of unity that make up an FFT's twiddle table. */
module RootsOfUnity {
  import opened Complex

  function Power(r: Cpx, e: int): Cpx {
    if e <= 0 then One else Mul(Power(r, e - 1), r)
  }

  function Sum(f: int -> Cpx, n: int): Cpx {
    if n <= 0 then Zero else Add(Sum(f, n - 1), f(n - 1))
  }

  // ---------------------------------------------------------------- powers

  lemma MulOne(a: Cpx)
    ensures Mul(a, One) == a && Mul(One, a) == a
  {
  }

  lemma ZeroLaws(a: Cpx)
    ensures Mul(Zero, a) == Zero && Add(Zero, a) == a && Add(a, Zero) == a
  {
  }

  lemma ConjOne()
    ensures Conj(One) == One
  {
  }

  lemma {:induction false} PowerAdd(r: Cpx, a: nat, b: nat)
    ensures Power(r, a + b) == Mul(Power(r, a), Power(r, b))
  {
    hide Mul;
    if b == 0 {
      MulOne(Power(r, a));
    } else {
      PowerAdd(r, a, b - 1);
      assert Power(r, a + b) == Mul(Power(r, a + (b - 1)), r);
      MulAssoc(Power(r, a), Power(r, b - 1), r);
    }
  }

  lemma MulStep(a: nat, b: nat)
    requires b > 0
    ensures a * b == a * (b - 1) + a && a * (b - 1) >= 0
  {
  }

  lemma {:induction false} PowerMul(r: Cpx, a: nat, b: nat)
    ensures Power(r, a * b) == Power(Power(r, a), b)
  {
    hide Mul;
    if b > 0 {
      MulStep(a, b);
      PowerMul(r, a, b - 1);
      PowerAdd(r, a * (b - 1), a);
    }
  }

  lemma {:induction false} PowerOfOne(r: Cpx, e: nat)
    requires r == One
    ensures Power(r, e) == One
  {
    hide Mul;
    if e > 0 {
      PowerOfOne(r, e - 1);
      MulOne(r);
    }
  }

  lemma PowerPeriod(r: Cpx, n: nat, e: nat, c: nat)
    requires Power(r, n) == One
    ensures Power(r, e + n * c) == Power(r, e)
  {
    hide Mul;
    PowerAdd(r, e, n * c);
    PowerMul(r, n, c);
    PowerOfOne(Power(r, n), c);
    MulOne(Power(r, e));
  }

  lemma {:induction false} ConjPower(r: Cpx, e: nat)
    ensures Conj(Power(r, e)) == Power(Conj(r), e)
  {
    hide Mul;
    hide Conj;
    if e == 0 {
      ConjOne();
    } else {
      ConjPower(r, e - 1);
      ConjMul(Power(r, e - 1), r);
    }
  }

  lemma SwapMiddle(a: Cpx, b: Cpx, c: Cpx, d: Cpx)
    ensures Mul(Mul(a, b), Mul(c, d)) == Mul(Mul(a, c), Mul(b, d))
  {
    hide Mul;
    MulAssoc(a, b, Mul(c, d));
    MulAssoc(b, c, d);
    MulComm(b, c);
    MulAssoc(c, b, d);
    MulAssoc(a, c, Mul(b, d));
  }

  lemma {:induction false} PowerOfProduct(a: Cpx, b: Cpx, e: nat)
    ensures Power(Mul(a, b), e) == Mul(Power(a, e), Power(b, e))
  {
    hide Mul;
    if e == 0 {
      MulOne(One);
    } else {
      PowerOfProduct(a, b, e - 1);
      SwapMiddle(Power(a, e - 1), Power(b, e - 1), a, b);
    }
  }

  lemma UnitPower(r: Cpx, e: nat)
    requires NormSq(r) == 1.0
    ensures Mul(Power(r, e), Conj(Power(r, e))) == One
  {
    hide Mul;
    MulConj(r);
    PowerOfProduct(r, Conj(r), e);
    PowerOfOne(Mul(r, Conj(r)), e);
    ConjPower(r, e);
  }

  /** On the unit circle, going the rest of the way round is going back. */
  lemma ComplementIsConj(r: Cpx, n: nat, e: nat, d: nat)
    requires NormSq(r) == 1.0 && Power(r, n) == One && e + d == n
    ensures Power(r, d) == Conj(Power(r, e))
  {
    hide Mul;
    var a, b := Power(r, d), Power(r, e);
    UnitPower(r, e);
    PowerAdd(r, d, e);
    MulAssoc(a, b, Conj(b));
    MulOne(a);
    MulOne(Conj(b));
  }

  // ---------------------------------------------------------------- sums

  lemma {:induction false} SumEq(f: int -> Cpx, g: int -> Cpx, n: nat)
    requires forall i :: 0 <= i < n ==> f(i) == g(i)
    ensures Sum(f, n) == Sum(g, n)
  {
    if n > 0 { SumEq(f, g, n - 1); }
  }

  lemma AddSwap(a: Cpx, b: Cpx, c: Cpx, d: Cpx)
    ensures Add(Add(a, b), Add(c, d)) == Add(Add(a, c), Add(b, d))
  {
  }

  lemma {:induction false} SumAdd(f: int -> Cpx, g: int -> Cpx, n: nat)
    ensures Sum(i => Add(f(i), g(i)), n) == Add(Sum(f, n), Sum(g, n))
  {
    hide Add;
    if n == 0 {
      ZeroLaws(Zero);
    } else {
      SumAdd(f, g, n - 1);
      AddSwap(Sum(f, n - 1), Sum(g, n - 1), f(n - 1), g(n - 1));
    }
  }

  lemma {:induction false} SumMul(f: int -> Cpx, c: Cpx, n: nat)
    ensures Sum(i => Mul(f(i), c), n) == Mul(Sum(f, n), c)
  {
    hide Mul;
    if n == 0 {
      ZeroLaws(c);
    } else {
      SumMul(f, c, n - 1);
      MulAdd(Sum(f, n - 1), f(n - 1), c);
    }
  }

  lemma {:induction false} SumZero(f: int -> Cpx, n: nat)
    requires forall i :: 0 <= i < n ==> f(i) == Zero
    ensures Sum(f, n) == Zero
  {
    if n > 0 { SumZero(f, n - 1); }
  }

  lemma {:induction false} SumConcat(f: int -> Cpx, a: nat, b: nat)
    ensures Sum(f, a + b) == Add(Sum(f, a), Sum(i => f(a + i), b))
  {
    hide Add;
    var g := i => f(a + i);
    if b == 0 {
      ZeroLaws(Sum(f, a));
    } else {
      SumConcat(f, a, b - 1);
      assert Sum(f, a + b) == Add(Sum(f, a + (b - 1)), f(a + (b - 1)));
      assert Sum(g, b) == Add(Sum(g, b - 1), f(a + (b - 1)));
      AddAssoc(Sum(f, a), Sum(g, b - 1), f(a + (b - 1)));
    }
  }

  lemma {:induction false} SumSwap(g: (int, int) -> Cpx, a: nat, b: nat)
    ensures Sum(i => Sum(j => g(i, j), b), a) == Sum(j => Sum(i => g(i, j), a), b)
  {
    hide Add;
    var rows := i => Sum(j => g(i, j), b);
    var columns := j => Sum(i => g(i, j), a);
    if a == 0 {
      SumZero(columns, b);
    } else {
      var before := j => Sum(i => g(i, j), a - 1);
      var last := j => g(a - 1, j);
      SumSwap(g, a - 1, b);
      SumAdd(before, last, b);
      SumEq(j => Add(before(j), last(j)), columns, b);
    }
  }

  lemma {:induction false} SumBlocks(f: int -> Cpx, p: nat, m: nat)
    ensures Sum(f, p * m) == Sum(t => Sum(q => f(p * t + q), p), m)
  {
    hide Add;
    if m > 0 {
      SumBlocks(f, p, m - 1);
      MulStep(p, m);
      SumConcat(f, p * (m - 1), p);
    }
  }

  /** Summing p interleaved subsequences of m terms is summing all p m terms. */
  lemma SumInterleaved(f: int -> Cpx, p: nat, m: nat)
    ensures Sum(f, p * m) == Sum(q => Sum(t => f(p * t + q), m), p)
  {
    hide Add;
    hide Sum;
    SumBlocks(f, p, m);
    var g := (t: int, q: int) => f(p * t + q);
    var blocks, threads := t => Sum(q => f(p * t + q), p), q => Sum(t => f(p * t + q), m);
    forall t ensures blocks(t) == Sum(q => g(t, q), p) {
      SumEq(q => f(p * t + q), q => g(t, q), p);
    }
    forall q ensures threads(q) == Sum(t => g(t, q), m) {
      SumEq(t => f(p * t + q), t => g(t, q), m);
    }
    SumEq(blocks, t => Sum(q => g(t, q), p), m);
    SumSwap(g, m, p);
    SumEq(threads, q => Sum(t => g(t, q), m), p);
  }

  // ---------------------------------------------------------------- roots of unity

  /** What kf_cexp gives kiss_fft_alloc for one step of phase: a primitive n-th root of unity on the
      unit circle, turning one way or the other. */
  ghost predicate IsRoot(r: Cpx, n: nat, inverse: bool) {
    && n >= 1 && Power(r, n) == One && NormSq(r) == 1.0
    && (forall i :: 0 < i < n ==> Power(r, i) != One)
    && (forall q :: 4 * q == n ==> Power(r, q) == Cpx(0.0, if inverse then 1.0 else -1.0))
  }

  lemma FactorSquare(x: real)
    ensures Times(x - 1.0, x + 1.0) == Times(x, x) - 1.0
  {
  }

  lemma SquareIsOne(x: real)
    requires Times(x, x) == 1.0
    ensures x == 1.0 || x == -1.0
  {
    hide Times;
    FactorSquare(x);
    ZeroProduct(x - 1.0, x + 1.0);
  }

  /** The norm of a number on the real axis. */
  lemma RealNorm(c: Cpx)
    requires c.im == 0.0
    ensures Mul(c, Conj(c)) == Cpx(Times(c.re, c.re), 0.0)
  {
    var x, y := c.re, c.im;
    assert y * (-y) == 0.0 && x * (-y) + y * x == 0.0;
  }

  lemma RealUnit(c: Cpx)
    requires c == Conj(c) && Mul(c, Conj(c)) == One && c != One
    ensures c == Cpx(-1.0, 0.0)
  {
    hide Mul;
    hide Times;
    RealNorm(c);
    SquareIsOne(c.re);
  }

  lemma HalfTurn(r: Cpx, n: nat, h: nat, inverse: bool)
    requires IsRoot(r, n, inverse) && h + h == n
    ensures Power(r, h) == Cpx(-1.0, 0.0)
  {
    hide Mul;
    ComplementIsConj(r, n, h, h);
    UnitPower(r, h);
    RealUnit(Power(r, h));
  }

  lemma ZeroProduct(x: real, y: real)
    requires Times(x, y) == 0.0
    ensures x == 0.0 || y == 0.0
  {
    if x != 0.0 {
      assert y == (x * y) / x;
    }
  }

  lemma SelfProductIm(c: Cpx)
    ensures Times(2.0 * c.re + 1.0, c.im) == Mul(c, c).im + c.im
  {
    var x, y := c.re, c.im;
    assert (2.0 * x + 1.0) * y == 2.0 * (x * y) + y;
  }

  lemma CubeRoot(c: Cpx)
    requires Mul(c, c) == Conj(c) && Mul(c, Conj(c)) == One && c != One
    ensures c.re == -0.5
  {
    hide Mul;
    hide Times;
    SelfProductIm(c);
    ZeroProduct(2.0 * c.re + 1.0, c.im);
    if c.im == 0.0 {
      RealNorm(c);
      SquareIsOne(c.re);
    }
  }

  /** The real part of a cube root of unity is minus a half. */
  lemma ThirdTurn(r: Cpx, n: nat, t: nat, inverse: bool)
    requires IsRoot(r, n, inverse) && t + t + t == n
    ensures Power(r, t).re == -0.5 && Power(r, t + t) == Conj(Power(r, t))
  {
    hide Mul;
    ComplementIsConj(r, n, t, t + t);
    PowerAdd(r, t, t);
    UnitPower(r, t);
    CubeRoot(Power(r, t));
  }

  // ---------------------------------------------------------------- orthogonality

  lemma MulLessOne(a: Cpx, z: Cpx)
    ensures Mul(a, Sub(z, One)) == Sub(Mul(a, z), a)
  {
    Distribute(z.re, 1.0, a.re);
    Distribute(z.re, 1.0, a.im);
  }

  lemma {:induction false} Geometric(z: Cpx, n: nat)
    ensures Mul(Sum(k => Power(z, k), n), Sub(z, One)) == Sub(Power(z, n), One)
  {
    var f := k => Power(z, k);
    if n == 0 {
      assert Mul(Zero, Sub(z, One)) == Zero;
    } else {
      Geometric(z, n - 1);
      MulAdd(Sum(f, n - 1), f(n - 1), Sub(z, One));
      MulLessOne(Power(z, n - 1), z);
    }
  }

  lemma NoZeroDivisors(a: Cpx, b: Cpx)
    requires Mul(a, b) == Zero && b != Zero
    ensures a == Zero
  {
    MulAssoc(a, b, Conj(b));
    MulConj(b);
    NormSqPositive(b);
    MulReal(NormSq(b), a);
    assert Mul(Zero, Conj(b)) == Zero;
    var k := NormSq(b);
    assert k * a.re == 0.0 && k * a.im == 0.0;
  }

  lemma RootSumVanishes(z: Cpx, n: nat)
    requires Power(z, n) == One && z != One
    ensures Sum(k => Power(z, k), n) == Zero
  {
    hide Mul;
    Geometric(z, n);
    assert Sub(z, One) != Zero;
    NoZeroDivisors(Sum(k => Power(z, k), n), Sub(z, One));
  }

  lemma {:induction false} SumOfOnes(z: Cpx, n: nat)
    requires z == One
    ensures Sum(k => Power(z, k), n) == Cpx(n as real, 0.0)
  {
    hide Mul;
    if n > 0 {
      SumOfOnes(z, n - 1);
      PowerOfOne(z, n - 1);
    }
  }
}
