/** Complex numbers over the reals. */
module Complex {

  datatype Cpx = Cpx(re: real, im: real)

  const Zero := Cpx(0.0, 0.0)
  const One := Cpx(1.0, 0.0)

  function Add(a: Cpx, b: Cpx): Cpx { Cpx(a.re + b.re, a.im + b.im) }

  function Sub(a: Cpx, b: Cpx): Cpx { Cpx(a.re - b.re, a.im - b.im) }

  function Neg(a: Cpx): Cpx { Cpx(-a.re, -a.im) }

  function Mul(a: Cpx, b: Cpx): Cpx { Cpx(a.re * b.re - a.im * b.im, a.re * b.im + a.im * b.re) }

  function Conj(a: Cpx): Cpx { Cpx(a.re, -a.im) }

  function Scale(k: real, a: Cpx): Cpx { Cpx(k * a.re, k * a.im) }

  function Times(x: real, y: real): real { x * y }

  function Square(x: real): real { Times(x, x) }

  function NormSq(a: Cpx): real { Square(a.re) + Square(a.im) }

  lemma MulComm(a: Cpx, b: Cpx)
    ensures Mul(a, b) == Mul(b, a)
  {
  }

  lemma MulAssoc(a: Cpx, b: Cpx, c: Cpx)
    ensures Mul(Mul(a, b), c) == Mul(a, Mul(b, c))
  {
    Distribute(a.re * b.re, a.im * b.im, c.re);
    Distribute(a.re * b.re, a.im * b.im, c.im);
    Distribute(a.re * b.im, -(a.im * b.re), c.re);
    Distribute(a.re * b.im, -(a.im * b.re), c.im);
    Distribute(b.re * c.re, b.im * c.im, a.re);
    Distribute(b.re * c.re, b.im * c.im, a.im);
    Distribute(b.re * c.im, -(b.im * c.re), a.re);
    Distribute(b.re * c.im, -(b.im * c.re), a.im);
    Triple(a.re, b.re, c.re); Triple(a.re, b.re, c.im); Triple(a.re, b.im, c.re); Triple(a.re, b.im, c.im);
    Triple(a.im, b.re, c.re); Triple(a.im, b.re, c.im); Triple(a.im, b.im, c.re); Triple(a.im, b.im, c.im);
  }

  lemma Distribute(x: real, y: real, z: real)
    ensures (x - y) * z == x * z - y * z && z * (x - y) == x * z - y * z
  {
  }

  lemma Triple(x: real, y: real, z: real)
    ensures (x * y) * z == x * (y * z)
  {
  }

  lemma MulAdd(a: Cpx, b: Cpx, c: Cpx)
    ensures Mul(Add(a, b), c) == Add(Mul(a, c), Mul(b, c))
    ensures Mul(c, Add(a, b)) == Add(Mul(c, a), Mul(c, b))
  {
    Distribute(a.re, -b.re, c.re); Distribute(a.re, -b.re, c.im);
    Distribute(a.im, -b.im, c.re); Distribute(a.im, -b.im, c.im);
  }

  lemma AddAssoc(a: Cpx, b: Cpx, c: Cpx)
    ensures Add(Add(a, b), c) == Add(a, Add(b, c))
  {
  }

  lemma ConjMul(a: Cpx, b: Cpx)
    ensures Conj(Mul(a, b)) == Mul(Conj(a), Conj(b))
  {
  }

  lemma MulConj(a: Cpx)
    ensures Mul(a, Conj(a)) == Cpx(NormSq(a), 0.0)
  {
  }

  lemma MulScale(k: real, a: Cpx, b: Cpx)
    ensures Mul(a, Scale(k, b)) == Scale(k, Mul(a, b)) && Mul(Scale(k, a), b) == Scale(k, Mul(a, b))
  {
    hide Mul;
    hide Scale;
    MulScaleRight(k, a, b);
    MulScaleRight(k, b, a);
    MulComm(a, b);
    MulComm(Scale(k, a), b);
  }

  lemma MulScaleRight(k: real, a: Cpx, b: Cpx)
    ensures Mul(a, Scale(k, b)) == Scale(k, Mul(a, b))
  {
    var s, m := Scale(k, b), Mul(a, b);
    Subst(a.re, s.re, k * b.re); Subst(a.im, s.im, k * b.im);
    Subst(a.re, s.im, k * b.im); Subst(a.im, s.re, k * b.re);
    Pull(k, a.re, b.re); Pull(k, a.im, b.im); Pull(k, a.re, b.im); Pull(k, a.im, b.re);
    DistributeLeft(k, a.re * b.re, a.im * b.im);
    DistributeLeft(k, a.re * b.im, a.im * b.re);
    Subst(k, m.re, a.re * b.re - a.im * b.im);
    Subst(k, m.im, a.re * b.im + a.im * b.re);
  }

  lemma Subst(x: real, y: real, z: real)
    requires y == z
    ensures x * y == x * z
  {
  }

  lemma Pull(k: real, x: real, y: real)
    ensures x * (k * y) == k * (x * y) && (k * x) * y == k * (x * y)
  {
    Triple(k, x, y);
    Triple(x, k, y);
  }

  lemma DistributeLeft(k: real, x: real, y: real)
    ensures k * (x - y) == k * x - k * y && k * (x + y) == k * x + k * y
  {
  }

  lemma ProductPositive(x: real, y: real)
    requires x > 0.0 && y > 0.0
    ensures Times(x, y) > 0.0 && x * y > 0.0
  {
  }

  lemma SquarePositive(x: real)
    ensures Square(x) >= 0.0 && (x != 0.0 ==> Square(x) > 0.0)
  {
    if x > 0.0 {
      ProductPositive(x, x);
    } else if x < 0.0 {
      ProductPositive(-x, -x);
      assert Times(-x, -x) == Times(x, x);
    }
  }

  lemma NormSqPositive(a: Cpx)
    requires a != Zero
    ensures NormSq(a) > 0.0
  {
    SquarePositive(a.re);
    SquarePositive(a.im);
  }

  lemma MulReal(k: real, a: Cpx)
    ensures Mul(Cpx(k, 0.0), a) == Scale(k, a) && Mul(a, Cpx(k, 0.0)) == Scale(k, a)
  {
  }
}
