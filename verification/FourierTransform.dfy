/** The discrete Fourier transform kiss_fft computes: its definition, the decimation in time its
    recursion rests on, and the transform back. */
module FourierTransform {
  import opened Complex
  import opened RootsOfUnity

  function At(x: seq<Cpx>, i: int): Cpx {
    if 0 <= i < |x| then x[i] else Zero
  }

  function Term(x: seq<Cpx>, from: int, stride: int, r: Cpx, s: int, k: int, j: int): Cpx {
    Mul(At(x, from + j * stride), Power(r, s * j * k))
  }

  /** Output k of the transform of the n samples x[from], x[from + stride], ... with the root r^s. */
  function Dft(x: seq<Cpx>, from: int, stride: int, n: int, r: Cpx, s: int, k: int): Cpx {
    Sum(j => Term(x, from, stride, r, s, k, j), n)
  }

  /** Output k from the outputs y of p shorter transforms. */
  function Recombined(y: int -> Cpx, p: int, r: Cpx, s: int, k: int): Cpx {
    Sum(q => Mul(y(q), Power(r, s * q * k)), p)
  }

  lemma Exponents(s: nat, p: nat, m: nat, t: nat, q: nat, u: nat, q1: nat)
    ensures s * (p * t + q) * (u + q1 * m) == (s * p * t * u + s * q * (u + q1 * m)) + s * p * m * (t * q1)
    ensures s * p * t * u >= 0 && s * q * (u + q1 * m) >= 0 && s * p * m * (t * q1) >= 0
  {
    var a, k := s * p * t, u + q1 * m;
    NonNegative(s, p, t, u);
    ProductNonNegative(q1, m);
    NonNegative(s, q, k, 1);
    NonNegative(s * p, m, t, q1);
    Spread(s, p * t, q, k);
    assert s * (p * t) == a;
    Regrouped(a, u, q1, m);
    Exchange(s * p, t, q1, m);
  }

  lemma Spread(s: int, x: int, y: int, k: int)
    ensures s * (x + y) * k == s * x * k + s * y * k
  {
    assert s * (x + y) == s * x + s * y;
  }

  lemma Regrouped(a: int, u: int, q1: int, m: int)
    ensures a * (u + q1 * m) == a * u + a * (q1 * m)
  {
  }

  lemma Exchange(x: int, t: int, q1: int, m: int)
    ensures (x * t) * (q1 * m) == x * m * (t * q1)
  {
    assert (x * t) * (q1 * m) == x * (t * (q1 * m));
    assert t * (q1 * m) == m * (t * q1);
    assert x * (m * (t * q1)) == x * m * (t * q1);
  }

  lemma NonNegative(a: nat, b: nat, c: nat, d: nat)
    ensures a * b >= 0 && c * d >= 0 && a * b * c >= 0 && a * b * c * d >= 0 && a * b * (c * d) >= 0
  {
    ProductNonNegative(a, b);
    ProductNonNegative(c, d);
    ProductNonNegative(a * b, c);
    ProductNonNegative(a * b * c, d);
    ProductNonNegative(a * b, c * d);
  }

  lemma ProductNonNegative(a: nat, b: nat)
    ensures a * b >= 0
  {
  }

  lemma Indices(from: int, p: int, t: int, q: int, stride: int)
    ensures from + (p * t + q) * stride == (from + q * stride) + t * (stride * p)
  {
  }

  lemma TermSplits(x: seq<Cpx>, from: int, stride: int, r: Cpx, n: nat,
                   s: nat, p: nat, m: nat, t: nat, q: nat, u: nat, q1: nat)
    requires Power(r, n) == One && s * p * m == n
    ensures Term(x, from, stride, r, s, u + q1 * m, p * t + q)
            == Mul(Term(x, from + q * stride, stride * p, r, s * p, u, t), Power(r, s * q * (u + q1 * m)))
  {
    hide Mul;
    hide Power;
    Indices(from, p, t, q, stride);
    Exponents(s, p, m, t, q, u, q1);
    ProductNonNegative(t, q1);
    var a, b := s * p * t * u, s * q * (u + q1 * m);
    PowerPeriod(r, n, a + b, t * q1);
    PowerAdd(r, a, b);
    MulAssoc(At(x, from + (p * t + q) * stride), Power(r, a), Power(r, b));
  }

  /** Decimation in time: a transform of p m samples recombines p transforms of m samples each. */
  lemma Decimation(x: seq<Cpx>, from: int, stride: int, r: Cpx, n: nat, s: nat, p: nat, m: nat, u: nat, q1: nat)
    requires Power(r, n) == One && s * p * m == n
    ensures Dft(x, from, stride, p * m, r, s, u + q1 * m)
            == Recombined(q => Dft(x, from + q * stride, stride * p, m, r, s * p, u), p, r, s, u + q1 * m)
  {
    hide Mul;
    hide Sum;
    hide Power;
    hide Term;
    var k := u + q1 * m;
    var whole := j => Term(x, from, stride, r, s, k, j);
    var thread := q => Sum(t => whole(p * t + q), m);
    var y := q => Dft(x, from + q * stride, stride * p, m, r, s * p, u);
    var out := q => Mul(y(q), Power(r, s * q * k));
    SumInterleaved(whole, p, m);
    forall q | 0 <= q < p ensures thread(q) == out(q) {
      var part := t => Term(x, from + q * stride, stride * p, r, s * p, u, t);
      var w := Power(r, s * q * k);
      forall t | 0 <= t < m ensures whole(p * t + q) == Mul(part(t), w) {
        TermSplits(x, from, stride, r, n, s, p, m, t, q, u, q1);
      }
      SumEq(t => whole(p * t + q), t => Mul(part(t), w), m);
      SumMul(part, w, m);
    }
    SumEq(thread, out, p);
  }

  // ---------------------------------------------------------------- the transform back

  function Spectrum(x: seq<Cpx>, r: Cpx): (f: seq<Cpx>)
    ensures |f| == |x|
  {
    seq(|x|, k => Dft(x, 0, 1, |x|, r, 1, k))
  }

  lemma {:induction false} SumSingle(f: int -> Cpx, n: nat, l: nat)
    requires l < n && forall i :: 0 <= i < n && i != l ==> f(i) == Zero
    ensures Sum(f, n) == f(l)
  {
    if n == l + 1 {
      SumZero(f, n - 1);
    } else {
      SumSingle(f, n - 1, l);
    }
  }

  /** r^(j k) conj(r)^(k l) is the k-th power of r^(j - l), taken as a non-negative exponent. */
  lemma Phases(r: Cpx, n: nat, j: nat, k: nat, l: nat)
    requires NormSq(r) == 1.0 && Power(r, n) == One && l <= n
    ensures Mul(Power(r, 1 * j * k), Power(Conj(r), 1 * k * l)) == Power(Power(r, j + (n - l)), k)
  {
    hide Mul;
    hide Power;
    hide Conj;
    PowerMul(r, j, k);
    PowerMul(Conj(r), l, k);
    assert k * l == l * k;
    PowerOfProduct(Power(r, j), Power(Conj(r), l), k);
    ConjPower(r, l);
    ComplementIsConj(r, n, l, n - l);
    PowerAdd(r, j, n - l);
  }

  lemma PhaseIsOneIff(r: Cpx, n: nat, j: nat, l: nat, inverse: bool)
    requires IsRoot(r, n, inverse) && j < n && l < n
    ensures Power(r, j + (n - l)) == One <==> j == l
    ensures Power(Power(r, j + (n - l)), n) == One
  {
    hide Mul;
    hide Power;
    var e := j + (n - l);
    PowerMul(r, e, n);
    PowerMul(r, n, e);
    assert e * n == n * e;
    PowerOfOne(Power(r, n), e);
    if j > l {
      PowerPeriod(r, n, j - l, 1);
    }
  }

  lemma PhaseSum(a: Cpx, z: Cpx, n: nat)
    requires Power(z, n) == One
    ensures Sum(k => Mul(Power(z, k), a), n) == if z == One then Scale(n as real, a) else Zero
  {
    hide Mul;
    hide Scale;
    var f := k => Power(z, k);
    SumMul(f, a, n);
    SumEq(k => Mul(Power(z, k), a), k => Mul(f(k), a), n);
    if z == One {
      SumOfOnes(z, n);
      MulReal(n as real, a);
    } else {
      RootSumVanishes(z, n);
      ZeroLaws(a);
    }
  }

  lemma BackTerm(x: seq<Cpx>, r: Cpx, k: nat, l: nat)
    requires NormSq(r) == 1.0 && Power(r, |x|) == One && k < |x| && l < |x|
    ensures Term(Spectrum(x, r), 0, 1, Conj(r), 1, l, k)
            == Sum(j => Mul(Power(Power(r, j + (|x| - l)), k), At(x, j)), |x|)
  {
    hide Mul;
    hide Power;
    hide Conj;
    hide Sum;
    var n := |x|;
    var w := Power(Conj(r), 1 * k * l);
    var f := j => Term(x, 0, 1, r, 1, k, j);
    var g := j => Mul(Power(Power(r, j + (n - l)), k), At(x, j));
    SumMul(f, w, n);
    forall j | 0 <= j < n ensures Mul(f(j), w) == g(j) {
      Phases(r, n, j, k, l);
      MulAssoc(At(x, j), Power(r, 1 * j * k), w);
      MulComm(At(x, j), Power(Power(r, j + (n - l)), k));
    }
    SumEq(j => Mul(f(j), w), g, n);
    assert Spectrum(x, r)[k] == Sum(f, n);
  }

  /** The inverse transform of the forward transform is the input scaled by its length. */
  lemma InverseUndoesForward(x: seq<Cpx>, r: Cpx, l: nat)
    requires IsRoot(r, |x|, false) && l < |x|
    ensures Dft(Spectrum(x, r), 0, 1, |x|, Conj(r), 1, l) == Scale(|x| as real, x[l])
  {
    hide Mul;
    hide Power;
    hide Conj;
    hide Sum;
    hide Scale;
    hide Spectrum;
    var n := |x|;
    var z := j => Power(r, j + (n - l));
    var g := (k: int, j: int) => Mul(Power(z(j), k), At(x, j));
    var terms := k => Term(Spectrum(x, r), 0, 1, Conj(r), 1, l, k);
    forall k | 0 <= k < n ensures terms(k) == Sum(j => g(k, j), n) {
      BackTerm(x, r, k, l);
      SumEq(j => Mul(Power(Power(r, j + (n - l)), k), At(x, j)), j => g(k, j), n);
    }
    SumEq(terms, k => Sum(j => g(k, j), n), n);
    SumSwap(g, n, n);
    var columns := j => Sum(k => g(k, j), n);
    forall j | 0 <= j < n ensures columns(j) == if j == l then Scale(n as real, x[l]) else Zero {
      PhaseIsOneIff(r, n, j, l, false);
      PhaseSum(At(x, j), z(j), n);
      SumEq(k => g(k, j), k => Mul(Power(z(j), k), At(x, j)), n);
    }
    SumSingle(columns, n, l);
  }

  /** Turning the other way round is again a root, for the inverse transform. */
  lemma ConjIsRoot(r: Cpx, n: nat)
    requires IsRoot(r, n, false)
    ensures IsRoot(Conj(r), n, true)
  {
    hide Mul;
    hide Power;
    forall i | 0 <= i ensures Power(Conj(r), i) == Conj(Power(r, i)) {
      ConjPower(r, i);
    }
    ConjOne();
    NormOfConj(r);
  }

  lemma NormOfConj(r: Cpx)
    ensures NormSq(Conj(r)) == NormSq(r)
  {
  }
}
