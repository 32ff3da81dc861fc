/**
 How close the fixed-point butterflies of kiss_fft.c come to the exact transform: each component of each
 output is within a few units of SAMP_MAX / p / 2^F times the p-point transform of the twiddled samples.
 */
module FixedAccuracy {
  import opened Bits
  import opened FixedPoint
  import opened FixedButterflies
  import opened FixedCircle
  import Complex
  import Butterflies

  function Exact(v: Sample): Complex.Cpx {
    Complex.Cpx(v.r as real, v.i as real)
  }

  // ---------------------------------------------------------------- one term

  /** Both components of v are at most n. */
  predicate AtMost(v: Sample, n: int) {
    -n <= v.r <= n && -n <= v.i <= n
  }

  /** 2^(2F) times a divided sample, less what it stands for. */
  lemma DividedError(a: Sample, k: int, F: nat)
    requires k >= 1 && F >= 1
    ensures var p := Pow2(F);
            AtMost(Sub(Scale(p * p, CFixDiv(a, k, F)), Scale(SampMax(F) / k, Scale(p, a))), p * Pow2(F - 1))
  {
    hide Sround;
    hide Pow2;
    var p, d, c := Pow2(F), SampMax(F) / k, CFixDiv(a, k, F);
    MulError(a.r, d, F);
    MulError(a.i, d, F);
    TimesError(p, c.r, a.r, d, Pow2(F - 1));
    TimesError(p, c.i, a.i, d, Pow2(F - 1));
  }

  lemma TimesError(p: int, c: int, a: int, d: int, h: int)
    requires p >= 0 && -h <= p * c - a * d <= h
    ensures -(p * h) <= (p * p) * c - d * (p * a) <= p * h
  {
    var e := p * c - a * d;
    assert (p * p) * c - d * (p * a) == p * e by { Regroup(p, c, a, d); }
    ProductsOrdered(p, e, h);
  }

  lemma Regroup(p: int, c: int, a: int, d: int)
    ensures (p * p) * c - d * (p * a) == p * (p * c - a * d)
  {
    Associate(p, p, c);
    assert d * (p * a) == p * (a * d);
  }

  lemma ProductsOrdered(p: int, e: int, h: int)
    requires p >= 0 && -h <= e <= h
    ensures -(p * h) <= p * e <= p * h
  {
    MulLe(e, h, p);
    MulLe(-h, e, p);
  }

  /** 2^(2F) times a divided and twiddled sample, less what it stands for. */
  lemma TwiddledError(b: Sample, w: Sample, k: int, F: nat)
    requires k >= 1 && F >= 1 && AtMost(w, Pow2(F))
    ensures var p := Pow2(F);
            AtMost(Sub(Scale(p * p, CMul(CFixDiv(b, k, F), w, F)), Scale(SampMax(F) / k, Product(b, w))),
                   3 * (p * Pow2(F - 1)))
  {
    hide Sround;
    hide Pow2;
    hide CFixDiv;
    var p, h, d, c := Pow2(F), Pow2(F - 1), SampMax(F) / k, CFixDiv(b, k, F);
    var t := CMul(c, w, F);
    var e, f := Sub(Scale(p, c), Scale(d, b)), Sub(Scale(p, t), Product(c, w));
    DivisionStep(b, k, F);
    RoundingError(c.r * w.r - c.i * w.i, F);
    RoundingError(c.r * w.i + c.i * w.r, F);
    ErrorParts(b, c, w, t, e, f, p, d);
    ErrorProduct(e, w, h, p);
    ProductsOrdered(p, f.r, h);
    ProductsOrdered(p, f.i, h);
  }

  lemma DivisionStep(b: Sample, k: int, F: nat)
    requires k >= 1 && F >= 1
    ensures AtMost(Sub(Scale(Pow2(F), CFixDiv(b, k, F)), Scale(SampMax(F) / k, b)), Pow2(F - 1))
  {
    hide Sround;
    hide Pow2;
    MulError(b.r, SampMax(F) / k, F);
    MulError(b.i, SampMax(F) / k, F);
  }

  lemma ErrorProduct(e: Sample, w: Sample, h: int, p: int)
    requires AtMost(e, h) && AtMost(w, p)
    ensures AtMost(Product(e, w), 2 * (p * h))
  {
    hide Product;
    ProductBound(w.r, e.r, p, h); ProductBound(w.i, e.i, p, h);
    ProductBound(w.i, e.r, p, h); ProductBound(w.r, e.i, p, h);
    ProductParts(e, w, w.r * e.r, w.i * e.i, w.i * e.r, w.r * e.i);
    FourParts(w.r * e.r, w.i * e.i, w.i * e.r, w.r * e.i, p * h);
  }

  lemma FourParts(a: int, b: int, c: int, d: int, n: int)
    requires -n <= a <= n && -n <= b <= n && -n <= c <= n && -n <= d <= n
    ensures AtMost(Sample(a - b, c + d), 2 * n)
  {
  }

  lemma ProductParts(e: Sample, w: Sample, a: int, b: int, c: int, d: int)
    requires a == w.r * e.r && b == w.i * e.i && c == w.i * e.r && d == w.r * e.i
    ensures Product(e, w) == Sample(a - b, c + d)
  {
  }

  lemma ErrorParts(b: Sample, c: Sample, w: Sample, t: Sample, e: Sample, f: Sample, p: int, d: int)
    requires e == Sub(Scale(p, c), Scale(d, b)) && f == Sub(Scale(p, t), Product(c, w))
    ensures Sub(Scale(p * p, t), Scale(d, Product(b, w))) == Add(Product(e, w), Scale(p, f))
  {
    hide Scale;
    hide Product;
    ScaleScale(p, p, t);
    ScaleAdd(p, Scale(p, t), Product(c, w));
    ProductSub(Scale(p, c), Scale(d, b), w);
    ProductScaleLeft(p, c, w);
    ProductScaleLeft(d, b, w);
  }

  lemma ProductSub(u: Sample, v: Sample, w: Sample)
    ensures Product(Sub(u, v), w) == Sub(Product(u, w), Product(v, w))
  {
    DistributeInt(w.r, u.r, v.r); DistributeInt(w.i, u.i, v.i);
    DistributeInt(w.i, u.r, v.r); DistributeInt(w.r, u.i, v.i);
  }

  lemma ProductScaleLeft(k: int, u: Sample, v: Sample)
    ensures Product(Scale(k, u), v) == Scale(k, Product(u, v))
  {
    Associate(k, u.r, v.r); Associate(k, u.i, v.i); Associate(k, u.r, v.i); Associate(k, u.i, v.r);
    DistributeInt(k, u.r * v.r, u.i * v.i);
    DistributeInt(k, u.r * v.i, u.i * v.r);
  }

  // ---------------------------------------------------------------- in units of the output

  /** Both components of out are within n of d / unit times those of exact. */
  predicate Near(out: Sample, exact: Complex.Cpx, d: int, unit: int, n: int) {
    && -((n * unit) as real) <= (unit * out.r) as real - d as real * exact.re <= (n * unit) as real
    && -((n * unit) as real) <= (unit * out.i) as real - d as real * exact.im <= (n * unit) as real
  }

  lemma RealProduct(x: int, y: int)
    ensures (x * y) as real == x as real * y as real
  {
  }

  lemma NearExact(out: Sample, v: Sample, d: int, unit: int, n: int)
    requires AtMost(Sub(Scale(unit, out), Scale(d, v)), n * unit)
    ensures Near(out, Exact(v), d, unit, n)
  {
    RealProduct(d, v.r);
    RealProduct(d, v.i);
  }

  lemma Units(F: nat)
    requires F >= 1
    ensures 2 * (Pow2(F) * Pow2(F - 1)) == Pow2(F) * Pow2(F)
  {
    assert Pow2(F) == 2 * Pow2(F - 1);
  }

  // ---------------------------------------------------------------- radix 2

  /** Each output of a radix-2 butterfly is within 2 units of the exact one. */
  lemma Butterfly2Accuracy(a: Sample, b: Sample, w: Sample, F: nat, j: nat)
    requires F >= 1 && AtMost(w, Pow2(F)) && j < 2
    ensures var p := Pow2(F);
            var exact := Butterflies.SmallDft([Exact(Scale(p, a)), Exact(Product(b, w))], Complex.Cpx(-1.0, 0.0), j);
            var out := if j == 0 then Butterfly2(a, b, w, F).0 else Butterfly2(a, b, w, F).1;
            Near(out, exact, SampMax(F) / 2, p * p, 2)
  {
    hide CFixDiv;
    hide CMul;
    hide Scale;
    hide Product;
    hide Near;
    hide Pow2;
    hide Butterflies.SmallDft;
    var p, d, x, t := Pow2(F), SampMax(F) / 2, CFixDiv(a, 2, F), CMul(CFixDiv(b, 2, F), w, F);
    var u, v := Scale(p, a), Product(b, w);
    DividedError(a, 2, F);
    TwiddledError(b, w, 2, F);
    Units(F);
    ScaleAdd(p * p, x, t);
    ScaleAdd(d, u, v);
    Butterflies.Radix2(Exact(u), Exact(v), Complex.Cpx(-1.0, 0.0));
    if j == 0 {
      NearExact(Add(x, t), Add(u, v), d, p * p, 2);
    } else {
      NearExact(Sub(x, t), Sub(u, v), d, p * p, 2);
    }
  }

  // ---------------------------------------------------------------- radix 4

  /** Output j of the radix-4 recombination. */
  function Combine4(x: Sample, s0: Sample, s1: Sample, s2: Sample, inverse: bool, j: nat): Sample {
    var s5, s4 := Sub(x, s1), Turn(Sub(s0, s2));
    if j == 0 then Add(Add(x, s1), Add(s0, s2))
    else if j == 2 then Sub(Add(x, s1), Add(s0, s2))
    else if inverse == (j == 1) then Add(s5, s4) else Sub(s5, s4)
  }

  /** It is exactly the 4-point transform, forward or inverse. */
  lemma Combine4IsTransform(x: Sample, s0: Sample, s1: Sample, s2: Sample, inverse: bool, j: nat)
    requires j < 4
    ensures Exact(Combine4(x, s0, s1, s2, inverse, j))
            == Butterflies.SmallDft([Exact(x), Exact(s0), Exact(s1), Exact(s2)],
                                    Complex.Cpx(0.0, if inverse then 1.0 else -1.0), j)
  {
    hide Butterflies.SmallDft;
    var c := Complex.Cpx(0.0, if inverse then 1.0 else -1.0);
    Butterflies.Radix4([Exact(x), Exact(s0), Exact(s1), Exact(s2)], c);
    Butterflies.MulByQuarter(Exact(s0), c);
    Butterflies.MulByQuarter(Exact(s2), c);
  }

  lemma Combine4Linear(k: int, x: Sample, s0: Sample, s1: Sample, s2: Sample, inverse: bool, j: nat)
    ensures Scale(k, Combine4(x, s0, s1, s2, inverse, j))
            == Combine4(Scale(k, x), Scale(k, s0), Scale(k, s1), Scale(k, s2), inverse, j)
  {
    hide Scale;
    ScaleAdd(k, x, s1);
    ScaleAdd(k, s0, s2);
    ScaleTurn(k, Sub(s0, s2));
    ScaleAdd(k, Add(x, s1), Add(s0, s2));
    ScaleAdd(k, Sub(x, s1), Turn(Sub(s0, s2)));
  }

  lemma Combine4Error(x: Sample, s0: Sample, s1: Sample, s2: Sample, u: Sample, v0: Sample, v1: Sample, v2: Sample,
                      inverse: bool, j: nat, m: int, n: int)
    requires AtMost(Sub(x, u), m) && AtMost(Sub(s0, v0), n) && AtMost(Sub(s1, v1), n) && AtMost(Sub(s2, v2), n)
    ensures AtMost(Sub(Combine4(x, s0, s1, s2, inverse, j), Combine4(u, v0, v1, v2, inverse, j)), m + 3 * n)
  {
  }

  /** Each output of a radix-4 butterfly is within 5 units of the exact one, in both directions. */
  lemma Butterfly4Accuracy(a: Sample, b: seq<Sample>, w: seq<Sample>, inverse: bool, F: nat, j: nat)
    requires F >= 1 && |b| == |w| == 3 && j < 4 && forall q :: 0 <= q < 3 ==> AtMost(w[q], Pow2(F))
    ensures var p := Pow2(F);
            var terms := [Exact(Scale(p, a)), Exact(Product(b[0], w[0])), Exact(Product(b[1], w[1])),
                          Exact(Product(b[2], w[2]))];
            var exact := Butterflies.SmallDft(terms, Complex.Cpx(0.0, if inverse then 1.0 else -1.0), j);
            Near(Butterfly4(a, b, w, inverse, F)[j], exact, SampMax(F) / 4, p * p, 5)
  {
    hide CFixDiv;
    hide CMul;
    hide Scale;
    hide Product;
    hide Near;
    hide Pow2;
    hide Combine4;
    hide Butterflies.SmallDft;
    var p, d := Pow2(F), SampMax(F) / 4;
    var x := CFixDiv(a, 4, F);
    var s0, s1, s2 := CMul(CFixDiv(b[0], 4, F), w[0], F), CMul(CFixDiv(b[1], 4, F), w[1], F),
                      CMul(CFixDiv(b[2], 4, F), w[2], F);
    var u, v0, v1, v2 := Scale(p, a), Product(b[0], w[0]), Product(b[1], w[1]), Product(b[2], w[2]);
    OutputIsCombined(a, b, w, inverse, F, j);
    DividedError(a, 4, F);
    TwiddledError(b[0], w[0], 4, F);
    TwiddledError(b[1], w[1], 4, F);
    TwiddledError(b[2], w[2], 4, F);
    Combine4Linear(p * p, x, s0, s1, s2, inverse, j);
    Combine4Linear(d, u, v0, v1, v2, inverse, j);
    Combine4Error(Scale(p * p, x), Scale(p * p, s0), Scale(p * p, s1), Scale(p * p, s2),
                  Scale(d, u), Scale(d, v0), Scale(d, v1), Scale(d, v2), inverse, j,
                  p * Pow2(F - 1), 3 * (p * Pow2(F - 1)));
    Units(F);
    NearExact(Butterfly4(a, b, w, inverse, F)[j], Combine4(u, v0, v1, v2, inverse, j), d, p * p, 5);
    Combine4IsTransform(u, v0, v1, v2, inverse, j);
  }

  lemma OutputIsCombined(a: Sample, b: seq<Sample>, w: seq<Sample>, inverse: bool, F: nat, j: nat)
    requires F >= 1 && |b| == |w| == 3 && j < 4
    ensures Butterfly4(a, b, w, inverse, F)[j] ==
            Combine4(CFixDiv(a, 4, F), CMul(CFixDiv(b[0], 4, F), w[0], F), CMul(CFixDiv(b[1], 4, F), w[1], F),
                     CMul(CFixDiv(b[2], 4, F), w[2], F), inverse, j)
  {
    hide CFixDiv;
    hide CMul;
  }
}
