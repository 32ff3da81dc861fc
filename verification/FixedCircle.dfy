/**
 Whether the fixed-point butterflies of kiss_fft.c keep samples inside the circle of radius SAMP_MAX, so
 that the next stage may rely on it: radix 2 does, and so a transform of length 8 never overflows; radix 4
 keeps them inside radius SAMP_MAX + 1, and not always inside SAMP_MAX.
 */
module FixedCircle {
  import opened Bits
  import opened FixedPoint
  import opened FixedButterflies

  function Scale(k: int, v: Sample): Sample { Sample(k * v.r, k * v.i) }

  function Product(a: Sample, b: Sample): Sample {
    Sample(a.r * b.r - a.i * b.i, a.r * b.i + a.i * b.r)
  }

  // 577 / 408 is just above the square root of 2, and 577 / 816 above half of it
  const SIDE := 408
  const TWICE := 816
  const DIAGONAL := 577

  /** As long as kf_cexp makes it: rounding both components moves a point of the circle by at most half the
      square root of 2. */
  predicate Twiddle(w: Sample, F: nat) {
    Inside(Scale(TWICE, w), TWICE * SampMax(F) + DIAGONAL)
  }

  // ---------------------------------------------------------------- vectors

  lemma ScaleScale(a: int, b: int, v: Sample)
    ensures Scale(a, Scale(b, v)) == Scale(a * b, v)
  {
    Associate(a, b, v.r);
    Associate(a, b, v.i);
  }

  lemma ScaleAdd(k: int, u: Sample, v: Sample)
    ensures Scale(k, Add(u, v)) == Add(Scale(k, u), Scale(k, v))
    ensures Scale(k, Sub(u, v)) == Sub(Scale(k, u), Scale(k, v))
  {
    DistributeInt(k, u.r, v.r);
    DistributeInt(k, u.i, v.i);
  }

  lemma DistributeInt(k: int, x: int, y: int)
    ensures k * (x + y) == k * x + k * y && k * (x - y) == k * x - k * y
  {
  }

  lemma ProductScale(a: int, b: int, u: Sample, v: Sample)
    ensures Product(Scale(a, u), Scale(b, v)) == Scale(a * b, Product(u, v))
  {
    Reorder(a, u.r, b, v.r); Reorder(a, u.i, b, v.i); Reorder(a, u.r, b, v.i); Reorder(a, u.i, b, v.r);
    DistributeInt(a * b, u.r * v.r, u.i * v.i);
    DistributeInt(a * b, u.r * v.i, u.i * v.r);
  }

  lemma SquaresScale(k: int, x: int, y: int, n: int)
    ensures (k * x) * (k * x) + (k * y) * (k * y) == (k * k) * (x * x + y * y) && (k * n) * (k * n) == (k * k) * (n * n)
  {
    Reorder(k, x, k, x);
    Reorder(k, y, k, y);
    Reorder(k, n, k, n);
    DistributeInt(k * k, x * x, y * y);
  }

  lemma InsideScale(v: Sample, n: int, k: int)
    requires Inside(v, n)
    ensures Inside(Scale(k, v), k * n)
  {
    SquaresScale(k, v.r, v.i, n);
    SquareNonNegative(k);
    MulLe(v.r * v.r + v.i * v.i, n * n, k * k);
  }

  lemma InsideUnscale(v: Sample, n: int, k: int)
    requires k > 0 && Inside(Scale(k, v), k * n)
    ensures Inside(v, n)
  {
    SquaresScale(k, v.r, v.i, n);
    SquareStep(k, 0);
    var s, t := v.r * v.r + v.i * v.i, n * n;
    if s > t {
      MulNext(k * k, t, s);
    }
  }

  lemma InsideWiden(v: Sample, m: int, n: int)
    requires 0 <= m <= n && Inside(v, m)
    ensures Inside(v, n)
  {
    ProductsGrow(m, n, m, n);
  }

  /** The triangle inequality. */
  lemma InsideAdd(u: Sample, v: Sample, m: int, n: int)
    requires m >= 0 && n >= 0 && Inside(u, m) && Inside(v, n)
    ensures Inside(Add(u, v), m + n) && Inside(Sub(u, v), m + n)
  {
    var dot := u.r * v.r + u.i * v.i;
    var mirrored := Sample(v.r, -v.i);
    MirroredInside(v, n);
    CrossBound(u, mirrored, m, n);
    DotIsCross(u, v);
    SquareOfDifference(u.r, -v.r); SquareOfDifference(u.i, -v.i);
    SquareOfDifference(u.r, v.r); SquareOfDifference(u.i, v.i);
    SquareOfDifference(m, -n);
    SumOfSquares(u.r * u.r, u.i * u.i, v.r * v.r, v.i * v.i, u.r * v.r, u.i * v.i, m * m, n * n, m * n);
    NegatedProducts(u.r, v.r);
    NegatedProducts(u.i, v.i);
    NegatedProducts(m, n);
  }

  lemma NegatedProducts(x: int, y: int)
    ensures x * -y == -(x * y) && -y * -y == y * y
  {
  }

  lemma MirroredInside(v: Sample, n: int)
    requires Inside(v, n)
    ensures Inside(Sample(v.r, -v.i), n)
  {
    NegatedProducts(v.r, v.i);
  }

  lemma DotIsCross(u: Sample, v: Sample)
    ensures u.r * v.r - u.i * -v.i == u.r * v.r + u.i * v.i
  {
    NegatedProducts(u.i, v.i);
  }

  lemma SumOfSquares(ur: int, ui: int, vr: int, vi: int, dr: int, di: int, mm: int, nn: int, mn: int)
    requires ur + ui <= mm && vr + vi <= nn && -mn <= dr + di <= mn
    ensures (ur + 2 * dr + vr) + (ui + 2 * di + vi) <= mm + 2 * mn + nn
    ensures (ur - 2 * dr + vr) + (ui - 2 * di + vi) <= mm + 2 * mn + nn
  {
  }

  lemma InsideProduct(a: Sample, b: Sample, m: int, n: int)
    requires m >= 0 && n >= 0 && Inside(a, m) && Inside(b, n)
    ensures Inside(Product(a, b), m * n)
  {
    TwoSquares(a.r, a.i, b.r, b.i);
    SquareNonNegative(a.r); SquareNonNegative(a.i); SquareNonNegative(b.r); SquareNonNegative(b.i);
    ProductsGrow(a.r * a.r + a.i * a.i, m * m, b.r * b.r + b.i * b.i, n * n);
    Reorder(m, m, n, n);
  }

  /** Rounding errors of at most h in both components. */
  lemma ErrorInside(e: Sample, h: int)
    requires -h <= e.r <= h && -h <= e.i <= h
    ensures Inside(Scale(SIDE, e), DIAGONAL * h)
  {
    ProductBound(e.r, e.r, h, h);
    ProductBound(e.i, e.i, h, h);
    SquareNonNegative(h);
    SquaresScale(SIDE, e.r, e.i, 0);
    Reorder(DIAGONAL, h, DIAGONAL, h);
  }

  // ---------------------------------------------------------------- radii in a common unit

  /** SIDE TWICE 2^(2F) times v: the scale on which all radii below are whole numbers. */
  function Big(v: Sample, F: nat): Sample {
    Scale((SIDE * Pow2(F)) * TWICE, Scale(Pow2(F), v))
  }

  predicate Within(v: Sample, n: int, F: nat) {
    n >= 0 && Inside(Big(v, F), n)
  }

  lemma WithinAdd(u: Sample, v: Sample, m: int, n: int, F: nat)
    requires Within(u, m, F) && Within(v, n, F)
    ensures Within(Add(u, v), m + n, F) && Within(Sub(u, v), m + n, F)
  {
    hide Scale;
    hide Add;
    hide Sub;
    hide Inside;
    var p := Pow2(F);
    ScaleAdd(p, u, v);
    ScaleAdd((SIDE * p) * TWICE, Scale(p, u), Scale(p, v));
    InsideAdd(Big(u, F), Big(v, F), m, n);
  }

  /** v turned by a quarter. */
  function Turn(v: Sample): Sample { Sample(-v.i, v.r) }

  lemma WithinTurn(v: Sample, n: int, F: nat)
    requires Within(v, n, F)
    ensures Within(Turn(v), n, F)
  {
    hide Inside;
    hide Scale;
    ScaleTurn(Pow2(F), v);
    ScaleTurn((SIDE * Pow2(F)) * TWICE, Scale(Pow2(F), v));
    InsideTurn(Big(v, F), n);
  }

  lemma ScaleTurn(k: int, v: Sample)
    ensures Scale(k, Turn(v)) == Turn(Scale(k, v))
  {
    NegatedProducts(k, v.i);
  }

  lemma InsideTurn(v: Sample, n: int)
    requires Inside(v, n)
    ensures Inside(Turn(v), n)
  {
    NegatedProducts(v.r, v.i);
  }

  /** Back to the samples' own unit. */
  lemma WithinIsInside(v: Sample, n: int, radius: int, F: nat)
    requires Within(v, n, F) && n <= ((SIDE * Pow2(F)) * TWICE) * Pow2(F) * radius
    ensures Inside(v, radius)
  {
    hide Inside;
    hide Scale;
    hide Pow2;
    var p := Pow2(F);
    var unit := ((SIDE * p) * TWICE) * p;
    UnitPositive(p);
    ScaleScale((SIDE * p) * TWICE, p, v);
    InsideWiden(Big(v, F), n, unit * radius);
    InsideUnscale(v, radius, unit);
  }

  lemma UnitPositive(p: int)
    requires p > 0
    ensures ((SIDE * p) * TWICE) * p > 0
  {
    MulLe(1, (SIDE * p) * TWICE, p);
  }

  // ---------------------------------------------------------------- one term of a butterfly

  /** SIDE 2^F times the radius a divided sample may have. */
  function Divided(k: int, F: nat): int
    requires k >= 1 && F >= 1
  {
    SIDE * ((SampMax(F) / k) * SampMax(F)) + DIAGONAL * Pow2(F - 1)
  }

  lemma DividedNonNegative(k: int, F: nat)
    requires k >= 1 && F >= 1
    ensures Divided(k, F) >= 0 && SampMax(F) / k >= 0
  {
    hide Pow2;
    QuotientBound(SampMax(F), k);
    MulLe(0, SampMax(F) / k, SampMax(F));
  }

  lemma DividedInside(a: Sample, k: int, F: nat)
    requires k >= 1 && F >= 1 && Inside(a, SampMax(F))
    ensures Inside(Scale(SIDE, Scale(Pow2(F), CFixDiv(a, k, F))), Divided(k, F))
  {
    hide Inside;
    hide SMul;
    hide Pow2;
    var p, d, m, c := Pow2(F), SampMax(F) / k, SampMax(F), CFixDiv(a, k, F);
    var e := Sub(Scale(p, c), Scale(d, a));
    MulError(a.r, d, F);
    MulError(a.i, d, F);
    assert a.r * d == d * a.r && a.i * d == d * a.i;
    ErrorInside(e, Pow2(F - 1));
    InsideScale(a, m, d);
    InsideScale(Scale(d, a), d * m, SIDE);
    DividedNonNegative(k, F);
    MulLe(0, d, m);
    SumInside(Scale(p, c), Scale(d, a), e, SIDE * (d * m), DIAGONAL * Pow2(F - 1));
  }

  lemma SumInside(v: Sample, u: Sample, e: Sample, m: int, n: int)
    requires m >= 0 && n >= 0 && e == Sub(v, u) && Inside(Scale(SIDE, u), m) && Inside(Scale(SIDE, e), n)
    ensures Inside(Scale(SIDE, v), m + n)
  {
    hide Inside;
    assert v == Add(u, e);
    ScaleAdd(SIDE, u, e);
    InsideAdd(Scale(SIDE, u), Scale(SIDE, e), m, n);
  }

  /** SIDE TWICE 2^(2F) times the radius of an untwiddled and of a twiddled term. */
  function Plain(k: int, F: nat): int
    requires k >= 1 && F >= 1
  {
    (Pow2(F) * TWICE) * Divided(k, F)
  }

  function Turned(k: int, F: nat): int
    requires k >= 1 && F >= 1
  {
    Divided(k, F) * (TWICE * SampMax(F) + DIAGONAL) + (Pow2(F) * TWICE) * (DIAGONAL * Pow2(F - 1))
  }

  lemma SameUnit(p: int)
    ensures (p * TWICE) * SIDE == (SIDE * p) * TWICE
  {
  }

  lemma PlainWithin(a: Sample, k: int, F: nat)
    requires k >= 1 && F >= 1 && Inside(a, SampMax(F))
    ensures Within(CFixDiv(a, k, F), Plain(k, F), F)
  {
    hide Inside;
    hide Scale;
    hide CFixDiv;
    hide Divided;
    hide Pow2;
    var p, x := Pow2(F), Scale(Pow2(F), CFixDiv(a, k, F));
    DividedInside(a, k, F);
    InsideScale(Scale(SIDE, x), Divided(k, F), p * TWICE);
    ScaleScale(p * TWICE, SIDE, x);
    SameUnit(p);
    DividedNonNegative(k, F);
    MulLe(0, p * TWICE, Divided(k, F));
  }

  lemma TurnedWithin(b: Sample, w: Sample, k: int, F: nat)
    requires k >= 1 && F >= 1 && Inside(b, SampMax(F)) && Twiddle(w, F)
    ensures Within(CMul(CFixDiv(b, k, F), w, F), Turned(k, F), F)
  {
    hide Inside;
    hide Divided;
    hide Sround;
    hide CFixDiv;
    hide Pow2;
    var p, h, c := Pow2(F), Pow2(F - 1), CFixDiv(b, k, F);
    var t := CMul(c, w, F);
    var f := Sub(Scale(p, t), Product(c, w));
    RoundingError(c.r * w.r - c.i * w.i, F);
    RoundingError(c.r * w.i + c.i * w.r, F);
    ErrorInside(f, h);
    DividedInside(b, k, F);
    DividedNonNegative(k, F);
    TurnedParts(c, w, t, f, Divided(k, F), TWICE * SampMax(F) + DIAGONAL, h, F);
  }

  lemma TurnedParts(c: Sample, w: Sample, t: Sample, f: Sample, m: int, n: int, h: int, F: nat)
    requires m >= 0 && n >= 0 && h >= 0 && f == Sub(Scale(Pow2(F), t), Product(c, w))
    requires Inside(Scale(SIDE, Scale(Pow2(F), c)), m) && Inside(Scale(TWICE, w), n)
    requires Inside(Scale(SIDE, f), DIAGONAL * h)
    ensures Within(t, m * n + (Pow2(F) * TWICE) * (DIAGONAL * h), F)
  {
    hide Inside;
    hide Scale;
    hide Product;
    hide Pow2;
    var p := Pow2(F);
    var unit := (SIDE * p) * TWICE;
    ScaleScale(SIDE, p, c);
    InsideProduct(Scale(SIDE * p, c), Scale(TWICE, w), m, n);
    ProductScale(SIDE * p, TWICE, c, w);
    InsideScale(Scale(SIDE, f), DIAGONAL * h, p * TWICE);
    ScaleScale(p * TWICE, SIDE, f);
    SameUnit(p);
    assert Scale(p, t) == Add(Product(c, w), f);
    ScaleAdd(unit, Product(c, w), f);
    MulLe(0, m, n);
    MulLe(0, DIAGONAL * h, p * TWICE);
    InsideAdd(Scale(unit, Product(c, w)), Scale(unit, f), m * n, (p * TWICE) * (DIAGONAL * h));
  }

  // ---------------------------------------------------------------- radix 2

  /** A radix-2 butterfly takes samples inside the circle of radius SAMP_MAX to samples inside it. */
  lemma Butterfly2StaysInside(a: Sample, b: Sample, w: Sample, F: nat)
    requires F >= 7 && Inside(a, SampMax(F)) && Inside(b, SampMax(F)) && Twiddle(w, F)
    ensures var out := Butterfly2(a, b, w, F); Inside(out.0, SampMax(F)) && Inside(out.1, SampMax(F))
  {
    hide Inside;
    hide CFixDiv;
    hide CMul;
    hide Within;
    hide Twiddle;
    hide Plain;
    hide Turned;
    var x, t := CFixDiv(a, 2, F), CMul(CFixDiv(b, 2, F), w, F);
    PlainWithin(a, 2, F);
    TurnedWithin(b, w, 2, F);
    WithinAdd(x, t, Plain(2, F), Turned(2, F), F);
    RadiusOf2(F);
    WithinIsInside(Add(x, t), Plain(2, F) + Turned(2, F), SampMax(F), F);
    WithinIsInside(Sub(x, t), Plain(2, F) + Turned(2, F), SampMax(F), F);
  }

  lemma RadiusOf2(F: nat)
    requires F >= 7
    ensures Plain(2, F) + Turned(2, F) <= ((SIDE * Pow2(F)) * TWICE) * Pow2(F) * SampMax(F)
  {
    hide Pow2;
    hide SampMax;
    Halves(F);
    Radii2(Pow2(F), Pow2(F - 1), SampMax(F), SampMax(F) / 2);
  }

  lemma Halves(F: nat)
    requires F >= 7
    ensures Pow2(F) == 2 * Pow2(F - 1) && Pow2(F - 1) >= 64
    ensures SampMax(F) == 2 * Pow2(F - 1) - 1 && SampMax(F) / 2 == Pow2(F - 1) - 1
  {
    Pow2Mono(6, F - 1);
    assert Pow2(6) == 64;
  }

  /** The radii of the two terms of a radix-2 butterfly add up to less than SAMP_MAX. */
  lemma Radii2(p: int, h: int, m: int, d: int)
    requires h >= 64 && p == 2 * h && m == 2 * h - 1 && d == h - 1
    ensures var l := SIDE * (d * m) + DIAGONAL * h;
            (p * TWICE) * l + (l * (TWICE * m + DIAGONAL) + (p * TWICE) * (DIAGONAL * h))
            <= ((SIDE * p) * TWICE) * p * m
  {
    var q, l := h * h, SIDE * (d * m) + DIAGONAL * h;
    var c := h * q;
    assert d * m == 2 * q - 3 * h + 1;
    assert h * l == 816 * c - 647 * q + 408 * h by { Expand(h, q, 816, 647, 408); }
    MulLe(64, h, h);
    assert (p * TWICE) * l == 1632 * (h * l);
    assert l * (TWICE * m + DIAGONAL) == 1632 * (h * l) - 239 * l;
    assert (p * TWICE) * (DIAGONAL * h) == 941664 * q;
    assert ((SIDE * p) * TWICE) * p * m == 2663424 * c - 1331712 * q;
  }

  lemma Expand(h: int, q: int, a: int, b: int, c: int)
    requires q == h * h
    ensures h * (a * q - b * h + c) == a * (h * q) - b * q + c * h
  {
  }

  // ---------------------------------------------------------------- a transform of length 8

  /** No overflow in a whole transform of length 8 on samples inside the circle, in either direction: the
      radix-2 stages on samples four apart, with twiddle 0, and the radix-4 stage over their first outputs,
      with twiddles 0, and over their second ones, with twiddles 1, 2 and 3. */
  lemma EightPointInRange(x: seq<Sample>, w: seq<Sample>, inverse: bool, F: nat, j: nat)
    requires F >= 7 && |x| == |w| == 8 && j < 4
    requires forall i :: 0 <= i < 8 ==> Inside(x[i], SampMax(F)) && Twiddle(w[i], F)
    ensures var p0, p1 := Butterfly2(x[0], x[4], w[0], F), Butterfly2(x[1], x[5], w[0], F);
            var p2, p3 := Butterfly2(x[2], x[6], w[0], F), Butterfly2(x[3], x[7], w[0], F);
            && SampleInRange(p0.0, F) && SampleInRange(p1.0, F) && SampleInRange(p2.0, F) && SampleInRange(p3.0, F)
            && SampleInRange(p0.1, F) && SampleInRange(p1.1, F) && SampleInRange(p2.1, F) && SampleInRange(p3.1, F)
            && SampleInRange(Butterfly4(p0.0, [p1.0, p2.0, p3.0], [w[0], w[0], w[0]], inverse, F)[j], F)
            && SampleInRange(Butterfly4(p0.1, [p1.1, p2.1, p3.1], [w[1], w[2], w[3]], inverse, F)[j], F)
  {
    hide Inside;
    hide Twiddle;
    hide SampleInRange;
    hide Butterfly2;
    hide Butterfly4;
    PairInside(x[0], x[4], w[0], F);
    PairInside(x[1], x[5], w[0], F);
    PairInside(x[2], x[6], w[0], F);
    PairInside(x[3], x[7], w[0], F);
    TwiddleLength(w[0], F);
    TwiddleLength(w[1], F);
    TwiddleLength(w[2], F);
    TwiddleLength(w[3], F);
    var p0, p1 := Butterfly2(x[0], x[4], w[0], F), Butterfly2(x[1], x[5], w[0], F);
    var p2, p3 := Butterfly2(x[2], x[6], w[0], F), Butterfly2(x[3], x[7], w[0], F);
    Butterfly4InRange(p0.0, [p1.0, p2.0, p3.0], [w[0], w[0], w[0]], inverse, F, j);
    Butterfly4InRange(p0.1, [p1.1, p2.1, p3.1], [w[1], w[2], w[3]], inverse, F, j);
  }

  lemma PairInside(a: Sample, b: Sample, w: Sample, F: nat)
    requires F >= 7 && Inside(a, SampMax(F)) && Inside(b, SampMax(F)) && Twiddle(w, F)
    ensures var out := Butterfly2(a, b, w, F);
            && Inside(out.0, SampMax(F)) && SampleInRange(out.0, F)
            && Inside(out.1, SampMax(F)) && SampleInRange(out.1, F)
  {
    hide Inside;
    hide Twiddle;
    hide SampleInRange;
    hide Butterfly2;
    Butterfly2StaysInside(a, b, w, F);
    InsideInRange(Butterfly2(a, b, w, F).0, F);
    InsideInRange(Butterfly2(a, b, w, F).1, F);
  }

  lemma InsideInRange(v: Sample, F: nat)
    requires Inside(v, SampMax(F))
    ensures SampleInRange(v, F)
  {
    hide Pow2;
    SquareNonNegative(v.r);
    SquareNonNegative(v.i);
    SquareLe(v.r, SampMax(F));
    SquareLe(v.i, SampMax(F));
  }

  lemma TwiddleLength(w: Sample, F: nat)
    requires Twiddle(w, F)
    ensures Inside(w, Pow2(F))
  {
    hide Inside;
    hide Pow2;
    InsideWiden(Scale(TWICE, w), TWICE * SampMax(F) + DIAGONAL, TWICE * Pow2(F));
    InsideUnscale(w, Pow2(F), TWICE);
  }

  // ---------------------------------------------------------------- radix 4

  /** A radix-4 butterfly takes samples inside the circle of radius SAMP_MAX to samples inside the circle of
      radius SAMP_MAX + 1. */
  lemma Butterfly4NearlyInside(a: Sample, b: seq<Sample>, w: seq<Sample>, inverse: bool, F: nat, j: nat)
    requires F >= 5 && |b| == |w| == 3 && j < 4 && Inside(a, SampMax(F))
    requires forall i :: 0 <= i < 3 ==> Inside(b[i], SampMax(F)) && Twiddle(w[i], F)
    ensures Inside(Butterfly4(a, b, w, inverse, F)[j], SampMax(F) + 1)
  {
    hide Inside;
    hide CFixDiv;
    hide CMul;
    hide Within;
    hide Twiddle;
    hide Plain;
    hide Turned;
    hide Pow2;
    var x, n, t := CFixDiv(a, 4, F), Plain(4, F), Turned(4, F);
    var s0, s1, s2 := CMul(CFixDiv(b[0], 4, F), w[0], F), CMul(CFixDiv(b[1], 4, F), w[1], F),
                      CMul(CFixDiv(b[2], 4, F), w[2], F);
    PlainWithin(a, 4, F);
    TurnedWithin(b[0], w[0], 4, F);
    TurnedWithin(b[1], w[1], 4, F);
    TurnedWithin(b[2], w[2], 4, F);
    WithinAdd(x, s1, n, t, F);
    WithinAdd(s0, s2, t, t, F);
    WithinTurn(Sub(s0, s2), t + t, F);
    var out := Butterfly4(a, b, w, inverse, F)[j];
    assert Within(out, (n + t) + (t + t), F) by {
      if j % 2 == 0 {
        WithinAdd(Add(x, s1), Add(s0, s2), n + t, t + t, F);
      } else {
        WithinAdd(Sub(x, s1), Turn(Sub(s0, s2)), n + t, t + t, F);
      }
    }
    RadiusOf4(F);
    WithinIsInside(out, (n + t) + (t + t), SampMax(F) + 1, F);
  }

  lemma RadiusOf4(F: nat)
    requires F >= 5
    ensures (Plain(4, F) + Turned(4, F)) + (Turned(4, F) + Turned(4, F))
            <= ((SIDE * Pow2(F)) * TWICE) * Pow2(F) * (SampMax(F) + 1)
  {
    hide Pow2;
    hide SampMax;
    Quarters(F);
    Radii4(Pow2(F - 2), Pow2(F), Pow2(F - 1), SampMax(F), SampMax(F) / 4, SampMax(F) + 1);
  }

  lemma Quarters(F: nat)
    requires F >= 5
    ensures Pow2(F) == 4 * Pow2(F - 2) && Pow2(F - 1) == 2 * Pow2(F - 2) && Pow2(F - 2) >= 8
    ensures SampMax(F) == 4 * Pow2(F - 2) - 1 && SampMax(F) / 4 == Pow2(F - 2) - 1
  {
    Pow2Mono(3, F - 2);
    assert Pow2(3) == 8;
    assert Pow2(F) == 2 * Pow2(F - 1);
  }

  /** The radii of the four terms of a radix-4 butterfly add up to at most SAMP_MAX + 1. */
  lemma Radii4(g: int, p: int, h: int, m: int, d: int, r: int)
    requires g >= 8 && p == 4 * g && h == 2 * g && m == 4 * g - 1 && d == g - 1 && r == 4 * g
    ensures var l := SIDE * (d * m) + DIAGONAL * h;
            var t := l * (TWICE * m + DIAGONAL) + (p * TWICE) * (DIAGONAL * h);
            ((p * TWICE) * l + t) + (t + t) <= ((SIDE * p) * TWICE) * p * r
  {
    var q, l := g * g, SIDE * (d * m) + DIAGONAL * h;
    var c := g * q;
    assert d * m == 4 * q - 5 * g + 1;
    assert g * l == 1632 * c - 886 * q + 408 * g by { Expand(g, q, 1632, 886, 408); }
    MulLe(8, g, g);
    assert (p * TWICE) * l == 3264 * (g * l) && l * (TWICE * m + DIAGONAL) == 3264 * (g * l) - 239 * l;
    assert (p * TWICE) * (DIAGONAL * h) == 3766656 * q;
    assert ((SIDE * p) * TWICE) * p * r == 21307392 * c by { Cube(g, q); }
  }

  lemma Cube(g: int, q: int)
    requires q == g * g
    ensures ((SIDE * (4 * g)) * TWICE) * (4 * g) * (4 * g) == 21307392 * (g * q)
  {
  }

  /** Radius SAMP_MAX itself is missed: four samples inside the circle whose radix-4 butterfly leaves it. */
  lemma Butterfly4CanLeaveCircle(inverse: bool, F: nat)
    requires F == 15
    ensures var a, b, w := Sample(-24033, 22273), Sample(-23633, -22697), Sample(1886, -32713);
            && Inside(a, SampMax(F)) && Inside(b, SampMax(F)) && Twiddle(w, F)
            && !Inside(Butterfly4(a, [b, b, b], [w, w, w], inverse, F)[0], SampMax(F))
  {
    hide CFixDiv;
    hide CMul;
    hide Pow2;
    Powers15(F);
    var a, b, w, c, t := Sample(-24033, 22273), Sample(-23633, -22697), Sample(1886, -32713),
                         Sample(-5908, -5674), Sample(-6005, 5572);
    QuarterRounded(a, Sample(-6008, 5568), F);
    QuarterRounded(b, c, F);
    ProductRounded(c, w, t, F);
  }

  lemma QuarterRounded(v: Sample, c: Sample, F: nat)
    requires F == 15
    requires -16384 <= v.r * 8191 - 32768 * c.r < 16384 && -16384 <= v.i * 8191 - 32768 * c.i < 16384
    ensures CFixDiv(v, 4, F) == c
  {
    hide Pow2;
    hide Sround;
    Powers15(F);
    assert SampMax(F) / 4 == 8191;
    RoundedTo(v.r * (SampMax(F) / 4), c.r, F);
    RoundedTo(v.i * (SampMax(F) / 4), c.i, F);
  }

  lemma ProductRounded(c: Sample, w: Sample, t: Sample, F: nat)
    requires F == 15
    requires var v := Sub(Product(c, w), Scale(32768, t)); -16384 <= v.r < 16384 && -16384 <= v.i < 16384
    ensures CMul(c, w, F) == t
  {
    hide Sround;
    RoundedTo(c.r * w.r - c.i * w.i, t.r, F);
    RoundedTo(c.r * w.i + c.i * w.r, t.i, F);
  }

  lemma RoundedTo(x: int, y: int, F: nat)
    requires F == 15 && -16384 <= x - 32768 * y < 16384
    ensures Sround(x, F) == y
  {
    Powers15(F);
  }
}
