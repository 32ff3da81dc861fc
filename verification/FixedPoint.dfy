/**
 The fixed-point arithmetic of _kiss_fft_guts.h, for any number of fraction bits: multiplication
 with rounding, division by a scaled reciprocal, and what keeps the results in range.
 A right shift is flooring division.
 */
module FixedPoint {
  import opened Bits

  /** F fraction bits: one = 2^F, samples are within +-(2^F - 1). */
  function SampMax(F: nat): int {
    Pow2(F) - 1
  }

  predicate InRange(x: int, F: nat) {
    -SampMax(F) <= x <= SampMax(F)
  }

  /** (x + (1 << (FRACBITS - 1))) >> FRACBITS */
  function Sround(x: int, F: nat): int
    requires F >= 1
  {
    (x + Pow2(F - 1)) / Pow2(F)
  }

  function SMul(a: int, b: int, F: nat): int
    requires F >= 1
  {
    Sround(a * b, F)
  }

  datatype Sample = Sample(r: int, i: int)

  predicate SampleInRange(c: Sample, F: nat) {
    InRange(c.r, F) && InRange(c.i, F)
  }

  function CMul(a: Sample, b: Sample, F: nat): Sample
    requires F >= 1
  {
    Sample(Sround(a.r * b.r - a.i * b.i, F), Sround(a.r * b.i + a.i * b.r, F))
  }

  /** x = sround(smul(x, SAMP_MAX / k)) */
  function DivScalar(x: int, k: int, F: nat): int
    requires F >= 1 && k >= 1
  {
    SMul(x, SampMax(F) / k, F)
  }

  function CFixDiv(c: Sample, k: int, F: nat): Sample
    requires F >= 1 && k >= 1
  {
    Sample(DivScalar(c.r, k, F), DivScalar(c.i, k, F))
  }

  // ---------------------------------------------------------------- products and quotients

  lemma Floor(y: int, p: int)
    requires p > 0
    ensures p * (y / p) <= y < p * (y / p) + p
  {
  }

  lemma FloorLe(y: int, p: int, m: int)
    requires p > 0 && y < p * m + p
    ensures y / p <= m
  {
    Floor(y, p);
    if y / p > m { MulLe(m + 1, y / p, p); }
  }

  lemma FloorGe(y: int, p: int, m: int)
    requires p > 0 && y >= p * m
    ensures y / p >= m
  {
    Floor(y, p);
    if y / p < m { MulLe(y / p + 1, m, p); }
  }

  /** Products of bounded numbers are bounded. */
  lemma ProductBound(a: int, b: int, m: int, n: int)
    requires -m <= a <= m && -n <= b <= n
    ensures -(m * n) <= a * b <= m * n
  {
    if a >= 0 {
      MulLe(-n, b, a); MulLe(b, n, a);
      MulLe(a, m, n);
    } else {
      MulLe(-n, b, -a); MulLe(b, n, -a);
      MulLe(-a, m, n);
    }
  }

  // ---------------------------------------------------------------- rounding

  /** Rounding errs by at most half a unit. */
  lemma RoundingError(x: int, F: nat)
    requires F >= 1
    ensures 0 - Pow2(F - 1) <= Pow2(F) * Sround(x, F) - x <= Pow2(F - 1)
  {
    Floor(x + Pow2(F - 1), Pow2(F));
  }

  /** |2^F S_MUL(a, b) - a b| <= 2^(F-1), for all operands. */
  lemma MulError(a: int, b: int, F: nat)
    requires F >= 1
    ensures 0 - Pow2(F - 1) <= Pow2(F) * SMul(a, b, F) - a * b <= Pow2(F - 1)
  {
    RoundingError(a * b, F);
  }

  /** Comparing quotients by comparing multiples. */
  lemma CompareMultiples(p: int, q: int, m: int)
    requires p > 0
    ensures q <= m ==> p * q <= p * m
    ensures q > m ==> p * q >= p * m + p
    ensures q >= -m ==> p * q >= -(p * m)
    ensures q < -m ==> p * q <= -(p * m) - p
  {
    if q <= m { MulLe(q, m, p); } else { MulLe(m + 1, q, p); }
    if q >= -m { MulLe(-m, q, p); } else { MulLe(q, -m - 1, p); }
  }

  /** A rounded value fits the sample type exactly when the unrounded one is within half a unit of it. */
  lemma RoundInRangeIff(x: int, F: nat)
    requires F >= 1
    ensures InRange(Sround(x, F), F) <==>
            -(Pow2(F) * SampMax(F)) - Pow2(F - 1) <= x < Pow2(F) * SampMax(F) + Pow2(F - 1)
  {
    var p, h, m, q := Pow2(F), Pow2(F - 1), SampMax(F), Sround(x, F);
    Floor(x + h, p);
    CompareMultiples(p, q, m);
    RoundCore(x, h, q, m, p * m, p * q);
  }

  lemma RoundCore(x: int, h: int, q: int, m: int, pm: int, pq: int)
    requires pq <= x + h < pq + 2 * h
    requires q <= m ==> pq <= pm
    requires q > m ==> pq >= pm + 2 * h
    requires q >= -m ==> pq >= -pm
    requires q < -m ==> pq <= -pm - 2 * h
    ensures -m <= q <= m <==> -pm - h <= x < pm + h
  {
  }

  // ---------------------------------------------------------------- complex products

  /** The sums formed by C_MUL, with the rounding constant added, fit in 2F + 2 signed bits. */
  lemma ComplexProductFits(a: Sample, b: Sample, F: nat)
    requires F >= 2 && SampleInRange(a, F) && SampleInRange(b, F)
    ensures var lim: int := Pow2(2 * F + 1);
            && -lim <= a.r * b.r - a.i * b.i + Pow2(F - 1) < lim
            && -lim <= a.r * b.i + a.i * b.r + Pow2(F - 1) < lim
  {
    var m := SampMax(F);
    ProductBound(a.r, b.r, m, m);
    ProductBound(a.i, b.i, m, m);
    ProductBound(a.r, b.i, m, m);
    ProductBound(a.i, b.r, m, m);
    SquareBelow(F);
  }

  lemma SquareBelow(F: nat)
    requires F >= 2
    ensures 2 * (SampMax(F) * SampMax(F)) + Pow2(F - 1) < Pow2(2 * F + 1)
  {
    var p := Pow2(F);
    AtLeastFour(F);
    DoubleSquare(F);
    SquareOfPredecessor(p);
  }

  lemma AtLeastFour(F: nat)
    requires F >= 2
    ensures Pow2(F) >= 4
  {
    Pow2Mono(2, F);
    assert Pow2(2) == 4;
  }

  lemma DoubleSquare(F: nat)
    ensures Pow2(2 * F + 1) == 2 * (Pow2(F) * Pow2(F))
  {
    Pow2Add(F, F);
  }

  lemma SquareOfPredecessor(p: int)
    ensures (p - 1) * (p - 1) == p * p - 2 * p + 1 == p * (p - 1) - (p - 1)
  {
  }

  /** Without a preceding division the product can leave the range: both components at full scale. */
  lemma ComplexProductCanOverflow(F: nat)
    requires F >= 2
    ensures var full := Sample(SampMax(F), SampMax(F));
            SampleInRange(full, F) && !SampleInRange(CMul(full, full, F), F)
  {
    var p, m := Pow2(F), SampMax(F);
    AtLeastFour(F);
    SquareOfPredecessor(p);
    MulLe(4, p, m);
    RoundInRangeIff(m * m + m * m, F);
    OverflowCore(m * m, p * m, m, p);
  }

  lemma OverflowCore(mm: int, pm: int, m: int, p: int)
    requires mm == pm - m && pm >= 4 * m && m == p - 1 && p >= 4
    ensures mm + mm >= pm + p / 2
  {
  }

  // ---------------------------------------------------------------- division

  /** Dividing a sample by k leaves it within SAMP_MAX / k. */
  lemma DividedBound(x: int, k: int, F: nat)
    requires F >= 1 && k >= 1 && InRange(x, F)
    ensures -(SampMax(F) / k) <= DivScalar(x, k, F) <= SampMax(F) / k
  {
    QuotientBound(SampMax(F), k);
    ScaledBound(x, SampMax(F) / k, F);
  }

  lemma ScaledBound(x: int, m: int, F: nat)
    requires F >= 1 && InRange(x, F) && 0 <= m <= SampMax(F)
    ensures -m <= SMul(x, m, F) <= m
  {
    var p, h := Pow2(F), Pow2(F - 1);
    ProductBound(x, m, p - 1, m);
    PredecessorTimes(p, m);
    FloorLe(x * m + h, p, m);
    NegatedMultiple(p, m);
    FloorGe(x * m + h, p, -m);
  }

  lemma PredecessorTimes(p: int, m: int)
    ensures (p - 1) * m == p * m - m
  {
  }

  lemma NegatedMultiple(p: int, m: int)
    ensures p * (-m) == -(p * m)
  {
  }

  lemma QuotientBound(n: int, k: int)
    requires n >= 0 && k >= 1
    ensures 0 <= n / k <= n && k * (n / k) <= n < k * (n / k) + k
  {
    Floor(n, k);
    FloorGe(n, k, 0);
    if n / k > 0 { MulLe(1, k, n / k); }
  }

  /** The error of a division: 2 |k DIVSCALAR(x, k) - x| < 3 k. */
  lemma DivisionError(x: int, k: int, F: nat)
    requires F >= 1 && k >= 1 && InRange(x, F)
    ensures -3 * k < 2 * (k * DivScalar(x, k, F) - x) < 3 * k
  {
    var p, h, m := Pow2(F), Pow2(F - 1), SampMax(F) / k;
    var d := DivScalar(x, k, F);
    var roundOff, truncation := p * d - x * m, k * m - p;
    QuotientBound(p - 1, k);
    MulError(x, m, F);
    ScaledError(x, k, m, p, d);
    ProductBound(k, roundOff, k, h);
    ProductBound(x, truncation, p - 1, k);
    PredecessorTimes(p, k);
    HalfTimes(k, h);
    ErrorCore(p * (k * d - x), k * roundOff, x * truncation, k * h, p * k, k);
    ThreeHalves(k * d - x, k, p);
  }

  lemma HalfTimes(k: int, h: int)
    ensures (2 * h) * k == 2 * (k * h)
  {
  }

  lemma ErrorCore(scaled: int, e1: int, e2: int, kh: int, pk: int, k: int)
    requires scaled == e1 + e2 && -kh <= e1 <= kh && -(pk - k) <= e2 <= pk - k && pk == 2 * kh && k >= 1
    ensures -3 * pk < 2 * scaled < 3 * pk
  {
  }

  lemma ThreeHalves(y: int, k: int, p: int)
    requires p > 0 && k > 0 && -3 * (p * k) < 2 * (p * y) < 3 * (p * k)
    ensures -3 * k < 2 * y < 3 * k
  {
    assert p * (3 * k) == 3 * (p * k) && p * (2 * y) == 2 * (p * y);
    BelowAfterScaling(2 * y, 3 * k, p);
  }

  lemma ScaledError(x: int, k: int, m: int, p: int, d: int)
    ensures p * (k * d - x) == k * (p * d - x * m) + x * (k * m - p)
  {
    assert p * (k * d - x) == p * (k * d) - p * x;
    assert k * (p * d - x * m) == k * (p * d) - k * (x * m);
    assert x * (k * m - p) == x * (k * m) - x * p;
    assert p * (k * d) == k * (p * d) && k * (x * m) == x * (k * m);
  }

  lemma BelowAfterScaling(y: int, n: int, p: int)
    requires p > 0 && n > 0 && -(p * n) < p * y < p * n
    ensures -n < y < n
  {
    if y >= n { MulLe(n, y, p); }
    if y <= -n { MulLe(y, -n, p); }
  }

  /** A signed sum of samples each divided by k. */
  function SignedSum(xs: seq<int>, signs: seq<bool>, k: int, F: nat): int
    requires F >= 1 && k >= 1 && |xs| == |signs|
  {
    if |xs| == 0 then 0
    else SignedSum(xs[1..], signs[1..], k, F) + if signs[0] then -DivScalar(xs[0], k, F) else DivScalar(xs[0], k, F)
  }

  lemma {:induction false} SignedSumBound(xs: seq<int>, signs: seq<bool>, k: int, F: nat, m: int)
    requires F >= 1 && k >= 1 && |xs| == |signs|
    requires forall i :: 0 <= i < |xs| ==> -m <= DivScalar(xs[i], k, F) <= m
    ensures -(|xs| * m) <= SignedSum(xs, signs, k, F) <= |xs| * m
  {
    hide DivScalar;
    if |xs| > 0 {
      SignedSumBound(xs[1..], signs[1..], k, F, m);
      assert -m <= DivScalar(xs[0], k, F) <= m;
      PredecessorTimes(|xs|, m);
    }
  }

  /** Adding or subtracting k samples that were each divided by k never overflows. */
  lemma DividedSumInRange(xs: seq<int>, signs: seq<bool>, k: int, F: nat)
    requires F >= 1 && k >= 1 && |xs| == |signs| == k && forall i :: 0 <= i < |xs| ==> InRange(xs[i], F)
    ensures InRange(SignedSum(xs, signs, k, F), F)
  {
    hide DivScalar;
    hide SignedSum;
    hide Pow2;
    var m := SampMax(F) / k;
    forall i | 0 <= i < |xs| ensures -m <= DivScalar(xs[i], k, F) <= m {
      DividedBound(xs[i], k, F);
    }
    SignedSumBound(xs, signs, k, F, m);
    QuotientBound(SampMax(F), k);
  }

  /** A product of a sample divided by k >= 2 with any sample stays in range. */
  lemma DividedProductInRange(a: Sample, b: Sample, k: int, F: nat)
    requires F >= 2 && k >= 2 && SampleInRange(a, F) && SampleInRange(b, F)
    ensures SampleInRange(CMul(CFixDiv(a, k, F), b, F), F)
  {
    var M := SampMax(F);
    var m := M / k;
    var c := CFixDiv(a, k, F);
    DividedBound(a.r, k, F);
    DividedBound(a.i, k, F);
    AtMostHalf(M, k);
    HalfScaleProduct(c.r, b.r, c.i, b.i, m, F);
    HalfScaleProduct(c.r, b.i, c.i, b.r, m, F);
  }

  lemma AtMostHalf(n: int, k: int)
    requires n >= 0 && k >= 2
    ensures 0 <= 2 * (n / k) <= n
  {
    QuotientBound(n, k);
    MulLe(2, k, n / k);
  }

  lemma HalfScaleProduct(x: int, y: int, z: int, w: int, m: int, F: nat)
    requires F >= 2 && 0 <= 2 * m <= SampMax(F)
    requires -m <= x <= m && -m <= z <= m && InRange(y, F) && InRange(w, F)
    ensures InRange(Sround(x * y + z * w, F), F) && InRange(Sround(x * y - z * w, F), F)
  {
    var p, M := Pow2(F), SampMax(F);
    ProductBound(x, y, m, M);
    ProductBound(z, w, m, M);
    MulLe(2 * m, M, M);
    HalfTimes(M, m);
    SquareOfPredecessor(p);
    RoundInRangeIff(x * y + z * w, F);
    RoundInRangeIff(x * y - z * w, F);
    HalfScaleCore(x * y, z * w, m * M, M * m, M * M, p * M, M);
  }

  lemma HalfScaleCore(xy: int, zw: int, mM: int, Mm: int, MM: int, pM: int, M: int)
    requires -mM <= xy <= mM && -mM <= zw <= mM && mM == Mm && 2 * Mm <= MM && MM == pM - M && M >= 0
    ensures -pM <= xy + zw <= pM && -pM <= xy - zw <= pM
  {
  }
}
