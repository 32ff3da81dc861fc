/**
 The radix-2 and radix-4 butterflies of kiss_fft.c in the fixed-point build: when their sums stay
 within the sample range.
 */
module FixedButterflies {
  import opened Bits
  import opened FixedPoint

  function Add(a: Sample, b: Sample): Sample { Sample(a.r + b.r, a.i + b.i) }

  function Sub(a: Sample, b: Sample): Sample { Sample(a.r - b.r, a.i - b.i) }

  /** kf_bfly2: the two outputs. */
  function Butterfly2(a: Sample, b: Sample, tw: Sample, F: nat): (Sample, Sample)
    requires F >= 1
  {
    var x, t := CFixDiv(a, 2, F), CMul(CFixDiv(b, 2, F), tw, F);
    (Add(x, t), Sub(x, t))
  }

  /** kf_bfly4: the four outputs. */
  function Butterfly4(a: Sample, b: seq<Sample>, tw: seq<Sample>, inverse: bool, F: nat): (out: seq<Sample>)
    requires F >= 1 && |b| == |tw| == 3
    ensures |out| == 4
  {
    var x := CFixDiv(a, 4, F);
    var s0, s1, s2 := CMul(CFixDiv(b[0], 4, F), tw[0], F), CMul(CFixDiv(b[1], 4, F), tw[1], F),
                      CMul(CFixDiv(b[2], 4, F), tw[2], F);
    var s5, even, s3, s4 := Sub(x, s1), Add(x, s1), Add(s0, s2), Sub(s0, s2);
    var up, down := Sample(s5.r - s4.i, s5.i + s4.r), Sample(s5.r + s4.i, s5.i - s4.r);
    [Add(even, s3), if inverse then up else down, Sub(even, s3), if inverse then down else up]
  }

  // ---------------------------------------------------------------- exactly when a sum fits

  /** A rounded product added to a sample fits exactly when the unrounded product is within half a unit
      of the room the sample leaves. */
  lemma TwiddledSumInRangeIff(d: int, x: int, F: nat)
    requires F >= 1
    ensures InRange(d + Sround(x, F), F) <==>
            -(Pow2(F) * (SampMax(F) + d)) - Pow2(F - 1) <= x < Pow2(F) * (SampMax(F) - d) + Pow2(F - 1)
  {
    var p, h, m, q := Pow2(F), Pow2(F - 1), SampMax(F), Sround(x, F);
    Floor(x + h, p);
    CompareMultiples(p, q, m - d);
    CompareMultiples(p, -q, m + d);
    NegatedMultiple(p, q);
    NegatedMultiple(p, m + d);
    FitsCore(q, x, h, d, m, p * q, p * (m - d), p * (m + d));
  }

  lemma FitsCore(q: int, x: int, h: int, d: int, m: int, pq: int, high: int, low: int)
    requires pq <= x + h < pq + 2 * h
    requires q <= m - d ==> pq <= high
    requires q > m - d ==> pq >= high + 2 * h
    requires -q <= m + d ==> -pq <= low
    requires -q > m + d ==> -pq >= low + 2 * h
    ensures -m <= d + q <= m <==> -low - h <= x < high + h
  {
  }

  lemma TwiddledDifferenceInRangeIff(d: int, x: int, F: nat)
    requires F >= 1
    ensures InRange(d - Sround(x, F), F) <==>
            -(Pow2(F) * (SampMax(F) - d)) - Pow2(F - 1) <= x < Pow2(F) * (SampMax(F) + d) + Pow2(F - 1)
  {
    hide Sround;
    hide Pow2;
    TwiddledSumInRangeIff(-d, x, F);
  }

  /** The unrounded product x is within half a unit of the room that d leaves on both sides. */
  predicate Room(d: int, x: int, F: nat)
    requires F >= 1
  {
    var room := Pow2(F) * (SampMax(F) - Abs(d));
    -room - Pow2(F - 1) <= x < room + Pow2(F - 1)
  }

  lemma BothInRangeIff(d: int, x: int, F: nat)
    requires F >= 1
    ensures InRange(d + Sround(x, F), F) && InRange(d - Sround(x, F), F) <==> Room(d, x, F)
  {
    hide Sround;
    hide Pow2;
    TwiddledSumInRangeIff(d, x, F);
    TwiddledDifferenceInRangeIff(d, x, F);
    if d >= 0 {
      MulLe(SampMax(F) - d, SampMax(F) + d, Pow2(F));
    } else {
      MulLe(SampMax(F) + d, SampMax(F) - d, Pow2(F));
    }
  }

  /** Exactly when a radix-2 butterfly does not overflow: both components of the twiddled product lie in
      the room the divided a leaves. */
  lemma Butterfly2InRangeIff(a: Sample, b: Sample, tw: Sample, F: nat)
    requires F >= 1
    ensures var out, x, c := Butterfly2(a, b, tw, F), CFixDiv(a, 2, F), CFixDiv(b, 2, F);
            SampleInRange(out.0, F) && SampleInRange(out.1, F)
            <==> Room(x.r, c.r * tw.r - c.i * tw.i, F) && Room(x.i, c.r * tw.i + c.i * tw.r, F)
  {
    hide Sround;
    hide Room;
    hide DivScalar;
    hide InRange;
    var x, c := CFixDiv(a, 2, F), CFixDiv(b, 2, F);
    BothInRangeIff(x.r, c.r * tw.r - c.i * tw.i, F);
    BothInRangeIff(x.i, c.r * tw.i + c.i * tw.r, F);
  }

  /** In-range samples and a rounded eighth-turn twiddle that overflow the 16-bit butterfly. */
  lemma Butterfly2CanOverflow(F: nat)
    requires F == 15
    ensures var a, b, tw := Sample(32767, 0), Sample(32767, 32767), Sample(23170, -23170);
            && SampleInRange(a, F) && SampleInRange(b, F) && SampleInRange(tw, F)
            && !SampleInRange(Butterfly2(a, b, tw, F).0, F)
  {
    Powers15(F);
    assert Sround(32767 * 16383, F) == 16383;
    assert Sround(16383 * 23170 - 16383 * -23170, F) == 23169;
  }

  lemma Powers15(F: nat)
    requires F == 15
    ensures Pow2(F) == 32768 && Pow2(F - 1) == 16384
  {
    Pow2Add(7, 7);
    assert Pow2(7) == 128;
    assert Pow2(F) == 2 * Pow2(F - 1);
  }

  // ---------------------------------------------------------------- samples inside the circle

  /** A sample inside the circle of radius n. */
  predicate Inside(c: Sample, n: int) {
    c.r * c.r + c.i * c.i <= n * n
  }

  lemma SquareLe(x: int, y: int)
    requires y >= 0 && x * x <= y * y
    ensures -y <= x <= y
  {
    if x > y {
      MulLe(y, x, y);
      SquareStep(x, y);
    } else if x < -y {
      SquareStep(-x, y);
    }
  }

  lemma SquareStep(x: int, y: int)
    requires x > y >= 0
    ensures x * x > y * y
  {
    MulLe(y + 1, x, x);
    MulLe(y + 1, x, y + 1);
    assert (y + 1) * (y + 1) == y * y + 2 * y + 1;
  }

  /** |a|^2 |b|^2 as a sum of two squares. */
  lemma TwoSquares(x: int, y: int, z: int, w: int)
    ensures (x * z - y * w) * (x * z - y * w) + (x * w + y * z) * (x * w + y * z)
            == (x * x + y * y) * (z * z + w * w)
  {
    SquareOfDifference(x * z, y * w);
    SquareOfDifference(x * w, -(y * z));
    FourFactors(x, z, y, w);
    FourFactors(x, w, y, z);
    assert (x * x + y * y) * (z * z + w * w)
           == (x * x) * (z * z) + (x * x) * (w * w) + (y * y) * (z * z) + (y * y) * (w * w);
  }

  lemma SquareOfDifference(p: int, q: int)
    ensures (p - q) * (p - q) == p * p - 2 * (p * q) + q * q
  {
  }

  lemma FourFactors(x: int, z: int, y: int, w: int)
    ensures (x * z) * (x * z) == (x * x) * (z * z) && (y * w) * (y * w) == (y * y) * (w * w)
    ensures (x * z) * (y * w) == (x * w) * (y * z)
  {
    Reorder(x, z, x, z);
    Reorder(y, w, y, w);
    Reorder(x, z, w, y);
  }

  lemma Reorder(a: int, b: int, c: int, d: int)
    ensures (a * b) * (c * d) == (a * c) * (b * d)
  {
    assert (a * b) * (c * d) == a * (b * (c * d));
    assert b * (c * d) == c * (b * d);
  }

  /** The components of a product are within the product of the radii. */
  lemma CrossBound(a: Sample, b: Sample, m: int, n: int)
    requires m >= 0 && n >= 0 && Inside(a, m) && Inside(b, n)
    ensures -(m * n) <= a.r * b.r - a.i * b.i <= m * n
    ensures -(m * n) <= a.r * b.i + a.i * b.r <= m * n
  {
    var u, v := a.r * b.r - a.i * b.i, a.r * b.i + a.i * b.r;
    TwoSquares(a.r, a.i, b.r, b.i);
    SquareNonNegative(u);
    SquareNonNegative(v);
    SquareNonNegative(a.r); SquareNonNegative(a.i);
    SquareNonNegative(b.r); SquareNonNegative(b.i);
    ProductsGrow(a.r * a.r + a.i * a.i, m * m, b.r * b.r + b.i * b.i, n * n);
    Reorder(m, m, n, n);
    MulLe(0, m, n);
    SquareLe(u, m * n);
    SquareLe(v, m * n);
  }

  lemma SquareNonNegative(x: int)
    ensures x * x >= 0
  {
  }

  lemma ProductsGrow(a: int, b: int, c: int, d: int)
    requires 0 <= a <= b && 0 <= c <= d
    ensures a * c <= b * d
  {
    MulLe(a, b, c);
    MulLe(c, d, b);
  }

  function Abs(x: int): int { if x < 0 then -x else x }

  /** The components of a sample inside radius n add up to at most 17/12 of n. */
  lemma ComponentSum(c: Sample, n: int)
    requires n >= 0 && Inside(c, n)
    ensures 12 * (Abs(c.r) + Abs(c.i)) <= 17 * n
  {
    var x, y := Abs(c.r), Abs(c.i);
    var s := x + y;
    AbsSquare(c.r);
    AbsSquare(c.i);
    SquareOfDifference(x, y);
    SquareOfDifference(x, -y);
    SquareNonNegative(x - y);
    SquareNonNegative(n);
    Reorder(12, s, 12, s);
    Reorder(17, n, 17, n);
    SquareLe(12 * s, 17 * n);
  }

  lemma AbsSquare(x: int)
    ensures Abs(x) * Abs(x) == x * x
  {
  }

  /** The rounding errors of the two components, multiplied by a twiddle inside radius n. */
  lemma ErrorTimesTwiddle(e: int, f: int, z: int, w: int, h: int, n: int)
    requires -h <= e <= h && -h <= f <= h && 12 * (Abs(z) + Abs(w)) <= 17 * n
    ensures -(17 * (h * n)) <= 12 * (e * z - f * w) <= 17 * (h * n)
    ensures -(17 * (h * n)) <= 12 * (e * w + f * z) <= 17 * (h * n)
  {
    ProductBound(e, z, h, Abs(z));
    ProductBound(f, w, h, Abs(w));
    ProductBound(e, w, h, Abs(w));
    ProductBound(f, z, h, Abs(z));
    WeightedSum(h, Abs(z), Abs(w), n);
    ErrorSides(e * z, f * w, e * w, f * z, h * Abs(z), h * Abs(w), h * n);
  }

  lemma WeightedSum(h: int, x: int, y: int, n: int)
    requires h >= 0 && 12 * (x + y) <= 17 * n
    ensures 12 * (h * x) + 12 * (h * y) <= 17 * (h * n)
  {
    MulLe(12 * (x + y), 17 * n, h);
    Twelvefold(h, x);
    Twelvefold(h, y);
    assert (12 * (x + y)) * h == (12 * x) * h + (12 * y) * h;
    assert (17 * n) * h == 17 * (h * n);
  }

  lemma ErrorSides(ez: int, fw: int, ew: int, fz: int, hz: int, hw: int, hn: int)
    requires -hz <= ez <= hz && -hw <= fw <= hw && -hw <= ew <= hw && -hz <= fz <= hz && 12 * hz + 12 * hw <= 17 * hn
    ensures -(17 * hn) <= 12 * (ez - fw) <= 17 * hn && -(17 * hn) <= 12 * (ew + fz) <= 17 * hn
  {
  }

  /** p (x' z - y' w) when p x' = x d + e and p y' = y d + f. */
  lemma ScaledCross(p: int, x': int, y': int, x: int, y: int, d: int, e: int, f: int, z: int, w: int)
    requires p * x' == x * d + e && p * y' == y * d + f
    ensures p * (x' * z - y' * w) == d * (x * z - y * w) + (e * z - f * w)
  {
    Side(p, x', x, d, e, z);
    Side(p, y', y, d, f, w);
    assert p * (x' * z - y' * w) == p * (x' * z) - p * (y' * w);
    assert d * (x * z - y * w) == d * (x * z) - d * (y * w);
  }

  lemma Side(p: int, x': int, x: int, d: int, e: int, z: int)
    requires p * x' == x * d + e
    ensures p * (x' * z) == d * (x * z) + e * z
  {
    assert p * (x' * z) == (p * x') * z;
    assert (x * d + e) * z == (x * d) * z + e * z;
    assert (x * d) * z == d * (x * z);
  }

  /** n is within the room of 12 d m + 17 h after dividing out p. */
  lemma DivideOut(p: int, n: int, dc: int, e: int, dm: int, h: int)
    requires p > 0 && p * n == dc + e && -(dm * p) <= dc <= dm * p && -(17 * (h * p)) <= 12 * e <= 17 * (h * p)
    ensures -(12 * dm + 17 * h) <= 12 * n <= 12 * dm + 17 * h
  {
    var b := 12 * dm + 17 * h;
    Combination(p, dm, h);
    Twelvefold(p, n);
    Cancel(p, 12 * n, b);
    Cancel(p, -12 * n, b);
  }

  lemma Combination(p: int, dm: int, h: int)
    ensures (12 * dm + 17 * h) * p == 12 * (dm * p) + 17 * (h * p)
  {
  }

  lemma Twelvefold(p: int, n: int)
    ensures (12 * n) * p == 12 * (p * n) && (-12 * n) * p == -12 * (p * n)
  {
  }

  lemma Cancel(p: int, x: int, b: int)
    requires p > 0 && x * p <= b * p
    ensures x <= b
  {
    if x > b { MulLe(b + 1, x, p); }
  }

  lemma RoundWithin(n: int, d: int, F: nat)
    requires F >= 1 && -(12 * (d * SampMax(F)) + 17 * Pow2(F - 1)) <= 12 * n <= 12 * (d * SampMax(F)) + 17 * Pow2(F - 1)
    requires 5 * Pow2(F - 1) < 12 * d
    ensures -d <= Sround(n, F) <= d
  {
    var p, h := Pow2(F), Pow2(F - 1);
    assert d * (p - 1) == p * d - d;
    FloorLe(n + h, p, d);
    NegatedMultiple(p, d);
    FloorGe(n + h, p, -d);
  }

  /** How large a divided sample may be, for the radices 2 to 4. */
  lemma DividedRoom(k: int, F: nat)
    requires F >= 5 && 2 <= k <= 4
    ensures 5 * Pow2(F - 1) < 12 * (SampMax(F) / k) && 0 <= k * (SampMax(F) / k) <= SampMax(F)
  {
    var m := SampMax(F);
    QuotientBound(m, k);
    MulLe(k, 4, m / k);
    Pow2Mono(4, F - 1);
    assert Pow2(4) == 16;
  }

  /** A sample inside the circle of radius SAMP_MAX, divided by k and turned by a twiddle no longer than
      2^F, stays within SAMP_MAX / k in both components. */
  lemma TwiddledBound(b: Sample, tw: Sample, k: int, F: nat)
    requires F >= 5 && 2 <= k <= 4 && Inside(b, SampMax(F)) && Inside(tw, Pow2(F))
    ensures var d, t := SampMax(F) / k, CMul(CFixDiv(b, k, F), tw, F); -d <= t.r <= d && -d <= t.i <= d
  {
    hide SMul;
    hide Inside;
    hide Pow2;
    var d := SampMax(F) / k;
    DividedRoom(k, F);
    MulError(b.r, d, F);
    MulError(b.i, d, F);
    TwiddledPair(CFixDiv(b, k, F), b, d, tw, F);
  }

  lemma TwiddledPair(c: Sample, b: Sample, d: int, tw: Sample, F: nat)
    requires F >= 1 && 5 * Pow2(F - 1) < 12 * d && Inside(b, SampMax(F)) && Inside(tw, Pow2(F))
    requires 0 - Pow2(F - 1) <= Pow2(F) * c.r - b.r * d <= Pow2(F - 1)
    requires 0 - Pow2(F - 1) <= Pow2(F) * c.i - b.i * d <= Pow2(F - 1)
    ensures var t := CMul(c, tw, F); -d <= t.r <= d && -d <= t.i <= d
  {
    hide Sround;
    hide Inside;
    hide Abs;
    hide Pow2;
    var p, h := Pow2(F), Pow2(F - 1);
    var e, f := p * c.r - b.r * d, p * c.i - b.i * d;
    CrossBound(b, tw, SampMax(F), p);
    ComponentSum(tw, p);
    ErrorTimesTwiddle(e, f, tw.r, tw.i, h, p);
    TwiddledComponent(c.r, c.i, b.r, b.i, d, e, f, tw.r, tw.i, F);
    SignOut(c.r, c.i, b.r, b.i, e, f, tw.i, tw.r);
    TwiddledComponent(c.r, c.i, b.r, b.i, d, e, f, tw.i, -tw.r, F);
  }

  lemma SignOut(x': int, y': int, x: int, y: int, e: int, f: int, z: int, w: int)
    ensures x' * z - y' * -w == x' * z + y' * w && x * z - y * -w == x * z + y * w && e * z - f * -w == e * z + f * w
  {
  }

  lemma Associate(x: int, y: int, z: int)
    ensures x * (y * z) == (x * y) * z
  {
  }

  lemma TwiddledComponent(x': int, y': int, x: int, y: int, d: int, e: int, f: int, z: int, w: int, F: nat)
    requires F >= 1 && 5 * Pow2(F - 1) < 12 * d
    requires Pow2(F) * x' == x * d + e && Pow2(F) * y' == y * d + f
    requires -(SampMax(F) * Pow2(F)) <= x * z - y * w <= SampMax(F) * Pow2(F)
    requires -(17 * (Pow2(F - 1) * Pow2(F))) <= 12 * (e * z - f * w) <= 17 * (Pow2(F - 1) * Pow2(F))
    ensures -d <= Sround(x' * z - y' * w, F) <= d
  {
    hide Sround;
    hide Pow2;
    var p, h, m := Pow2(F), Pow2(F - 1), SampMax(F);
    var cross := x * z - y * w;
    ScaledCross(p, x', y', x, y, d, e, f, z, w);
    ProductBound(d, cross, d, m * p);
    Associate(d, m, p);
    DivideOut(p, x' * z - y' * w, d * cross, e * z - f * w, d * m, h);
    RoundWithin(x' * z - y' * w, d, F);
  }

  /** No overflow in a radix-2 butterfly on samples inside the circle, whatever twiddle kf_cexp rounds to. */
  lemma Butterfly2InRange(a: Sample, b: Sample, tw: Sample, F: nat)
    requires F >= 5 && SampleInRange(a, F) && Inside(b, SampMax(F)) && Inside(tw, Pow2(F))
    ensures var out := Butterfly2(a, b, tw, F); SampleInRange(out.0, F) && SampleInRange(out.1, F)
  {
    hide CMul;
    hide DivScalar;
    hide Inside;
    hide Pow2;
    DividedRoom(2, F);
    DividedBound(a.r, 2, F);
    DividedBound(a.i, 2, F);
    TwiddledBound(b, tw, 2, F);
  }

  /** Nor in a radix-4 butterfly, in either direction. */
  lemma Butterfly4InRange(a: Sample, b: seq<Sample>, tw: seq<Sample>, inverse: bool, F: nat, j: nat)
    requires F >= 5 && |b| == |tw| == 3 && SampleInRange(a, F) && j < 4
    requires forall q :: 0 <= q < 3 ==> Inside(b[q], SampMax(F)) && Inside(tw[q], Pow2(F))
    ensures SampleInRange(Butterfly4(a, b, tw, inverse, F)[j], F)
  {
    hide CMul;
    hide DivScalar;
    hide Inside;
    hide Pow2;
    DividedRoom(4, F);
    DividedBound(a.r, 4, F);
    DividedBound(a.i, 4, F);
    TwiddledBound(b[0], tw[0], 4, F);
    TwiddledBound(b[1], tw[1], 4, F);
    TwiddledBound(b[2], tw[2], 4, F);
  }

  /** Nor in the sums and differences it keeps in scratch. */
  lemma Butterfly4ScratchInRange(a: Sample, b: seq<Sample>, tw: seq<Sample>, F: nat)
    requires F >= 5 && |b| == |tw| == 3 && SampleInRange(a, F)
    requires forall q :: 0 <= q < 3 ==> Inside(b[q], SampMax(F)) && Inside(tw[q], Pow2(F))
    ensures var x, s1 := CFixDiv(a, 4, F), CMul(CFixDiv(b[1], 4, F), tw[1], F);
            && SampleInRange(x, F) && SampleInRange(s1, F)
            && SampleInRange(Add(x, s1), F) && SampleInRange(Sub(x, s1), F)
    ensures var s0, s2 := CMul(CFixDiv(b[0], 4, F), tw[0], F), CMul(CFixDiv(b[2], 4, F), tw[2], F);
            && SampleInRange(s0, F) && SampleInRange(s2, F)
            && SampleInRange(Add(s0, s2), F) && SampleInRange(Sub(s0, s2), F)
  {
    hide CMul;
    hide DivScalar;
    hide Inside;
    hide Pow2;
    DividedRoom(4, F);
    DividedBound(a.r, 4, F);
    DividedBound(a.i, 4, F);
    TwiddledBound(b[0], tw[0], 4, F);
    TwiddledBound(b[1], tw[1], 4, F);
    TwiddledBound(b[2], tw[2], 4, F);
  }
}
