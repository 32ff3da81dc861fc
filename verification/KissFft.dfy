/**
 kiss_fft.c as a whole: the recursion over the factors of the length, and the transform the library's
 callers get.
 */
module KissFft {
  import opened Complex
  import opened RootsOfUnity
  import opened FourierTransform
  import opened FftStages

  /** The stages split the length n: p m = n at the first, and the rest split m. */
  predicate Chain(factors: seq<Stage>, n: nat) {
    && |factors| > 0 && factors[0].p > 0 && factors[0].m > 0 && factors[0].p * factors[0].m == n
    && (factors[0].m > 1 ==> Chain(factors[1..], factors[0].m))
  }

  ghost predicate Transformed(now: seq<Cpx>, at: int, n: int, x: seq<Cpx>, from: int, stride: int, r: Cpx, s: int) {
    forall k :: 0 <= k < n ==> At(now, Index(at, 1, 0, k)) == Dft(x, from, stride, n, r, s, k)
  }

  /** The first q of the p short transforms are in place, and nothing outside has changed. */
  ghost predicate PartsDone(now: seq<Cpx>, before: seq<Cpx>, at: int, m: int, p: int, q: int,
                            x: seq<Cpx>, from: int, stride: int, r: Cpx, s: int) {
    && |now| == |before|
    && (forall q', u :: 0 <= q' < q && 0 <= u < m ==>
          At(now, Index(at, m, q', u)) == Dft(x, from + q' * stride, stride * p, m, r, s * p, u))
    && (forall i :: 0 <= i < |now| && !(at <= i < at + p * m) ==> now[i] == before[i])
  }

  lemma PartStep(a: seq<Cpx>, b: seq<Cpx>, before: seq<Cpx>, at: nat, m: nat, p: nat, q: nat,
                 x: seq<Cpx>, from: int, stride: int, r: Cpx, s: int)
    requires PartsDone(a, before, at, m, p, q, x, from, stride, r, s) && q < p && |a| == |b| && at + p * m <= |a|
    requires Transformed(b, at + q * m, m, x, from + q * stride, stride * p, r, s * p)
    requires forall i :: 0 <= i < |a| && !(at + q * m <= i < at + q * m + m) ==> a[i] == b[i]
    ensures PartsDone(b, before, at, m, p, q + 1, x, from, stride, r, s)
  {
    hide Dft;
    Rows(m, q, p);
    forall q', u | 0 <= q' < q + 1 && 0 <= u < m
      ensures At(b, Index(at, m, q', u)) == Dft(x, from + q' * stride, stride * p, m, r, s * p, u)
    {
      if q' == q {
        assert Index(at + q * m, 1, 0, u) == Index(at, m, q, u);
      } else {
        Rows(m, q', q);
        IndexBounds(at, m, q', u, p);
      }
    }
  }

  lemma NoParts(a: seq<Cpx>, at: int, m: int, p: int, x: seq<Cpx>, from: int, stride: int, r: Cpx, s: int)
    ensures PartsDone(a, a, at, m, p, 0, x, from, stride, r, s)
  {
    hide Dft;
  }

  /** A transform of one sample is that sample. */
  lemma SingleSample(x: seq<Cpx>, from: int, stride: int, r: Cpx, s: int)
    ensures Dft(x, from, stride, 1, r, s, 0) == At(x, from)
  {
    hide Mul;
    hide Power;
    var f := j => Term(x, from, stride, r, s, 0, j);
    assert Dft(x, from, stride, 1, r, s, 0) == Add(Sum(f, 0), f(0));
    PowerOfZero(r, s * 0 * 0);
    MulOne(At(x, from));
    ZeroLaws(f(0));
  }

  lemma PowerOfZero(r: Cpx, e: int)
    requires e == 0
    ensures Power(r, e) == One
  {
  }

  lemma DivMod(k: nat, m: nat, p: nat) returns (u: nat, q: nat)
    requires k < p * m && m > 0
    ensures u < m && q < p && k == u + q * m
  {
    u, q := k % m, k / m;
    if q >= p {
      Rows(m, p, q + 1);
    }
  }

  /** Recombining the parts gives the whole transform. */
  lemma WholeFromParts(now: seq<Cpx>, mid: seq<Cpx>, before: seq<Cpx>, at: nat, m: nat, p: nat,
                       x: seq<Cpx>, from: int, stride: int, r: Cpx, n: nat, s: nat)
    requires Power(r, n) == One && s * p * m == n && m > 0
    requires PartsDone(mid, before, at, m, p, p, x, from, stride, r, s)
    requires ColumnsDone(now, mid, at, m, p, r, s, m)
    ensures Transformed(now, at, p * m, x, from, stride, r, s)
  {
    hide Dft;
    hide Recombined;
    hide Power;
    forall k | 0 <= k < p * m
      ensures At(now, Index(at, 1, 0, k)) == Dft(x, from, stride, p * m, r, s, k)
    {
      var u, q1 := DivMod(k, m, p);
      assert Index(at, m, q1, u) == Index(at, 1, 0, k);
      SameInputs(q => At(mid, Index(at, m, q, u)), q => Dft(x, from + q * stride, stride * p, m, r, s * p, u),
                 p, r, s, k);
      Decimation(x, from, stride, r, n, s, p, m, u, q1);
    }
  }

  lemma PartStrides(s: nat, p: nat, m: nat, n: nat, inStride: nat)
    requires s * (p * m) == n && s > 0 && p > 0
    ensures s * p > 0 && s * p * m == n && s * p * inStride == s * inStride * p && s * inStride >= 0
  {
    StrictProduct(s, 0, p);
    ProductNonNegative(s, inStride);
    Rearranged(s, p, m);
  }

  /** The last sample a part reads is within what the whole reads. */
  lemma PartReads(p: nat, m: nat, q: nat, stride: nat, from: nat)
    requires q < p && m > 0
    ensures 0 <= q * stride && 0 <= (m - 1) * (stride * p)
    ensures from + q * stride + (m - 1) * (stride * p) <= from + (p * m - 1) * stride
    ensures from + q * stride <= from + (p * m - 1) * stride
  {
    ProductNonNegative(p, m - 1);
    ProductNonNegative(q, stride);
    ProductNonNegative(stride, p);
    ProductNonNegative(m - 1, stride * p);
    assert p * m == p * (m - 1) + p;
    ProductNonNegative(p - 1 - q, stride);
    PartReadsCore(p, m, q, stride);
  }

  lemma PartReadsCore(p: int, m: int, q: int, stride: int)
    ensures (p * m - 1) * stride == q * stride + (m - 1) * (stride * p) + (p - 1 - q) * stride
  {
  }

  /** kf_work: fout[at ..] becomes the transform of the samples of f at the given stride. */
  method Work(fout: array<Cpx>, at: nat, f: array<Cpx>, from: nat, fstride: nat, inStride: nat, factors: seq<Stage>,
              st: Config, n: nat, ghost r: Cpx, ghost x: seq<Cpx>)
    requires Ready(st, r) && Chain(factors, n) && fstride > 0 && fstride * n == st.nfft && at + n <= fout.Length
    requires f != fout && f[..] == x && from + (n - 1) * (fstride * inStride) < f.Length
    modifies fout
    ensures Transformed(fout[..], at, n, x, from, fstride * inStride, r, fstride)
    ensures forall i :: 0 <= i < fout.Length && !(at <= i < at + n) ==> fout[i] == old(fout[i])
    decreases |factors|
  {
    hide Ready;
    hide Transformed;
    hide PartsDone;
    hide ColumnsDone;
    var p, m := factors[0].p, factors[0].m;
    ghost var before, stride := fout[..], fstride * inStride;
    PartStrides(fstride, p, m, st.nfft, inStride);
    NoParts(before, at, m, p, x, from, stride, r, fstride);
    for q := 0 to p
      invariant PartsDone(fout[..], before, at, m, p, q, x, from, stride, r, fstride) && f[..] == x
    {
      ghost var a := fout[..];
      Rows(m, q, p);
      PartReads(p, m, q, stride, from);
      if m == 1 {
        fout[at + q] := f[from + q * (fstride * inStride)];
        OneSample(fout[..], at + q, x, from + q * stride, stride * p, r, fstride * p);
      } else {
        Work(fout, at + q * m, f, from + q * (fstride * inStride), fstride * p, inStride, factors[1..], st, m, r, x);
      }
      PartStep(a, fout[..], before, at, m, p, q, x, from, stride, r, fstride);
    }
    ghost var mid := fout[..];
    Recombine(fout, at, fstride, st, m, p, r);
    RootPeriod(st, r);
    WholeFromParts(fout[..], mid, before, at, m, p, x, from, stride, r, st.nfft, fstride);
    OutsideKept(fout[..], mid, before, at, m, p, x, from, stride, r, fstride);
  }

  lemma RootPeriod(st: Config, r: Cpx)
    requires Ready(st, r)
    ensures Power(r, st.nfft) == One
  {
  }

  lemma OneSample(now: seq<Cpx>, at: nat, x: seq<Cpx>, from: int, stride: int, r: Cpx, s: int)
    requires at < |now| && now[at] == At(x, from)
    ensures Transformed(now, at, 1, x, from, stride, r, s)
  {
    hide Dft;
    SingleSample(x, from, stride, r, s);
  }

  lemma OutsideKept(now: seq<Cpx>, mid: seq<Cpx>, before: seq<Cpx>, at: nat, m: nat, p: nat,
                    x: seq<Cpx>, from: int, stride: int, r: Cpx, s: int)
    requires PartsDone(mid, before, at, m, p, p, x, from, stride, r, s)
    requires ColumnsDone(now, mid, at, m, p, r, s, m)
    ensures |now| == |before| && forall i :: 0 <= i < |now| && !(at <= i < at + p * m) ==> now[i] == before[i]
  {
    hide Dft;
    hide Target;
  }
}
