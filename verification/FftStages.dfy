/**
 One stage of kiss_fft.c: p interleaved transforms of length m, stored one after the other, become
 one transform of length p m in place.
 */
module FftStages {
  import opened Complex
  import opened RootsOfUnity
  import opened FourierTransform
  import opened Butterflies

  datatype Stage = Stage(p: nat, m: nat)

  datatype Config = Config(nfft: nat, inverse: bool, factors: seq<Stage>, twiddles: seq<Cpx>)

  /** The twiddle table holds the powers of the root r. */
  ghost predicate Ready(st: Config, r: Cpx) {
    && IsRoot(r, st.nfft, st.inverse) && |st.twiddles| == st.nfft
    && forall i :: 0 <= i < st.nfft ==> st.twiddles[i] == Power(r, i)
  }

  lemma ReadyRoot(st: Config, r: Cpx)
    requires Ready(st, r)
    ensures IsRoot(r, st.nfft, st.inverse)
  {
  }

  /** Where entry u of the q-th short transform is stored. */
  function Index(at: int, m: int, q: int, u: int): int {
    at + q * m + u
  }

  /** Output u + q1 m of the long transform, from the stored short ones. */
  ghost function Target(before: seq<Cpx>, at: int, m: int, p: int, r: Cpx, s: int, u: int, q1: int): Cpx {
    Recombined(q => At(before, Index(at, m, q, u)), p, r, s, u + q1 * m)
  }

  ghost predicate OnColumn(i: int, at: int, m: int, p: int, u: int) {
    exists q :: 0 <= q < p && i == Index(at, m, q, u)
  }

  /** The first u columns are recombined, and nothing else has changed. */
  ghost predicate ColumnsDone(now: seq<Cpx>, before: seq<Cpx>, at: int, m: int, p: int, r: Cpx, s: int, u: int) {
    && |now| == |before|
    && (forall q, v :: 0 <= q < p && 0 <= v < m ==>
          At(now, Index(at, m, q, v)) ==
          if v < u then Target(before, at, m, p, r, s, v, q) else At(before, Index(at, m, q, v)))
    && (forall i :: 0 <= i < |now| && !(at <= i < at + p * m) ==> now[i] == before[i])
  }

  // ---------------------------------------------------------------- where the columns are

  lemma Rows(m: nat, q: nat, p: nat)
    requires q < p
    ensures 0 <= q * m && q * m + m <= p * m
  {
    ProductNonNegative(p - q - 1, m);
    ProductNonNegative(q, m);
    assert p * m == q * m + m + (p - q - 1) * m;
  }

  lemma IndexBounds(at: nat, m: nat, q: nat, u: nat, p: nat)
    requires q < p && u < m
    ensures at <= Index(at, m, q, u) < at + p * m
  {
    Rows(m, q, p);
  }

  lemma IndexDistinct(at: nat, m: nat, q: nat, v: nat, q': nat, v': nat)
    requires v < m && v' < m && Index(at, m, q, v) == Index(at, m, q', v')
    ensures q == q' && v == v'
  {
    if q < q' {
      Rows(m, q, q');
    } else if q' < q {
      Rows(m, q', q);
    }
  }

  lemma OffColumn(at: nat, m: nat, p: nat, u: nat, q: nat, v: nat)
    requires q < p && u < m && v < m && v != u
    ensures !OnColumn(Index(at, m, q, v), at, m, p, u)
  {
    forall q' | 0 <= q' < p ensures Index(at, m, q, v) != Index(at, m, q', u) {
      if Index(at, m, q, v) == Index(at, m, q', u) {
        IndexDistinct(at, m, q, v, q', u);
      }
    }
  }

  lemma ColumnInside(i: int, at: nat, m: nat, p: nat, u: nat)
    requires u < m && OnColumn(i, at, m, p, u)
    ensures at <= i < at + p * m
  {
    var q :| 0 <= q < p && i == Index(at, m, q, u);
    IndexBounds(at, m, q, u, p);
  }

  lemma StartColumns(s0: seq<Cpx>, at: nat, m: nat, p: nat, r: Cpx, s: int)
    ensures ColumnsDone(s0, s0, at, m, p, r, s, 0)
  {
    hide Target;
    hide Index;
    hide At;
  }

  lemma ColumnStep(a: seq<Cpx>, b: seq<Cpx>, before: seq<Cpx>, at: nat, m: nat, p: nat, r: Cpx, s: int, u: nat)
    requires ColumnsDone(a, before, at, m, p, r, s, u) && u < m && |a| == |b| && at + p * m <= |a|
    requires forall q :: 0 <= q < p ==> At(b, Index(at, m, q, u)) == Target(before, at, m, p, r, s, u, q)
    requires forall i :: 0 <= i < |a| && !OnColumn(i, at, m, p, u) ==> a[i] == b[i]
    ensures ColumnsDone(b, before, at, m, p, r, s, u + 1)
  {
    hide Target;
    hide Index;
    hide OnColumn;
    forall q, v | 0 <= q < p && 0 <= v < m
      ensures At(b, Index(at, m, q, v)) ==
              if v < u + 1 then Target(before, at, m, p, r, s, v, q) else At(before, Index(at, m, q, v))
    {
      if v != u {
        OffColumn(at, m, p, u, q, v);
        IndexBounds(at, m, q, v, p);
      }
    }
    forall i | 0 <= i < |b| && !(at <= i < at + p * m) ensures b[i] == before[i] {
      if OnColumn(i, at, m, p, u) {
        ColumnInside(i, at, m, p, u);
      }
    }
  }

  // ---------------------------------------------------------------- twiddles

  lemma TwiddleExponent(s: nat, m: nat, q: nat, u: nat, q1: nat)
    ensures s * q * (u + q1 * m) == s * q * u + s * m * (q * q1)
    ensures s * q * u >= 0 && s * m >= 0 && q * q1 >= 0 && s * m * (q * q1) >= 0
  {
    NonNegative(s, q, u, 1);
    NonNegative(s, m, q, q1);
  }

  /** Recombining is a short transform of the twiddled values. */
  lemma TargetIsSmall(before: seq<Cpx>, at: nat, m: nat, p: nat, r: Cpx, s: nat, u: nat, q1: nat, a: seq<Cpx>)
    requires |a| == p
    requires forall q :: 0 <= q < p ==> a[q] == Mul(At(before, Index(at, m, q, u)), Power(r, s * q * u))
    ensures Target(before, at, m, p, r, s, u, q1) == SmallDft(a, Power(r, s * m), q1)
  {
    hide Mul;
    hide Power;
    hide Sum;
    hide Index;
    var c := Power(r, s * m);
    var k := u + q1 * m;
    var y := q => At(before, Index(at, m, q, u));
    var f, g := q => Mul(y(q), Power(r, s * q * k)), Terms(a, c, q1);
    forall q | 0 <= q < p ensures f(q) == g(q) {
      TwiddleExponent(s, m, q, u, q1);
      PowerAdd(r, s * q * u, s * m * (q * q1));
      PowerMul(r, s * m, q * q1);
      MulAssoc(y(q), Power(r, s * q * u), Power(c, q * q1));
    }
    SumEq(f, g, p);
  }

  lemma StrictProduct(s: nat, x: nat, y: nat)
    requires s > 0 && x < y
    ensures 0 <= s * x < s * y
  {
    ProductNonNegative(s, x);
    ProductNonNegative(s, y - x - 1);
    assert s * y == s * x + s + s * (y - x - 1);
  }

  lemma TwiddleBound(s: nat, p: nat, m: nat, q: nat, u: nat, n: nat)
    requires q < p && u < m && s * p * m == n && s > 0
    ensures 0 <= s * q * u < n
  {
    ProductNonNegative(q, u);
    assert q * u < p * m by {
      StrictProduct(m, q, p);
      ProductNonNegative(q, m - u);
      assert q * m == q * u + q * (m - u);
      assert m * q == q * m && m * p == p * m;
    }
    StrictProduct(s, q * u, p * m);
    assert s * (q * u) == s * q * u && s * (p * m) == s * p * m;
  }

  /** A twiddle table entry is the power it stands for. */
  lemma Twiddle(st: Config, r: Cpx, s: nat, p: nat, m: nat, q: nat, u: nat)
    requires Ready(st, r) && q < p && u < m && s * p * m == st.nfft && s > 0
    ensures 0 <= s * q * u < |st.twiddles| && st.twiddles[s * q * u] == Power(r, s * q * u)
  {
    hide Power;
    TwiddleBound(s, p, m, q, u, st.nfft);
  }

  lemma NextTwiddle(s: int, q: int, u: int)
    ensures s * q * (u + 1) == s * q * u + s * q
  {
  }

  /** A column not yet recombined still holds the stored values. */
  lemma ColumnStill(a: seq<Cpx>, before: seq<Cpx>, at: nat, m: nat, p: nat, r: Cpx, s: int, u: nat, q: nat)
    requires ColumnsDone(a, before, at, m, p, r, s, u) && u < m && q < p
    ensures At(a, Index(at, m, q, u)) == At(before, Index(at, m, q, u)) && |a| == |before|
  {
    hide Target;
  }

  /** The twiddle a whole stage turns by. */
  lemma StageTwiddle(st: Config, r: Cpx, s: nat, p: nat, m: nat, q: nat)
    requires Ready(st, r) && q < p && m > 0 && s * p * m == st.nfft && s > 0
    ensures 0 <= s * q * m < |st.twiddles| && st.twiddles[s * q * m] == Power(r, s * q * m)
    ensures s * m >= 0 && p * (s * m) == st.nfft && s * q * m == q * (s * m)
  {
    hide Power;
    ProductNonNegative(s, m);
    ProductNonNegative(q, m);
    StrictProduct(m, q, p);
    StrictProduct(s, q * m, p * m);
    Rearranged(s, p, m);
    Rearranged(s, q, m);
  }

  lemma Rearranged(s: nat, p: nat, m: nat)
    ensures s * p * m == p * (s * m) && s * (p * m) == s * p * m && m * p == p * m
  {
  }

  // ---------------------------------------------------------------- radix 2

  lemma HalfTwiddle(st: Config, r: Cpx, s: nat, m: nat)
    requires Ready(st, r) && s * 2 * m == st.nfft
    ensures Power(r, s * m) == Cpx(-1.0, 0.0)
  {
    hide Power;
    ProductNonNegative(s, m);
    Rearranged(s, 2, m);
    HalfTurn(r, st.nfft, s * m, st.inverse);
  }

  lemma Column2(a: seq<Cpx>, b: seq<Cpx>, before: seq<Cpx>, at: nat, m: nat, r: Cpx, s: nat, u: nat)
    requires ColumnsDone(a, before, at, m, 2, r, s, u) && u < m && |a| == |b| && at + 2 * m <= |a|
    requires var w := Power(r, s * 1 * u); var y := [a[at + u], Mul(a[at + u + m], w)]; var c := Power(r, s * m);
             b[at + u] == SmallDft(y, c, 0) && b[at + u + m] == SmallDft(y, c, 1)
    requires forall i :: 0 <= i < |a| && i != at + u && i != at + u + m ==> a[i] == b[i]
    ensures ColumnsDone(b, before, at, m, 2, r, s, u + 1)
  {
    hide Mul;
    hide Power;
    hide SmallDft;
    hide ColumnsDone;
    hide Target;
    assert Index(at, m, 0, u) == at + u && Index(at, m, 1, u) == at + u + m;
    var y := [a[at + u], Mul(a[at + u + m], Power(r, s * 1 * u))];
    ColumnStill(a, before, at, m, 2, r, s, u, 0);
    ColumnStill(a, before, at, m, 2, r, s, u, 1);
    PowerSmall(r);
    MulOne(a[at + u]);
    TargetIsSmall(before, at, m, 2, r, s, u, 0, y);
    TargetIsSmall(before, at, m, 2, r, s, u, 1, y);
    ColumnStep(a, b, before, at, m, 2, r, s, u);
  }

  /** kf_bfly2 */
  method Radix2Stage(fout: array<Cpx>, at: nat, fstride: nat, st: Config, m: nat, ghost r: Cpx)
    requires Ready(st, r) && fstride > 0 && fstride * 2 * m == st.nfft && at + 2 * m <= fout.Length
    modifies fout
    ensures ColumnsDone(fout[..], old(fout[..]), at, m, 2, r, fstride, m)
  {
    hide Mul;
    hide Power;
    hide SmallDft;
    hide ColumnsDone;
    hide Ready;
    ghost var before := fout[..];
    HalfTwiddle(st, r, fstride, m);
    var tw1 := 0;
    StartColumns(before, at, m, 2, r, fstride);
    for u := 0 to m
      invariant tw1 == fstride * 1 * u
      invariant ColumnsDone(fout[..], before, at, m, 2, r, fstride, u)
    {
      ghost var a := fout[..];
      Twiddle(st, r, fstride, 2, m, 1, u);
      Bfly2(fout, at + u, at + u + m, st.twiddles[tw1]);
      Column2(a, fout[..], before, at, m, r, fstride, u);
      NextTwiddle(fstride, 1, u);
      tw1 := tw1 + fstride;
    }
  }

  // ---------------------------------------------------------------- radix 3

  lemma CubeTwiddle(r: Cpx, n: nat, t: nat, inverse: bool)
    requires IsRoot(r, n, inverse) && 3 * t == n
    ensures var c := Power(r, t); c.re == -0.5 && Power(c, 2) == Conj(c) && Power(c, 3) == One
  {
    hide Mul;
    hide Power;
    hide Conj;
    ThirdTurn(r, n, t, inverse);
    PowerMul(r, t, 2);
    PowerMul(r, t, 3);
  }

  lemma Column3(a: seq<Cpx>, b: seq<Cpx>, before: seq<Cpx>, at: nat, m: nat, r: Cpx, s: nat, u: nat)
    requires ColumnsDone(a, before, at, m, 3, r, s, u) && u < m && |a| == |b| && at + 3 * m <= |a|
    requires var y := [a[at + u], Mul(a[at + u + m], Power(r, s * 1 * u)), Mul(a[at + u + 2 * m], Power(r, s * 2 * u))];
             var c := Power(r, s * m);
             && b[at + u] == SmallDft(y, c, 0) && b[at + u + m] == SmallDft(y, c, 1)
             && b[at + u + 2 * m] == SmallDft(y, c, 2)
    requires forall i :: 0 <= i < |a| && i != at + u && i != at + u + m && i != at + u + 2 * m ==> a[i] == b[i]
    ensures ColumnsDone(b, before, at, m, 3, r, s, u + 1)
  {
    hide Mul;
    hide Power;
    hide SmallDft;
    hide ColumnsDone;
    hide Target;
    assert Index(at, m, 0, u) == at + u && Index(at, m, 1, u) == at + u + m && Index(at, m, 2, u) == at + u + 2 * m;
    var y := [a[at + u], Mul(a[at + u + m], Power(r, s * 1 * u)), Mul(a[at + u + 2 * m], Power(r, s * 2 * u))];
    ColumnStill(a, before, at, m, 3, r, s, u, 0);
    ColumnStill(a, before, at, m, 3, r, s, u, 1);
    ColumnStill(a, before, at, m, 3, r, s, u, 2);
    PowerSmall(r);
    MulOne(a[at + u]);
    TargetIsSmall(before, at, m, 3, r, s, u, 0, y);
    TargetIsSmall(before, at, m, 3, r, s, u, 1, y);
    TargetIsSmall(before, at, m, 3, r, s, u, 2, y);
    ColumnStep(a, b, before, at, m, 3, r, s, u);
  }

  /** kf_bfly3 */
  method Radix3Stage(fout: array<Cpx>, at: nat, fstride: nat, st: Config, m: nat, ghost r: Cpx)
    requires Ready(st, r) && fstride > 0 && m > 0 && fstride * 3 * m == st.nfft && at + 3 * m <= fout.Length
    modifies fout
    ensures ColumnsDone(fout[..], old(fout[..]), at, m, 3, r, fstride, m)
  {
    hide IsRoot;
    hide Ready;
    hide Mul;
    hide Power;
    hide SmallDft;
    hide ColumnsDone;
    hide Conj;
    ghost var before := fout[..];
    StageTwiddle(st, r, fstride, 3, m, 1);
    ReadyRoot(st, r);
    CubeTwiddle(r, st.nfft, fstride * m, st.inverse);
    var epi3 := st.twiddles[fstride * 1 * m];
    var tw1, tw2 := 0, 0;
    StartColumns(before, at, m, 3, r, fstride);
    for u := 0 to m
      invariant tw1 == fstride * 1 * u && tw2 == fstride * 2 * u
      invariant ColumnsDone(fout[..], before, at, m, 3, r, fstride, u)
    {
      ghost var a := fout[..];
      Twiddle(st, r, fstride, 3, m, 1, u);
      Twiddle(st, r, fstride, 3, m, 2, u);
      Bfly3(fout, at + u, at + u + m, at + u + 2 * m, st.twiddles[tw1], st.twiddles[tw2], epi3);
      Column3(a, fout[..], before, at, m, r, fstride, u);
      NextTwiddle(fstride, 1, u);
      NextTwiddle(fstride, 2, u);
      tw1, tw2 := tw1 + fstride, tw2 + fstride * 2;
    }
  }

  // ---------------------------------------------------------------- radix 4

  lemma QuarterTwiddle(st: Config, r: Cpx, s: nat, m: nat)
    requires Ready(st, r) && s * 4 * m == st.nfft
    ensures Power(r, s * m) == Cpx(0.0, if st.inverse then 1.0 else -1.0)
  {
    hide Power;
    Rearranged(s, 4, m);
    var t := s * m;
    assert 4 * t == st.nfft;
  }

  lemma Column4(a: seq<Cpx>, b: seq<Cpx>, before: seq<Cpx>, at: nat, m: nat, r: Cpx, s: nat, u: nat)
    requires ColumnsDone(a, before, at, m, 4, r, s, u) && u < m && |a| == |b| && at + 4 * m <= |a|
    requires var y := [a[at + u], Mul(a[at + u + m], Power(r, s * 1 * u)), Mul(a[at + u + 2 * m], Power(r, s * 2 * u)),
                       Mul(a[at + u + 3 * m], Power(r, s * 3 * u))];
             var c := Power(r, s * m);
             && b[at + u] == SmallDft(y, c, 0) && b[at + u + m] == SmallDft(y, c, 1)
             && b[at + u + 2 * m] == SmallDft(y, c, 2) && b[at + u + 3 * m] == SmallDft(y, c, 3)
    requires forall i :: (0 <= i < |a| && i != at + u && i != at + u + m && i != at + u + 2 * m
                          && i != at + u + 3 * m) ==> a[i] == b[i]
    ensures ColumnsDone(b, before, at, m, 4, r, s, u + 1)
  {
    hide Mul;
    hide Power;
    hide SmallDft;
    hide ColumnsDone;
    hide Target;
    assert Index(at, m, 0, u) == at + u && Index(at, m, 1, u) == at + u + m;
    assert Index(at, m, 2, u) == at + u + 2 * m && Index(at, m, 3, u) == at + u + 3 * m;
    var y := [a[at + u], Mul(a[at + u + m], Power(r, s * 1 * u)), Mul(a[at + u + 2 * m], Power(r, s * 2 * u)),
              Mul(a[at + u + 3 * m], Power(r, s * 3 * u))];
    ColumnStill(a, before, at, m, 4, r, s, u, 0);
    ColumnStill(a, before, at, m, 4, r, s, u, 1);
    ColumnStill(a, before, at, m, 4, r, s, u, 2);
    ColumnStill(a, before, at, m, 4, r, s, u, 3);
    PowerSmall(r);
    MulOne(a[at + u]);
    TargetIsSmall(before, at, m, 4, r, s, u, 0, y);
    TargetIsSmall(before, at, m, 4, r, s, u, 1, y);
    TargetIsSmall(before, at, m, 4, r, s, u, 2, y);
    TargetIsSmall(before, at, m, 4, r, s, u, 3, y);
    ColumnStep(a, b, before, at, m, 4, r, s, u);
  }

  /** kf_bfly4 */
  method Radix4Stage(fout: array<Cpx>, at: nat, fstride: nat, st: Config, m: nat, ghost r: Cpx)
    requires Ready(st, r) && fstride > 0 && fstride * 4 * m == st.nfft && at + 4 * m <= fout.Length
    modifies fout
    ensures ColumnsDone(fout[..], old(fout[..]), at, m, 4, r, fstride, m)
  {
    hide Ready;
    hide Mul;
    hide Power;
    hide SmallDft;
    hide ColumnsDone;
    ghost var before := fout[..];
    QuarterTwiddle(st, r, fstride, m);
    var tw1, tw2, tw3 := 0, 0, 0;
    StartColumns(before, at, m, 4, r, fstride);
    for u := 0 to m
      invariant tw1 == fstride * 1 * u && tw2 == fstride * 2 * u && tw3 == fstride * 3 * u
      invariant ColumnsDone(fout[..], before, at, m, 4, r, fstride, u)
    {
      ghost var a := fout[..];
      Twiddle(st, r, fstride, 4, m, 1, u);
      Twiddle(st, r, fstride, 4, m, 2, u);
      Twiddle(st, r, fstride, 4, m, 3, u);
      Bfly4(fout, at + u, at + u + m, at + u + 2 * m, at + u + 3 * m,
            st.twiddles[tw1], st.twiddles[tw2], st.twiddles[tw3], st.inverse);
      Column4(a, fout[..], before, at, m, r, fstride, u);
      NextTwiddle(fstride, 1, u);
      NextTwiddle(fstride, 2, u);
      NextTwiddle(fstride, 3, u);
      tw1, tw2, tw3 := tw1 + fstride, tw2 + fstride * 2, tw3 + fstride * 3;
    }
  }

  // ---------------------------------------------------------------- radix 5

  lemma FifthTwiddle(r: Cpx, n: nat, t: nat, inverse: bool)
    requires IsRoot(r, n, inverse) && 5 * t == n
    ensures FifthRoot(Power(r, t), Power(r, 2 * t))
  {
    hide Mul;
    hide Power;
    hide Conj;
    PowerMul(r, t, 2); PowerMul(r, t, 3); PowerMul(r, t, 4); PowerMul(r, t, 5);
    ComplementIsConj(r, n, 2 * t, 3 * t);
    ComplementIsConj(r, n, t, 4 * t);
  }

  lemma Column5(a: seq<Cpx>, b: seq<Cpx>, before: seq<Cpx>, at: nat, m: nat, r: Cpx, s: nat, u: nat)
    requires ColumnsDone(a, before, at, m, 5, r, s, u) && u < m && |a| == |b| && at + 5 * m <= |a|
    requires var y := [a[at + u], Mul(a[at + u + m], Power(r, s * 1 * u)), Mul(a[at + u + 2 * m], Power(r, s * 2 * u)),
                       Mul(a[at + u + 3 * m], Power(r, s * 3 * u)), Mul(a[at + u + 4 * m], Power(r, s * 4 * u))];
             var c := Power(r, s * m);
             && b[at + u] == SmallDft(y, c, 0) && b[at + u + m] == SmallDft(y, c, 1)
             && b[at + u + 2 * m] == SmallDft(y, c, 2) && b[at + u + 3 * m] == SmallDft(y, c, 3)
             && b[at + u + 4 * m] == SmallDft(y, c, 4)
    requires forall i :: (0 <= i < |a| && i != at + u && i != at + u + m && i != at + u + 2 * m
                          && i != at + u + 3 * m && i != at + u + 4 * m) ==> a[i] == b[i]
    ensures ColumnsDone(b, before, at, m, 5, r, s, u + 1)
  {
    hide Mul;
    hide Power;
    hide SmallDft;
    hide ColumnsDone;
    hide Target;
    assert Index(at, m, 0, u) == at + u && Index(at, m, 1, u) == at + u + m;
    assert Index(at, m, 2, u) == at + u + 2 * m && Index(at, m, 3, u) == at + u + 3 * m;
    assert Index(at, m, 4, u) == at + u + 4 * m;
    var y := [a[at + u], Mul(a[at + u + m], Power(r, s * 1 * u)), Mul(a[at + u + 2 * m], Power(r, s * 2 * u)),
              Mul(a[at + u + 3 * m], Power(r, s * 3 * u)), Mul(a[at + u + 4 * m], Power(r, s * 4 * u))];
    ColumnStill(a, before, at, m, 5, r, s, u, 0);
    ColumnStill(a, before, at, m, 5, r, s, u, 1);
    ColumnStill(a, before, at, m, 5, r, s, u, 2);
    ColumnStill(a, before, at, m, 5, r, s, u, 3);
    ColumnStill(a, before, at, m, 5, r, s, u, 4);
    PowerSmall(r);
    MulOne(a[at + u]);
    TargetIsSmall(before, at, m, 5, r, s, u, 0, y);
    TargetIsSmall(before, at, m, 5, r, s, u, 1, y);
    TargetIsSmall(before, at, m, 5, r, s, u, 2, y);
    TargetIsSmall(before, at, m, 5, r, s, u, 3, y);
    TargetIsSmall(before, at, m, 5, r, s, u, 4, y);
    ColumnStep(a, b, before, at, m, 5, r, s, u);
  }

  /** kf_bfly5 */
  method Radix5Stage(fout: array<Cpx>, at: nat, fstride: nat, st: Config, m: nat, ghost r: Cpx)
    requires Ready(st, r) && fstride > 0 && m > 0 && fstride * 5 * m == st.nfft && at + 5 * m <= fout.Length
    modifies fout
    ensures ColumnsDone(fout[..], old(fout[..]), at, m, 5, r, fstride, m)
  {
    hide IsRoot;
    hide Ready;
    hide Mul;
    hide Power;
    hide SmallDft;
    hide ColumnsDone;
    hide FifthRoot;
    ghost var before := fout[..];
    StageTwiddle(st, r, fstride, 5, m, 1);
    StageTwiddle(st, r, fstride, 5, m, 2);
    ReadyRoot(st, r);
    FifthTwiddle(r, st.nfft, fstride * m, st.inverse);
    var ya, yb := st.twiddles[fstride * 1 * m], st.twiddles[fstride * 2 * m];
    StartColumns(before, at, m, 5, r, fstride);
    for u := 0 to m
      invariant ColumnsDone(fout[..], before, at, m, 5, r, fstride, u)
    {
      ghost var a := fout[..];
      Twiddle(st, r, fstride, 5, m, 1, u);
      Twiddle(st, r, fstride, 5, m, 2, u);
      Twiddle(st, r, fstride, 5, m, 3, u);
      Twiddle(st, r, fstride, 5, m, 4, u);
      Bfly5(fout, at + u, at + u + m, at + u + 2 * m, at + u + 3 * m, at + u + 4 * m, st.twiddles[fstride * 1 * u],
            st.twiddles[fstride * 2 * u], st.twiddles[fstride * 3 * u], st.twiddles[fstride * 4 * u], ya, yb);
      Column5(a, fout[..], before, at, m, r, fstride, u);
    }
  }

  // ---------------------------------------------------------------- any radix

  /** The sum kf_bfly_generic accumulates in place, with its running twiddle index. */
  method GenericPoint(fout: array<Cpx>, pos: nat, k: nat, scratch: array<Cpx>, p: nat, fstride: nat, st: Config,
                      ghost r: Cpx, ghost y: seq<Cpx>)
    requires Ready(st, r) && scratch != fout && scratch.Length == p > 0 && scratch[..] == y && pos < fout.Length
    requires 0 <= fstride * k < st.nfft
    modifies fout
    ensures fout[pos] == Recombined(q => At(y, q), p, r, fstride, k)
    ensures forall i :: 0 <= i < fout.Length && i != pos ==> fout[i] == old(fout[i])
  {
    hide Mul;
    hide Power;
    hide Sum;
    ghost var f := q => Mul(At(y, q), Power(r, fstride * q * k));
    var twidx := 0;
    fout[pos] := scratch[0];
    PowerSmall(r);
    MulOne(scratch[0]);
    SumFirst(f);
    for q := 1 to p
      invariant 0 <= twidx < st.nfft && Power(r, twidx) == Power(r, fstride * (q - 1) * k)
      invariant fout[pos] == Sum(f, q)
      invariant forall i :: 0 <= i < fout.Length && i != pos ==> fout[i] == old(fout[i])
      invariant scratch[..] == y
    {
      TwiddleAdvance(r, st.nfft, twidx, fstride, k, q);
      twidx := twidx + fstride * k;
      if twidx >= st.nfft {
        twidx := twidx - st.nfft;
      }
      var t := Mul(scratch[q], st.twiddles[twidx]);
      fout[pos] := Add(fout[pos], t);
      SumNext(f, q);
    }
    SumOfInputs(f, y, p, r, fstride, k);
  }

  lemma SumOfInputs(f: int -> Cpx, y: seq<Cpx>, p: nat, r: Cpx, s: int, k: int)
    requires forall q :: 0 <= q < p ==> f(q) == Mul(At(y, q), Power(r, s * q * k))
    ensures Sum(f, p) == Recombined(q => At(y, q), p, r, s, k)
  {
    hide Mul;
    hide Power;
    var z := q => At(y, q);
    SumEq(f, q => Mul(z(q), Power(r, s * q * k)), p);
  }

  lemma TwiddleAdvance(r: Cpx, n: nat, twidx: nat, s: nat, k: nat, q: nat)
    requires Power(r, n) == One && q > 0 && Power(r, twidx) == Power(r, s * (q - 1) * k)
    requires 0 <= s * k < n
    ensures Power(r, twidx + s * k) == Power(r, s * q * k)
    ensures twidx + s * k >= n ==> Power(r, twidx + s * k - n) == Power(r, s * q * k)
  {
    hide Power;
    hide Mul;
    NonNegative(s, q - 1, k, 1);
    assert s * q * k == s * (q - 1) * k + s * k;
    PowerAdd(r, twidx, s * k);
    PowerAdd(r, s * (q - 1) * k, s * k);
    if twidx + s * k >= n {
      PowerPeriod(r, n, twidx + s * k - n, 1);
    }
  }

  method Gather(fout: array<Cpx>, at: nat, m: nat, p: nat, u: nat, scratch: array<Cpx>)
    requires scratch != fout && scratch.Length == p && u < m && at + p * m <= fout.Length
    modifies scratch
    ensures forall q :: 0 <= q < p ==> At(scratch[..], q) == At(fout[..], Index(at, m, q, u))
  {
    var k := u;
    for q1 := 0 to p
      invariant k == q1 * m + u
      invariant forall q :: 0 <= q < q1 ==> scratch[q] == At(fout[..], Index(at, m, q, u))
    {
      IndexBounds(at, m, q1, u, p);
      scratch[q1] := fout[at + k];
      k := k + m;
    }
  }

  /** The first q1 points of column u are recombined from a, and only that column has changed. */
  ghost predicate PointsDone(now: seq<Cpx>, a: seq<Cpx>, at: int, m: int, p: int, r: Cpx, s: int, u: int, q1: int) {
    && |now| == |a|
    && (forall q :: 0 <= q < q1 ==> At(now, Index(at, m, q, u)) == Target(a, at, m, p, r, s, u, q))
    && (forall i :: 0 <= i < |a| && !OnColumn(i, at, m, p, u) ==> now[i] == a[i])
  }

  lemma PointStep(now: seq<Cpx>, next: seq<Cpx>, a: seq<Cpx>, at: nat, m: nat, p: nat, r: Cpx, s: int, u: nat, q1: nat,
                  y: seq<Cpx>)
    requires PointsDone(now, a, at, m, p, r, s, u, q1) && q1 < p && u < m && |next| == |now| && at + p * m <= |a|
    requires forall q :: 0 <= q < p ==> At(y, q) == At(a, Index(at, m, q, u))
    requires At(next, Index(at, m, q1, u)) == Recombined(q => At(y, q), p, r, s, u + q1 * m)
    requires forall i :: 0 <= i < |now| && i != Index(at, m, q1, u) ==> next[i] == now[i]
    ensures PointsDone(next, a, at, m, p, r, s, u, q1 + 1)
  {
    hide Index;
    hide OnColumn;
    hide Recombined;
    SameInputs(q => At(y, q), q => At(a, Index(at, m, q, u)), p, r, s, u + q1 * m);
    OtherPoints(now, next, at, m, p, q1, u);
  }

  /** kf_bfly_generic, one column. */
  method GenericColumn(fout: array<Cpx>, at: nat, fstride: nat, st: Config, m: nat, p: nat, u: nat,
                       scratch: array<Cpx>, ghost r: Cpx)
    requires Ready(st, r) && fstride > 0 && p > 0 && u < m && fstride * p * m == st.nfft && at + p * m <= fout.Length
    requires scratch != fout && scratch.Length == p
    modifies fout, scratch
    ensures PointsDone(fout[..], old(fout[..]), at, m, p, r, fstride, u, p)
  {
    hide Ready;
    hide Recombined;
    hide PointsDone;
    ghost var a := fout[..];
    Gather(fout, at, m, p, u, scratch);
    ghost var y := scratch[..];
    var k := u;
    assert PointsDone(fout[..], a, at, m, p, r, fstride, u, 0) by {
      NoPoints(a, at, m, p, r, fstride, u);
    }
    for q1 := 0 to p
      invariant k == u + q1 * m && scratch[..] == y
      invariant PointsDone(fout[..], a, at, m, p, r, fstride, u, q1)
    {
      IndexBounds(at, m, q1, u, p);
      PointBound(fstride, p, m, q1, u, st.nfft);
      ghost var now := fout[..];
      GenericPoint(fout, at + k, k, scratch, p, fstride, st, r, y);
      PointStep(now, fout[..], a, at, m, p, r, fstride, u, q1, y);
      k := k + m;
    }
  }

  lemma NoPoints(a: seq<Cpx>, at: int, m: int, p: int, r: Cpx, s: int, u: int)
    ensures PointsDone(a, a, at, m, p, r, s, u, 0)
  {
    hide Target;
    hide OnColumn;
  }

  lemma PointBound(s: nat, p: nat, m: nat, q: nat, u: nat, n: nat)
    requires q < p && u < m && s * p * m == n && s > 0
    ensures 0 <= s * (u + q * m) < n
  {
    Rows(m, q, p);
    StrictProduct(s, u + q * m, p * m);
    Rearranged(s, p, m);
  }

  lemma SameInputs(y: int -> Cpx, z: int -> Cpx, p: nat, r: Cpx, s: int, k: int)
    requires forall q :: 0 <= q < p ==> y(q) == z(q)
    ensures Recombined(y, p, r, s, k) == Recombined(z, p, r, s, k)
  {
    hide Mul;
    hide Power;
    SumEq(q => Mul(y(q), Power(r, s * q * k)), q => Mul(z(q), Power(r, s * q * k)), p);
  }

  /** Writing one point of a column leaves the other points of the column alone. */
  lemma OtherPoints(a: seq<Cpx>, b: seq<Cpx>, at: nat, m: nat, p: nat, q1: nat, u: nat)
    requires |a| == |b| && q1 < p && u < m
    requires forall i :: 0 <= i < |a| && i != Index(at, m, q1, u) ==> b[i] == a[i]
    ensures forall q :: 0 <= q < q1 ==> At(b, Index(at, m, q, u)) == At(a, Index(at, m, q, u))
    ensures OnColumn(Index(at, m, q1, u), at, m, p, u)
  {
    hide Index;
    forall q | 0 <= q < q1 ensures At(b, Index(at, m, q, u)) == At(a, Index(at, m, q, u)) {
      if Index(at, m, q, u) == Index(at, m, q1, u) {
        IndexDistinct(at, m, q, u, q1, u);
      }
    }
  }

  /** kf_bfly_generic */
  method GenericStage(fout: array<Cpx>, at: nat, fstride: nat, st: Config, m: nat, p: nat, ghost r: Cpx)
    requires Ready(st, r) && fstride > 0 && p > 0 && fstride * p * m == st.nfft && at + p * m <= fout.Length
    modifies fout
    ensures ColumnsDone(fout[..], old(fout[..]), at, m, p, r, fstride, m)
  {
    hide Ready;
    hide ColumnsDone;
    hide PointsDone;
    ghost var before := fout[..];
    var scratch := new Cpx[p](_ => Zero);
    StartColumns(before, at, m, p, r, fstride);
    for u := 0 to m
      invariant ColumnsDone(fout[..], before, at, m, p, r, fstride, u)
    {
      ghost var a := fout[..];
      GenericColumn(fout, at, fstride, st, m, p, u, scratch, r);
      PointsMakeColumn(a, fout[..], before, at, m, p, r, fstride, u);
    }
  }

  lemma PointsMakeColumn(a: seq<Cpx>, b: seq<Cpx>, before: seq<Cpx>, at: nat, m: nat, p: nat, r: Cpx, s: int, u: nat)
    requires ColumnsDone(a, before, at, m, p, r, s, u) && PointsDone(b, a, at, m, p, r, s, u, p)
    requires u < m && at + p * m <= |a|
    ensures ColumnsDone(b, before, at, m, p, r, s, u + 1)
  {
    hide Target;
    hide Index;
    hide OnColumn;
    ColumnInputs(a, before, at, m, p, r, s, u);
    ColumnStep(a, b, before, at, m, p, r, s, u);
  }

  /** A column not yet recombined still holds the stored values. */
  lemma ColumnInputs(a: seq<Cpx>, before: seq<Cpx>, at: nat, m: nat, p: nat, r: Cpx, s: int, u: nat)
    requires ColumnsDone(a, before, at, m, p, r, s, u) && u < m
    ensures forall q1 :: Target(a, at, m, p, r, s, u, q1) == Target(before, at, m, p, r, s, u, q1)
  {
    hide Index;
    hide Recombined;
    forall q1 ensures Target(a, at, m, p, r, s, u, q1) == Target(before, at, m, p, r, s, u, q1) {
      SameInputs(q => At(a, Index(at, m, q, u)), q => At(before, Index(at, m, q, u)), p, r, s, u + q1 * m);
    }
  }

  // ---------------------------------------------------------------- the choice of radix

  method Recombine(fout: array<Cpx>, at: nat, fstride: nat, st: Config, m: nat, p: nat, ghost r: Cpx)
    requires Ready(st, r) && fstride > 0 && p > 0 && m > 0 && fstride * p * m == st.nfft && at + p * m <= fout.Length
    modifies fout
    ensures ColumnsDone(fout[..], old(fout[..]), at, m, p, r, fstride, m)
  {
    hide Ready;
    hide ColumnsDone;
    match p
    case 2 => Radix2Stage(fout, at, fstride, st, m, r);
    case 3 => Radix3Stage(fout, at, fstride, st, m, r);
    case 4 => Radix4Stage(fout, at, fstride, st, m, r);
    case 5 => Radix5Stage(fout, at, fstride, st, m, r);
    case _ => GenericStage(fout, at, fstride, st, m, p, r);
  }
}
