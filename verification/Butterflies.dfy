/**
 The radix-2, 3, 4 and 5 butterflies of kiss_fft.c: each replaces p values, once multiplied by their
 twiddles, by their p-point transform, with the hand-derived arithmetic of the source.
 */
module Butterflies {
  import opened Complex
  import opened RootsOfUnity
  import opened FourierTransform

  /** Output q1 of the transform of a, with the root c. */
  function SmallDft(a: seq<Cpx>, c: Cpx, q1: int): Cpx {
    Sum(Terms(a, c, q1), |a|)
  }

  function Terms(a: seq<Cpx>, c: Cpx, q1: int): int -> Cpx {
    q => Mul(At(a, q), Power(c, q * q1))
  }

  // ---------------------------------------------------------------- short transforms written out

  lemma SumFirst(f: int -> Cpx)
    ensures Sum(f, 1) == f(0)
  {
    assert Sum(f, 1) == Add(Sum(f, 0), f(0));
  }

  lemma SumNext(f: int -> Cpx, n: nat)
    ensures Sum(f, n + 1) == Add(Sum(f, n), f(n))
  {
  }

  lemma First(a: seq<Cpx>, c: Cpx, q1: nat)
    requires |a| > 0
    ensures Sum(Terms(a, c, q1), 1) == a[0]
  {
    hide Mul;
    SumFirst(Terms(a, c, q1));
    MulOne(a[0]);
  }

  lemma Two(a: seq<Cpx>, c: Cpx, q1: nat)
    requires |a| >= 2
    ensures Sum(Terms(a, c, q1), 2) == Add(a[0], Mul(a[1], Power(c, q1)))
  {
    hide Mul;
    hide Add;
    hide Power;
    hide Sum;
    First(a, c, q1);
    SumNext(Terms(a, c, q1), 1);
  }

  lemma Three(a: seq<Cpx>, c: Cpx, q1: nat)
    requires |a| >= 3
    ensures Sum(Terms(a, c, q1), 3) == Add(Add(a[0], Mul(a[1], Power(c, q1))), Mul(a[2], Power(c, 2 * q1)))
  {
    hide Mul;
    hide Add;
    hide Power;
    hide Sum;
    Two(a, c, q1);
    SumNext(Terms(a, c, q1), 2);
  }

  lemma Four(a: seq<Cpx>, c: Cpx, q1: nat)
    requires |a| >= 4
    ensures Sum(Terms(a, c, q1), 4)
            == Add(Add(Add(a[0], Mul(a[1], Power(c, q1))), Mul(a[2], Power(c, 2 * q1))), Mul(a[3], Power(c, 3 * q1)))
  {
    hide Mul;
    hide Add;
    hide Power;
    hide Sum;
    Three(a, c, q1);
    SumNext(Terms(a, c, q1), 3);
  }

  lemma Five(a: seq<Cpx>, c: Cpx, q1: nat)
    requires |a| >= 5
    ensures Sum(Terms(a, c, q1), 5)
            == Add(Add(Add(Add(a[0], Mul(a[1], Power(c, q1))), Mul(a[2], Power(c, 2 * q1))),
                       Mul(a[3], Power(c, 3 * q1))),
                   Mul(a[4], Power(c, 4 * q1)))
  {
    hide Mul;
    hide Add;
    hide Power;
    hide Sum;
    Four(a, c, q1);
    SumNext(Terms(a, c, q1), 4);
  }

  lemma PowerSmall(c: Cpx)
    ensures Power(c, 0) == One && Power(c, 1) == c
  {
    MulOne(c);
  }

  // ---------------------------------------------------------------- radix 2

  lemma Radix2(x: Cpx, y: Cpx, c: Cpx)
    requires c == Cpx(-1.0, 0.0)
    ensures SmallDft([x, y], c, 0) == Add(x, y) && SmallDft([x, y], c, 1) == Sub(x, y)
  {
    hide Mul;
    hide Power;
    hide Sum;
    hide Terms;
    Two([x, y], c, 0);
    Two([x, y], c, 1);
    PowerSmall(c);
    MulOne(y);
    MinusOne(y, c);
  }

  lemma MinusOne(x: Cpx, c: Cpx)
    requires c == Cpx(-1.0, 0.0)
    ensures Mul(x, c) == Neg(x)
  {
  }

  method Bfly2(fout: array<Cpx>, i0: nat, i1: nat, tw1: Cpx)
    requires i0 < fout.Length && i1 < fout.Length && i0 != i1
    modifies fout
    ensures var a := [old(fout[i0]), Mul(old(fout[i1]), tw1)]; var c := Cpx(-1.0, 0.0);
            fout[i0] == SmallDft(a, c, 0) && fout[i1] == SmallDft(a, c, 1)
    ensures forall i :: 0 <= i < fout.Length && i != i0 && i != i1 ==> fout[i] == old(fout[i])
  {
    hide Mul;
    hide SmallDft;
    var t := Mul(fout[i1], tw1);
    Radix2(fout[i0], t, Cpx(-1.0, 0.0));
    fout[i1] := Sub(fout[i0], t);
    fout[i0] := Add(fout[i0], t);
  }

  // ---------------------------------------------------------------- radix 3

  /** x w + y conj(w), the shape every odd radix is built from. */
  lemma PairSum(x: Cpx, y: Cpx, w: Cpx)
    ensures Add(Mul(x, w), Mul(y, Conj(w)))
            == Cpx((x.re + y.re) * w.re - (x.im - y.im) * w.im, (x.im + y.im) * w.re + (x.re - y.re) * w.im)
  {
    Distribute(x.re, -y.re, w.re);
    Distribute(x.im, y.im, w.im);
    Distribute(x.im, -y.im, w.re);
    Distribute(x.re, y.re, w.im);
  }

  lemma Radix3(a: seq<Cpx>, c: Cpx)
    requires |a| == 3 && Power(c, 2) == Conj(c) && Power(c, 3) == One
    ensures SmallDft(a, c, 0) == Add(Add(a[0], a[1]), a[2])
    ensures SmallDft(a, c, 1) == Add(a[0], Add(Mul(a[1], c), Mul(a[2], Conj(c))))
    ensures SmallDft(a, c, 2) == Add(a[0], Add(Mul(a[2], c), Mul(a[1], Conj(c))))
  {
    hide Mul;
    hide Sum;
    hide Conj;
    hide Power;
    Three(a, c, 0); Three(a, c, 1); Three(a, c, 2);
    MulOne(a[1]); MulOne(a[2]); MulOne(c);
    PowerPeriod(c, 3, 1, 1);
    PowerSmall(c);
    AddAssoc(a[0], Mul(a[1], c), Mul(a[2], Conj(c)));
  }

  method Bfly3(fout: array<Cpx>, i0: nat, i1: nat, i2: nat, tw1: Cpx, tw2: Cpx, epi3: Cpx)
    requires i0 < fout.Length && i1 < fout.Length && i2 < fout.Length && i0 != i1 && i0 != i2 && i1 != i2
    requires epi3.re == -0.5 && Power(epi3, 2) == Conj(epi3) && Power(epi3, 3) == One
    modifies fout
    ensures var a := [old(fout[i0]), Mul(old(fout[i1]), tw1), Mul(old(fout[i2]), tw2)];
            && fout[i0] == SmallDft(a, epi3, 0) && fout[i1] == SmallDft(a, epi3, 1) && fout[i2] == SmallDft(a, epi3, 2)
    ensures forall i :: 0 <= i < fout.Length && i != i0 && i != i1 && i != i2 ==> fout[i] == old(fout[i])
  {
    hide Mul;
    hide SmallDft;
    hide Power;
    ghost var a := [fout[i0], Mul(fout[i1], tw1), Mul(fout[i2], tw2)];
    var s1, s2 := Mul(fout[i1], tw1), Mul(fout[i2], tw2);
    var s3, s0 := Add(s1, s2), Sub(s1, s2);
    fout[i1] := Cpx(fout[i0].re - s3.re * 0.5, fout[i0].im - s3.im * 0.5);
    s0 := Cpx(s0.re * epi3.im, s0.im * epi3.im);
    fout[i0] := Add(fout[i0], s3);
    fout[i2] := Cpx(fout[i1].re + s0.im, fout[i1].im - s0.re);
    fout[i1] := Cpx(fout[i1].re - s0.im, fout[i1].im + s0.re);
    Radix3(a, epi3);
    PairSum(s1, s2, epi3);
    PairSum(s2, s1, epi3);
    Distribute(s1.re, s2.re, epi3.im); Distribute(s1.im, s2.im, epi3.im);
    Distribute(s2.re, s1.re, epi3.im); Distribute(s2.im, s1.im, epi3.im);
  }

  // ---------------------------------------------------------------- radix 4

  lemma QuarterPowers(c: Cpx)
    requires c == Cpx(0.0, 1.0) || c == Cpx(0.0, -1.0)
    ensures Power(c, 1) == c && Power(c, 2) == Cpx(-1.0, 0.0) && Power(c, 3) == Neg(c) && Power(c, 4) == One
    ensures Power(c, 6) == Cpx(-1.0, 0.0) && Power(c, 9) == c
  {
    hide Mul;
    MulOne(c);
    MulByQuarter(c, c);
    MulByQuarter(Power(c, 2), c);
    MulByQuarter(Power(c, 3), c);
    assert Power(c, 1) == c && Power(c, 2) == Mul(c, c);
    assert Power(c, 3) == Mul(Power(c, 2), c);
    assert Power(c, 4) == Mul(Power(c, 3), c);
    PowerPeriod(c, 4, 2, 1);
    PowerPeriod(c, 4, 1, 2);
  }

  lemma MulByQuarter(x: Cpx, c: Cpx)
    requires c == Cpx(0.0, 1.0) || c == Cpx(0.0, -1.0)
    ensures Mul(x, c) == if c.im == 1.0 then Cpx(-x.im, x.re) else Cpx(x.im, -x.re)
  {
  }

  lemma Negations(x: Cpx, c: Cpx)
    ensures Mul(x, Cpx(-1.0, 0.0)) == Neg(x) && Mul(x, Neg(c)) == Neg(Mul(x, c))
  {
  }

  lemma Radix4(a: seq<Cpx>, c: Cpx)
    requires |a| == 4 && (c == Cpx(0.0, 1.0) || c == Cpx(0.0, -1.0))
    ensures SmallDft(a, c, 0) == Add(Add(Add(a[0], a[1]), a[2]), a[3])
    ensures SmallDft(a, c, 1) == Add(Add(Add(a[0], Mul(a[1], c)), Neg(a[2])), Neg(Mul(a[3], c)))
    ensures SmallDft(a, c, 2) == Add(Add(Add(a[0], Neg(a[1])), a[2]), Neg(a[3]))
    ensures SmallDft(a, c, 3) == Add(Add(Add(a[0], Neg(Mul(a[1], c))), Neg(a[2])), Mul(a[3], c))
  {
    hide Mul;
    hide Add;
    hide Neg;
    hide Sum;
    hide Power;
    Four(a, c, 0); Four(a, c, 1); Four(a, c, 2); Four(a, c, 3);
    QuarterPowers(c);
    PowerSmall(c);
    MulOne(a[1]); MulOne(a[2]); MulOne(a[3]);
    Negations(a[1], c); Negations(a[2], c); Negations(a[3], c);
  }

  method Bfly4(fout: array<Cpx>, i0: nat, i1: nat, i2: nat, i3: nat, tw1: Cpx, tw2: Cpx, tw3: Cpx, inverse: bool)
    requires i0 < fout.Length && i1 < fout.Length && i2 < fout.Length && i3 < fout.Length
    requires i0 != i1 && i0 != i2 && i0 != i3 && i1 != i2 && i1 != i3 && i2 != i3
    modifies fout
    ensures var a := [old(fout[i0]), Mul(old(fout[i1]), tw1), Mul(old(fout[i2]), tw2), Mul(old(fout[i3]), tw3)];
            var c := Cpx(0.0, if inverse then 1.0 else -1.0);
            && fout[i0] == SmallDft(a, c, 0) && fout[i1] == SmallDft(a, c, 1)
            && fout[i2] == SmallDft(a, c, 2) && fout[i3] == SmallDft(a, c, 3)
    ensures forall i :: 0 <= i < fout.Length && i != i0 && i != i1 && i != i2 && i != i3 ==> fout[i] == old(fout[i])
  {
    hide Mul;
    hide SmallDft;
    ghost var a := [fout[i0], Mul(fout[i1], tw1), Mul(fout[i2], tw2), Mul(fout[i3], tw3)];
    var s0, s1, s2 := Mul(fout[i1], tw1), Mul(fout[i2], tw2), Mul(fout[i3], tw3);
    var s5 := Sub(fout[i0], s1);
    fout[i0] := Add(fout[i0], s1);
    var s3, s4 := Add(s0, s2), Sub(s0, s2);
    fout[i2] := Sub(fout[i0], s3);
    fout[i0] := Add(fout[i0], s3);
    if inverse {
      fout[i1] := Cpx(s5.re - s4.im, s5.im + s4.re);
      fout[i3] := Cpx(s5.re + s4.im, s5.im - s4.re);
    } else {
      fout[i1] := Cpx(s5.re + s4.im, s5.im - s4.re);
      fout[i3] := Cpx(s5.re - s4.im, s5.im + s4.re);
    }
    ghost var c := Cpx(0.0, if inverse then 1.0 else -1.0);
    Radix4(a, c);
    MulByQuarter(s0, c);
    MulByQuarter(s2, c);
  }

  // ---------------------------------------------------------------- radix 5

  predicate FifthRoot(ya: Cpx, yb: Cpx) {
    && Power(ya, 2) == yb && Power(ya, 3) == Conj(yb) && Power(ya, 4) == Conj(ya) && Power(ya, 5) == One
  }

  lemma FifthPowers(ya: Cpx, yb: Cpx)
    requires FifthRoot(ya, yb)
    ensures Power(ya, 0) == One && Power(ya, 1) == ya
    ensures Power(ya, 6) == ya && Power(ya, 8) == Conj(yb) && Power(ya, 9) == Conj(ya)
    ensures Power(ya, 12) == yb && Power(ya, 16) == ya
  {
    hide Mul;
    hide Conj;
    MulOne(ya);
    assert Power(ya, 1) == ya;
    PowerPeriod(ya, 5, 1, 1);
    PowerPeriod(ya, 5, 3, 1);
    PowerPeriod(ya, 5, 4, 1);
    PowerPeriod(ya, 5, 2, 2);
    PowerPeriod(ya, 5, 1, 3);
  }

  /** a0 + (x1 w1 + y1 conj(w1)) + (x2 w2 + y2 conj(w2)) */
  function Paired(a0: Cpx, x1: Cpx, y1: Cpx, w1: Cpx, x2: Cpx, y2: Cpx, w2: Cpx): Cpx {
    Add(a0, Add(Add(Mul(x1, w1), Mul(y1, Conj(w1))), Add(Mul(x2, w2), Mul(y2, Conj(w2)))))
  }

  lemma Regroup(a: Cpx, b: Cpx, c: Cpx, d: Cpx, e: Cpx)
    ensures Add(Add(Add(Add(a, b), c), d), e) == Add(a, Add(Add(b, e), Add(c, d)))
    ensures Add(Add(Add(Add(a, b), c), d), e) == Add(a, Add(Add(e, b), Add(d, c)))
    ensures Add(Add(Add(Add(a, b), c), d), e) == Add(a, Add(Add(b, e), Add(d, c)))
    ensures Add(Add(Add(Add(a, b), c), d), e) == Add(a, Add(Add(e, b), Add(c, d)))
  {
  }

  lemma Radix5(a: seq<Cpx>, ya: Cpx, yb: Cpx)
    requires |a| == 5 && FifthRoot(ya, yb)
    ensures SmallDft(a, ya, 0) == Add(Add(Add(Add(a[0], a[1]), a[2]), a[3]), a[4])
    ensures SmallDft(a, ya, 1) == Paired(a[0], a[1], a[4], ya, a[2], a[3], yb)
    ensures SmallDft(a, ya, 2) == Paired(a[0], a[1], a[4], yb, a[3], a[2], ya)
    ensures SmallDft(a, ya, 3) == Paired(a[0], a[4], a[1], yb, a[2], a[3], ya)
    ensures SmallDft(a, ya, 4) == Paired(a[0], a[4], a[1], ya, a[3], a[2], yb)
  {
    hide Mul;
    hide Add;
    hide Conj;
    hide Sum;
    hide Power;
    FifthPowers(ya, yb);
    Five(a, ya, 0); Five(a, ya, 1); Five(a, ya, 2); Five(a, ya, 3); Five(a, ya, 4);
    MulOne(a[1]); MulOne(a[2]); MulOne(a[3]); MulOne(a[4]);
    Regroup(a[0], Mul(a[1], ya), Mul(a[2], yb), Mul(a[3], Conj(yb)), Mul(a[4], Conj(ya)));
    Regroup(a[0], Mul(a[1], yb), Mul(a[2], Conj(ya)), Mul(a[3], ya), Mul(a[4], Conj(yb)));
    Regroup(a[0], Mul(a[1], Conj(yb)), Mul(a[2], ya), Mul(a[3], Conj(ya)), Mul(a[4], yb));
    Regroup(a[0], Mul(a[1], Conj(ya)), Mul(a[2], Conj(yb)), Mul(a[3], yb), Mul(a[4], ya));
  }

  lemma PairedValue(a0: Cpx, x1: Cpx, y1: Cpx, w1: Cpx, x2: Cpx, y2: Cpx, w2: Cpx)
    ensures var s1, d1, s2, d2 := Add(x1, y1), Sub(x1, y1), Add(x2, y2), Sub(x2, y2);
            Paired(a0, x1, y1, w1, x2, y2, w2)
            == Cpx(a0.re + Times(s1.re, w1.re) + Times(s2.re, w2.re) - (Times(d1.im, w1.im) + Times(d2.im, w2.im)),
                   a0.im + Times(s1.im, w1.re) + Times(s2.im, w2.re) + (Times(d1.re, w1.im) + Times(d2.re, w2.im)))
  {
    hide Mul;
    PairSum(x1, y1, w1);
    PairSum(x2, y2, w2);
  }

  lemma NegatedDifference(x: real, y: real, w: real)
    ensures Times(x - y, w) == -Times(y - x, w)
  {
    Distribute(x, y, w);
    Distribute(y, x, w);
  }

  lemma NegatedDifferences(x: Cpx, y: Cpx, w: real)
    ensures Times(x.re - y.re, w) == -Times(y.re - x.re, w) && Times(x.im - y.im, w) == -Times(y.im - x.im, w)
  {
    hide Times;
    NegatedDifference(x.re, y.re, w);
    NegatedDifference(x.im, y.im, w);
  }

  method Bfly5(fout: array<Cpx>, i0: nat, i1: nat, i2: nat, i3: nat, i4: nat,
               tw1: Cpx, tw2: Cpx, tw3: Cpx, tw4: Cpx, ya: Cpx, yb: Cpx)
    requires i0 < fout.Length && i1 < fout.Length && i2 < fout.Length && i3 < fout.Length && i4 < fout.Length
    requires i0 != i1 && i0 != i2 && i0 != i3 && i0 != i4 && i1 != i2 && i1 != i3 && i1 != i4
    requires i2 != i3 && i2 != i4 && i3 != i4 && FifthRoot(ya, yb)
    modifies fout
    ensures var a := [old(fout[i0]), Mul(old(fout[i1]), tw1), Mul(old(fout[i2]), tw2), Mul(old(fout[i3]), tw3),
                      Mul(old(fout[i4]), tw4)];
            && fout[i0] == SmallDft(a, ya, 0) && fout[i1] == SmallDft(a, ya, 1) && fout[i2] == SmallDft(a, ya, 2)
            && fout[i3] == SmallDft(a, ya, 3) && fout[i4] == SmallDft(a, ya, 4)
    ensures forall i :: 0 <= i < fout.Length && i != i0 && i != i1 && i != i2 && i != i3 && i != i4 ==>
                          fout[i] == old(fout[i])
  {
    hide Mul;
    hide Times;
    hide SmallDft;
    hide FifthRoot;
    hide Paired;
    var s0 := fout[i0];
    var s1, s2, s3, s4 := Mul(fout[i1], tw1), Mul(fout[i2], tw2), Mul(fout[i3], tw3), Mul(fout[i4], tw4);
    ghost var a := [s0, s1, s2, s3, s4];
    var s7, s10, s8, s9 := Add(s1, s4), Sub(s1, s4), Add(s2, s3), Sub(s2, s3);
    fout[i0] := Cpx(fout[i0].re + (s7.re + s8.re), fout[i0].im + (s7.im + s8.im));
    var s5 := Cpx(s0.re + Times(s7.re, ya.re) + Times(s8.re, yb.re),
                  s0.im + Times(s7.im, ya.re) + Times(s8.im, yb.re));
    var s6 := Cpx(Times(s10.im, ya.im) + Times(s9.im, yb.im), -Times(s10.re, ya.im) - Times(s9.re, yb.im));
    fout[i1] := Sub(s5, s6);
    fout[i4] := Add(s5, s6);
    var s11 := Cpx(s0.re + Times(s7.re, yb.re) + Times(s8.re, ya.re),
                   s0.im + Times(s7.im, yb.re) + Times(s8.im, ya.re));
    var s12 := Cpx(-Times(s10.im, yb.im) + Times(s9.im, ya.im), Times(s10.re, yb.im) - Times(s9.re, ya.im));
    fout[i2] := Add(s11, s12);
    fout[i3] := Sub(s11, s12);
    Radix5(a, ya, yb);
    PairedValue(s0, s1, s4, ya, s2, s3, yb);
    PairedValue(s0, s1, s4, yb, s3, s2, ya);
    PairedValue(s0, s4, s1, yb, s2, s3, ya);
    PairedValue(s0, s4, s1, ya, s3, s2, yb);
    NegatedDifferences(s1, s4, ya.im); NegatedDifferences(s1, s4, yb.im);
    NegatedDifferences(s2, s3, ya.im); NegatedDifferences(s2, s3, yb.im);
  }
}
