/**
 The algebra behind golay23.c: division by the generator polynomial of the binary (23,12) Golay
 code and the minimum distance of the code.  The bits of a number are the coefficients of a
 polynomial over GF(2), so that Xor is addition and doubling is multiplication by x.
 */
module GolayAlgebra {
  import opened Bits

  const X22 := 0x400000
  const X11 := 0x800
  const MASK12 := 0xfffff800
  const GENPOL := 0xc75

  /** The polynomial product q(x) g(x). */
  function Times(q: nat): nat {
    if q == 0 then 0 else Xor(if q % 2 == 1 then GENPOL else 0, 2 * Times(q / 2))
  }

  function Reduce(x: nat): nat {
    if x >= X11 then Xor(x, GENPOL) else x
  }

  /** The remainder of p(x) on division by g(x), by Horner's rule. */
  function Rem(p: nat): nat {
    if p == 0 then 0 else Reduce(2 * Rem(p / 2) + p % 2)
  }

  function Quo(p: nat): nat {
    if p == 0 then 0 else 2 * Quo(p / 2) + if 2 * Rem(p / 2) + p % 2 >= X11 then 1 else 0
  }

  ghost predicate IsCodeword(c: nat) {
    exists q: nat :: q < 0x1000 && c == Times(q)
  }

  /** The number of ones in x. */
  function Weight(x: nat): nat {
    if x == 0 then 0 else x % 2 + Weight(x / 2)
  }

  // ---------------------------------------------------------------- division

  lemma ReduceBound(x: nat)
    requires x < 0x1000
    ensures Reduce(x) < X11
  {
    if x >= X11 {
      assert Pow2(11) == 0x800 && Pow2(12) == 0x1000;
      XorClearsTop(x, GENPOL, 11);
    }
  }

  lemma {:induction false} RemBound(p: nat)
    ensures Rem(p) < X11
  {
    if p > 0 {
      RemBound(p / 2);
      ReduceBound(2 * Rem(p / 2) + p % 2);
    }
  }

  lemma XorDouble(t: nat, r: nat, b: nat)
    requires b < 2
    ensures Xor(2 * t, 2 * r + b) == 2 * Xor(t, r) + b
  {
    XorUnfold(2 * t, 2 * r + b);
  }

  lemma TimesUnfold(q: nat, b: nat)
    requires b < 2
    ensures Times(2 * q + b) == if b == 1 then Xor(GENPOL, 2 * Times(q)) else 2 * Times(q)
  {
    XorZero(2 * Times(q));
  }

  lemma DivisionStep(t: nat, x: nat)
    ensures Xor(Xor(GENPOL, t), Xor(x, GENPOL)) == Xor(t, x)
  {
    XorComm(GENPOL, t);
    XorComm(x, GENPOL);
    XorAssoc(t, GENPOL, Xor(GENPOL, x));
    XorCancel(x, GENPOL);
  }

  /** Division with remainder: p = q g + r. */
  lemma {:induction false} Division(p: nat)
    ensures p == Xor(Times(Quo(p)), Rem(p))
  {
    hide Xor;
    hide Times;
    hide Reduce;
    hide Quo;
    hide Rem;
    if p == 0 {
      RemSmall(p);
      TimesZero(Quo(p));
      XorZero(p);
    } else {
      var h := p / 2;
      Division(h);
      var q, x := Quo(h), 2 * Rem(h) + p % 2;
      DivisionHalves(p, h, Times(q), Rem(h));
      RemUnfold(p);
      QuoUnfold(p);
      DivisionDigit(q, x);
    }
  }

  lemma QuoUnfold(p: nat)
    requires p > 0
    ensures Quo(p) == 2 * Quo(p / 2) + if 2 * Rem(p / 2) + p % 2 >= X11 then 1 else 0
  {
    hide Xor;
  }

  lemma DivisionHalves(p: nat, h: nat, t: nat, r: nat)
    requires h == p / 2 && h == Xor(t, r)
    ensures p == Xor(2 * t, 2 * r + p % 2)
  {
    XorDouble(t, r, p % 2);
  }

  lemma DivisionDigit(q: nat, x: nat)
    ensures Xor(2 * Times(q), x) == Xor(Times(2 * q + if x >= X11 then 1 else 0), Reduce(x))
  {
    hide Xor;
    hide Times;
    if x >= X11 {
      TimesUnfold(q, 1);
      DivisionStep(2 * Times(q), x);
    } else {
      TimesUnfold(q, 0);
    }
  }

  lemma {:induction false} QuoBound(p: nat, n: nat)
    requires p < Pow2(n) * X11
    ensures Quo(p) < Pow2(n)
  {
    if n == 0 {
      RemSmall(p);
    } else if p > 0 {
      QuoBound(p / 2, n - 1);
    }
  }

  lemma {:induction false} RemSmall(p: nat)
    requires p < X11
    ensures Rem(p) == p && Quo(p) == 0
  {
    if p > 0 { RemSmall(p / 2); }
  }

  lemma ReduceXor(x: nat, y: nat)
    requires x < 0x1000 && y < 0x1000
    ensures Reduce(Xor(x, y)) == Xor(Reduce(x), Reduce(y))
  {
    assert Pow2(11) == 0x800 && Pow2(12) == 0x1000;
    XorBound(x, y, 12);
    TopBitSet(x, 11);
    TopBitSet(y, 11);
    TopBitSet(Xor(x, y), 11);
    XorBit(x, y, 11);
    if x >= X11 && y >= X11 {
      XorAssoc(x, GENPOL, Xor(y, GENPOL));
      XorComm(y, GENPOL);
      XorCancel(y, GENPOL);
    } else if x >= X11 {
      XorAssoc(x, y, GENPOL);
      XorComm(y, GENPOL);
      XorAssoc(x, GENPOL, y);
    } else if y >= X11 {
      XorAssoc(x, y, GENPOL);
    }
  }

  lemma RemUnfold(p: nat)
    ensures Rem(p) == Reduce(2 * Rem(p / 2) + p % 2)
  {
  }

  /** Division is linear. */
  lemma {:induction false} RemXor(a: nat, b: nat)
    ensures Rem(Xor(a, b)) == Xor(Rem(a), Rem(b))
    decreases a + b
  {
    hide Xor;
    hide Reduce;
    if a + b == 0 {
      XorZero(a);
      XorZero(Rem(a));
    } else {
      RemXor(a / 2, b / 2);
      XorUnfold(a, b);
      RemUnfold(a);
      RemUnfold(b);
      RemUnfold(Xor(a, b));
      RemBound(a / 2);
      RemBound(b / 2);
      var x, y := 2 * Rem(a / 2) + a % 2, 2 * Rem(b / 2) + b % 2;
      XorUnfold(x, y);
      ReduceXor(x, y);
    }
  }

  lemma RemMultiples(g: nat, c: nat)
    requires Rem(g) == Rem(c) == 0
    ensures Rem(2 * c) == 0 && Rem(Xor(g, 2 * c)) == 0
  {
    RemUnfold(2 * c);
    RemXor(g, 2 * c);
    XorZero(0);
  }

  /** Multiples of the generator leave no remainder ... */
  lemma {:induction false} RemTimes(q: nat)
    ensures Rem(Times(q)) == 0
  {
    hide Xor;
    if q > 0 {
      var h := q / 2;
      RemTimes(h);
      var g := GENPOL;
      RemGenerator(g);
      RemMultiples(g, Times(h));
      TimesUnfold(h, q % 2);
    }
  }

  lemma RemDegree11(x: nat)
    requires X11 <= x < 0x1000
    ensures Rem(x) == Reduce(x)
  {
    hide Xor;
    hide Reduce;
    RemSmall(x / 2);
    RemUnfold(x);
  }

  lemma RemGenerator(g: nat)
    requires g == GENPOL
    ensures Rem(g) == 0
  {
    RemDegree11(g);
    assert Reduce(g) == Xor(g, g);
    XorSelf(g);
  }

  /** ... and only they do. */
  lemma CodewordIffNoRemainder(c: nat)
    requires c < 0x800000
    ensures IsCodeword(c) <==> Rem(c) == 0
  {
    if Rem(c) == 0 {
      Division(c);
      XorZero(Times(Quo(c)));
      assert Pow2(12) == 0x1000;
      QuoBound(c, 12);
    } else if IsCodeword(c) {
      var q: nat :| q < 0x1000 && c == Times(q);
      RemTimes(q);
    }
  }

  lemma {:induction false} TimesPow2(j: nat)
    ensures Times(Pow2(j)) == Pow2(j) * GENPOL
  {
    if j == 0 {
      XorZero(GENPOL);
    } else {
      TimesPow2(j - 1);
      XorZero(2 * Times(Pow2(j - 1)));
    }
  }

  // ---------------------------------------------------------------- weight

  lemma {:induction false} WeightTriangle(a: nat, b: nat)
    ensures Weight(Xor(a, b)) <= Weight(a) + Weight(b)
    decreases a + b
  {
    if a + b > 0 {
      WeightTriangle(a / 2, b / 2);
      XorUnfold(a, b);
      WeightUnfold(Xor(a, b));
    }
  }

  lemma WeightUnfold(x: nat)
    ensures Weight(x) == x % 2 + Weight(x / 2)
  {
  }

  lemma {:induction false} WeightAddBit(x: nat, k: nat)
    requires x < Pow2(k)
    ensures Weight(x + Pow2(k)) == Weight(x) + 1
  {
    WeightUnfold(x);
    WeightUnfold(x + Pow2(k));
    if k > 0 { WeightAddBit(x / 2, k - 1); }
  }

  /** Coefficient k - t of q(x), zero when there is none. */
  predicate Coefficient(q: nat, k: nat, t: nat) {
    t <= k && Bit(q, k - t)
  }

  /** Bit k of q(x) g(x): g(x) = 1 + x^2 + x^4 + x^5 + x^6 + x^10 + x^11. */
  predicate ProductBit(q: nat, k: nat) {
    ((((((Coefficient(q, k, 0) != Coefficient(q, k, 2)) != Coefficient(q, k, 4)) != Coefficient(q, k, 5))
       != Coefficient(q, k, 6)) != Coefficient(q, k, 10)) != Coefficient(q, k, 11))
  }

  lemma GeneratorBit(k: nat)
    ensures Bit(GENPOL, k) == (k in {0, 2, 4, 5, 6, 10, 11})
  {
    if k >= 12 {
      assert Pow2(12) == 0x1000;
      HighBits(GENPOL, 12, k);
    } else {
      assert Bit(0xc75, 0) && !Bit(0xc75, 1) && Bit(0xc75, 2) && !Bit(0xc75, 3);
      assert Bit(0xc75, 4) && Bit(0xc75, 5) && Bit(0xc75, 6) && !Bit(0xc75, 7);
      assert !Bit(0xc75, 8) && !Bit(0xc75, 9) && Bit(0xc75, 10) && Bit(0xc75, 11);
    }
  }

  lemma {:induction false} TimesBit(q: nat, k: nat)
    ensures Bit(Times(q), k) == ProductBit(q, k)
    decreases q, k
  {
    hide Xor;
    hide ProductBit;
    if q == 0 {
      NoProduct(q, k);
    } else {
      var low, t := if q % 2 == 1 then GENPOL else 0, Times(q / 2);
      assert Times(q) == Xor(low, 2 * t);
      XorBit(low, 2 * t, k);
      GeneratorBit(k);
      BitOfZero(k);
      if k > 0 {
        TimesBit(q / 2, k - 1);
        assert Bit(2 * t, k) == Bit(t, k - 1);
        ShiftedProduct(q, k);
      } else {
        LowestProduct(q, k);
      }
    }
  }

  lemma NoProduct(q: nat, k: nat)
    requires q == 0
    ensures !Bit(Times(q), k) && !ProductBit(q, k)
  {
    forall j: nat ensures !Bit(0, j) { BitOfZero(j); }
  }

  lemma LowestProduct(q: nat, k: nat)
    requires k == 0
    ensures ProductBit(q, k) == (q % 2 == 1)
  {
  }

  lemma ShiftedProduct(q: nat, k: nat)
    requires k > 0
    ensures ProductBit(q, k) == (ProductBit(q / 2, k - 1) != (q % 2 == 1 && k in {2, 4, 5, 6, 10, 11}))
  {
    CoefficientShift(q, k, 0);
    CoefficientShift(q, k, 2);
    CoefficientShift(q, k, 4);
    CoefficientShift(q, k, 5);
    CoefficientShift(q, k, 6);
    CoefficientShift(q, k, 10);
    CoefficientShift(q, k, 11);
  }

  lemma CoefficientShift(q: nat, k: nat, t: nat)
    requires k > 0
    ensures Coefficient(q, k, t) == if t == k then q % 2 == 1 else Coefficient(q / 2, k - 1, t)
  {
  }

  // ---------------------------------------------------------------- minimum distance

  function One(b: bool): nat {
    if b then 1 else 0
  }

  /** The coefficients c of q(x) g(x), written out. */
  predicate IsProduct(q: seq<bool>, c: seq<bool>) {
    && |q| == 12 && |c| == 23
    && IsProductLow(q, c) && IsProductMiddle(q, c) && IsProductUpper(q, c) && IsProductHigh(q, c)
  }

  predicate IsProductLow(q: seq<bool>, c: seq<bool>)
    requires |q| == 12 && |c| == 23
  {
    && c[0] == q[0]
    && c[1] == q[1]
    && c[2] == (q[2] != q[0])
    && c[3] == (q[3] != q[1])
    && c[4] == ((q[4] != q[2]) != q[0])
    && c[5] == (((q[5] != q[3]) != q[1]) != q[0])
    && c[6] == ((((q[6] != q[4]) != q[2]) != q[1]) != q[0])
    && c[7] == ((((q[7] != q[5]) != q[3]) != q[2]) != q[1])
  }

  predicate IsProductMiddle(q: seq<bool>, c: seq<bool>)
    requires |q| == 12 && |c| == 23
  {
    && c[8] == ((((q[8] != q[6]) != q[4]) != q[3]) != q[2])
    && c[9] == ((((q[9] != q[7]) != q[5]) != q[4]) != q[3])
    && c[10] == (((((q[10] != q[8]) != q[6]) != q[5]) != q[4]) != q[0])
    && c[11] == ((((((q[11] != q[9]) != q[7]) != q[6]) != q[5]) != q[1]) != q[0])
  }

  predicate IsProductUpper(q: seq<bool>, c: seq<bool>)
    requires |q| == 12 && |c| == 23
  {
    && c[12] == (((((q[10] != q[8]) != q[7]) != q[6]) != q[2]) != q[1])
    && c[13] == (((((q[11] != q[9]) != q[8]) != q[7]) != q[3]) != q[2])
    && c[14] == ((((q[10] != q[9]) != q[8]) != q[4]) != q[3])
    && c[15] == ((((q[11] != q[10]) != q[9]) != q[5]) != q[4])
  }

  predicate IsProductHigh(q: seq<bool>, c: seq<bool>)
    requires |q| == 12 && |c| == 23
  {
    && c[16] == (((q[11] != q[10]) != q[6]) != q[5])
    && c[17] == ((q[11] != q[7]) != q[6])
    && c[18] == (q[8] != q[7])
    && c[19] == (q[9] != q[8])
    && c[20] == (q[10] != q[9])
    && c[21] == (q[11] != q[10])
    && c[22] == q[11]
  }

  /** The 4095 non-zero products of g(x) with a polynomial of twelve coefficients. */
  lemma ProductWeight(q: seq<bool>, c: seq<bool>)
    requires IsProduct(q, c)
    requires q[0] || q[1] || q[2] || q[3] || q[4] || q[5] || q[6] || q[7] || q[8] || q[9] || q[10] || q[11]
    ensures One(c[0]) + One(c[1]) + One(c[2]) + One(c[3]) + One(c[4]) + One(c[5]) + One(c[6]) + One(c[7])
            + One(c[8]) + One(c[9]) + One(c[10]) + One(c[11]) + One(c[12]) + One(c[13]) + One(c[14]) + One(c[15])
            + One(c[16]) + One(c[17]) + One(c[18]) + One(c[19]) + One(c[20]) + One(c[21]) + One(c[22]) >= 7
  {
  }

  /** The number of ones among the first n bits of a bit vector. */
  function Ones(bits: seq<bool>, n: nat): nat
    requires n <= |bits|
  {
    if n == 0 then 0 else Ones(bits, n - 1) + One(bits[n - 1])
  }

  function BitsOf(x: nat, n: nat): (bits: seq<bool>)
    ensures |bits| == n
    ensures forall k :: 0 <= k < n ==> bits[k] == Bit(x, k)
  {
    seq(n, k requires 0 <= k => Bit(x, k))
  }

  lemma {:induction false} OnesHalf(x: nat, bits: seq<bool>, n: nat)
    requires 0 < n <= |bits| && bits == BitsOf(x, |bits|)
    ensures Ones(bits, n) == x % 2 + Ones(BitsOf(x / 2, |bits| - 1), n - 1)
  {
    if n > 1 { OnesHalf(x, bits, n - 1); }
  }

  lemma {:induction false} WeightIsOnes(x: nat, n: nat)
    requires x < Pow2(n)
    ensures Weight(x) == Ones(BitsOf(x, n), n)
  {
    if n > 0 {
      WeightIsOnes(x / 2, n - 1);
      OnesHalf(x, BitsOf(x, n), n);
      WeightUnfold(x);
    }
  }

  lemma {:induction false} TimesBound(q: nat, n: nat)
    requires q < Pow2(n)
    ensures Times(q) < Pow2(n + 11)
  {
    hide Xor;
    hide Times;
    if q > 0 {
      TimesBound(q / 2, n - 1);
      TimesUnfold(q / 2, q % 2);
      GeneratorBelow(n + 11);
      XorBound(GENPOL, 2 * Times(q / 2), n + 11);
    } else {
      TimesZero(q);
    }
  }

  lemma GeneratorBelow(n: nat)
    requires n >= 12
    ensures GENPOL < Pow2(n)
  {
    assert Pow2(12) == 0x1000;
    Pow2Mono(12, n);
  }

  predicate At(q: seq<bool>, k: int) {
    0 <= k < |q| && q[k]
  }

  /** Bit k of the product with g(x) of the polynomial with coefficients q. */
  predicate ProductAt(q: seq<bool>, k: int) {
    ((((((At(q, k) != At(q, k - 2)) != At(q, k - 4)) != At(q, k - 5))
       != At(q, k - 6)) != At(q, k - 10)) != At(q, k - 11))
  }

  lemma OnesStep(c: seq<bool>, n: nat)
    requires n < |c|
    ensures Ones(c, n + 1) == Ones(c, n) + One(c[n])
  {
  }

  lemma Ones23(c: seq<bool>)
    requires |c| == 23
    ensures Ones(c, 23) ==
              One(c[0]) + One(c[1]) + One(c[2]) + One(c[3]) + One(c[4]) + One(c[5])
              + One(c[6]) + One(c[7]) + One(c[8]) + One(c[9]) + One(c[10]) + One(c[11])
              + One(c[12]) + One(c[13]) + One(c[14]) + One(c[15]) + One(c[16]) + One(c[17])
              + One(c[18]) + One(c[19]) + One(c[20]) + One(c[21]) + One(c[22])
  {
    OnesStep(c, 0); OnesStep(c, 1); OnesStep(c, 2); OnesStep(c, 3); OnesStep(c, 4); OnesStep(c, 5);
    OnesStep(c, 6); OnesStep(c, 7); OnesStep(c, 8); OnesStep(c, 9); OnesStep(c, 10); OnesStep(c, 11);
    OnesStep(c, 12); OnesStep(c, 13); OnesStep(c, 14); OnesStep(c, 15); OnesStep(c, 16); OnesStep(c, 17);
    OnesStep(c, 18); OnesStep(c, 19); OnesStep(c, 20); OnesStep(c, 21); OnesStep(c, 22);
  }

  lemma WrittenOutLow(q: seq<bool>, c: seq<bool>)
    requires |q| == 12 && |c| == 23
    requires forall k :: 0 <= k < 23 ==> c[k] == ProductAt(q, k)
    ensures IsProductLow(q, c)
  {
  }

  lemma WrittenOutMiddle(q: seq<bool>, c: seq<bool>)
    requires |q| == 12 && |c| == 23
    requires forall k :: 0 <= k < 23 ==> c[k] == ProductAt(q, k)
    ensures IsProductMiddle(q, c)
  {
  }

  lemma WrittenOutUpper(q: seq<bool>, c: seq<bool>)
    requires |q| == 12 && |c| == 23
    requires forall k :: 0 <= k < 23 ==> c[k] == ProductAt(q, k)
    ensures IsProductUpper(q, c)
  {
  }

  lemma WrittenOutHigh(q: seq<bool>, c: seq<bool>)
    requires |q| == 12 && |c| == 23
    requires forall k :: 0 <= k < 23 ==> c[k] == ProductAt(q, k)
    ensures IsProductHigh(q, c)
  {
  }

  /** Every non-zero multiple of g(x) by a polynomial of twelve coefficients has seven ones. */
  lemma ProductOnes(q: seq<bool>, c: seq<bool>)
    requires |q| == 12 && |c| == 23
    requires exists k :: 0 <= k < 12 && q[k]
    requires forall k :: 0 <= k < 23 ==> c[k] == ProductAt(q, k)
    ensures Ones(c, 23) >= 7
  {
    Ones23(c);
    WrittenOutLow(q, c);
    WrittenOutMiddle(q, c);
    WrittenOutUpper(q, c);
    WrittenOutHigh(q, c);
    ProductWeight(q, c);
  }

  /** Every non-zero multiple of the generator has at least seven ones. */
  lemma MinimumWeight(q: nat)
    requires 0 < q < 0x1000
    ensures Weight(Times(q)) >= 7
  {
    var bits, c := BitsOf(q, 12), BitsOf(Times(q), 23);
    assert Pow2(12) == 0x1000;
    TimesBound(q, 12);
    WeightIsOnes(Times(q), 23);
    var top := TopBit(q);
    if top >= 12 { HighBits(q, 12, top); }
    forall k | 0 <= k < 23 ensures c[k] == ProductAt(bits, k) {
      ProductAtIsProductBit(q, bits, k);
      TimesBit(q, k);
    }
    ProductOnes(bits, c);
  }

  lemma ProductAtIsProductBit(q: nat, bits: seq<bool>, k: nat)
    requires q < 0x1000 && bits == BitsOf(q, 12)
    ensures ProductAt(bits, k) == ProductBit(q, k)
  {
    assert Pow2(12) == 0x1000;
    forall j | j >= 12 ensures !Bit(q, j) { HighBits(q, 12, j); }
  }

  /** Two words with the same remainder differ in a multiple of the generator: nowhere, or in at least
      seven bits. */
  lemma SameRemainderFarApart(c: nat, d: nat)
    requires c < 0x800000 && d < 0x800000 && Rem(c) == Rem(d) && c != d
    ensures Weight(Xor(c, d)) >= 7
  {
    hide Xor;
    hide Times;
    hide Weight;
    hide Rem;
    hide Quo;
    var x := Xor(c, d);
    WordLengths(23, 12);
    XorBound(c, d, 23);
    RemXor(c, d);
    XorSelf(Rem(c));
    Division(x);
    XorZero(Times(Quo(x)));
    QuoBound(x, 12);
    if Quo(x) > 0 {
      MinimumWeight(Quo(x));
    } else {
      TimesZero(Quo(x));
      XorEqualsZero(c, d);
    }
  }

  lemma TimesZero(q: nat)
    requires q == 0
    ensures Times(q) == 0
  {
  }

  lemma WordLengths(n: nat, k: nat)
    requires n == 23 && k == 12
    ensures Pow2(n) == 0x800000 && Pow2(k) == 0x1000 && Pow2(k) * X11 == 0x800000
  {
    Pow2Add(11, 12);
    assert Pow2(11) == 0x800 && Pow2(12) == 0x1000;
  }

  /** The minimum distance of the code is 7: any two codewords differ in at least seven bits. */
  lemma MinimumDistance(c: nat, d: nat)
    requires c < 0x800000 && d < 0x800000 && IsCodeword(c) && IsCodeword(d) && c != d
    ensures Weight(Xor(c, d)) >= 7
  {
    hide Xor;
    hide Weight;
    hide Rem;
    hide IsCodeword;
    CodewordIffNoRemainder(c);
    CodewordIffNoRemainder(d);
    SameRemainderFarApart(c, d);
  }

  /** Two error patterns of at most three bits with the same remainder are the same pattern. */
  lemma LightPatternsSeparated(e: nat, f: nat)
    requires e < 0x800000 && f < 0x800000
    requires Weight(e) <= 3 && Weight(f) <= 3
    requires Rem(e) == Rem(f)
    ensures e == f
  {
    hide Xor;
    hide Weight;
    hide Rem;
    WeightTriangle(e, f);
    if e != f {
      SameRemainderFarApart(e, f);
    }
  }
}
