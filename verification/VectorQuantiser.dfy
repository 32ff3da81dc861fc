/**
 The vector quantiser searches of ampexp.c over the reals: the weighted nearest codeword, the gain
 and shape search with its closed-form gain, and the split quantiser that moves what it quantises
 from the residual to the output.  Target entries equal to zero are left out of every sum.
 */
module VectorQuantiser {
  import Bits
  import opened Complex

  const HUGE := 100000000000000000000000000000000.0   // 1E32

  /** A flat codebook of e codewords of dimension d, codeword by codeword. */
  function Rows(cb: seq<real>, d: nat, e: nat): (rows: seq<seq<real>>)
    requires |cb| == e * d
    ensures |rows| == e && forall j :: 0 <= j < e ==> |rows[j]| == d
  {
    seq(e, j requires 0 <= j < e => Row(cb, d, e, j))
  }

  function Row(cb: seq<real>, d: nat, e: nat, j: nat): (row: seq<real>)
    requires |cb| == e * d && j < e
    ensures |row| == d
  {
    RowInBook(cb, d, e, j);
    cb[j * d..j * d + d]
  }

  /** Entry i of codeword j is where the code looks for it. */
  lemma RowsAt(cb: seq<real>, d: nat, e: nat, j: nat, i: nat)
    requires |cb| == e * d && j < e && i < d
    ensures 0 <= j * d + i < |cb| && Rows(cb, d, e)[j][i] == cb[j * d + i]
  {
    RowInBook(cb, d, e, j);
  }

  lemma RowBounds(d: nat, j: nat)
    ensures (j + 1) * d == j * d + d
  {
  }

  lemma RowInBook(cb: seq<real>, d: nat, e: nat, j: nat)
    requires |cb| == e * d && j < e
    ensures 0 <= j * d && (j + 1) * d <= |cb| && j * d + d <= |cb|
  {
    RowBounds(d, j);
    Bits.MulLe(j + 1, e, d);
    Bits.MulLe(0, j, d);
  }

  // ---------------------------------------------------------------- sums over the active entries

  /** The number of non-zero targets among the first n. */
  function Active(vec: seq<real>, n: nat): nat
    requires n <= |vec|
  {
    if n == 0 then 0 else Active(vec, n - 1) + if vec[n - 1] != 0.0 then 1 else 0
  }

  lemma ActiveStep(vec: seq<real>, n: nat)
    requires n < |vec|
    ensures Active(vec, n + 1) == Active(vec, n) + if vec[n] != 0.0 then 1 else 0
  {
  }

  /** The sum of xs over the active entries. */
  function Sum(vec: seq<real>, xs: seq<real>, n: nat): real
    requires n <= |vec| == |xs|
  {
    if n == 0 then 0.0 else Sum(vec, xs, n - 1) + if vec[n - 1] != 0.0 then xs[n - 1] else 0.0
  }

  /** The weighted squared error of a codeword raised by a gain. */
  function Error(vec: seq<real>, row: seq<real>, w: seq<real>, g: real, n: nat): real
    requires n <= |vec| == |row| == |w|
  {
    if n == 0 then 0.0
    else Error(vec, row, w, g, n - 1) +
         if vec[n - 1] != 0.0 then Times(w[n - 1], Square(vec[n - 1] - row[n - 1] - g)) else 0.0
  }

  /** The error is linear in each weight: changing one weight changes it by that much of the squared
      difference at that entry, if the target is not zero there. */
  lemma {:induction false} ErrorOneWeight(vec: seq<real>, row: seq<real>, w: seq<real>, g: real, n: nat,
                                          i: nat, x: real)
    requires i < n <= |vec| == |row| == |w|
    ensures var diff := vec[i] - row[i] - g;
            Error(vec, row, w[i := x], g, n)
            == Error(vec, row, w, g, n) + if vec[i] == 0.0 then 0.0 else (x - w[i]) * (diff * diff)
  {
    if n == i + 1 {
      ErrorOtherWeight(vec, row, w, g, i, i, x);
      Distribute2(Square(vec[i] - row[i] - g), x - w[i], w[i]);
    } else {
      ErrorOneWeight(vec, row, w, g, n - 1, i, x);
    }
  }

  lemma {:induction false} ErrorOtherWeight(vec: seq<real>, row: seq<real>, w: seq<real>, g: real, n: nat,
                                            i: nat, x: real)
    requires n <= i < |vec| == |row| == |w|
    ensures Error(vec, row, w[i := x], g, n) == Error(vec, row, w, g, n)
  {
    if n > 0 { ErrorOtherWeight(vec, row, w, g, n - 1, i, x); }
  }

  /** Without weights there is no error. */
  lemma {:induction false} ErrorNoWeights(vec: seq<real>, row: seq<real>, w: seq<real>, g: real, n: nat)
    requires n <= |vec| == |row| == |w| && forall i :: 0 <= i < |w| ==> w[i] == 0.0
    ensures Error(vec, row, w, g, n) == 0.0
  {
    if n > 0 {
      ErrorNoWeights(vec, row, w, g, n - 1);
      TimesZero(w[n - 1], Square(vec[n - 1] - row[n - 1] - g));
    }
  }

  /** The weighted sum of deviations, and the sum of the weights. */
  function Deviation(vec: seq<real>, row: seq<real>, w: seq<real>, g: real, n: nat): real
    requires n <= |vec| == |row| == |w|
  {
    if n == 0 then 0.0
    else Deviation(vec, row, w, g, n - 1) +
         if vec[n - 1] != 0.0 then Times(w[n - 1], vec[n - 1] - row[n - 1] - g) else 0.0
  }

  function Ones(d: nat): (w: seq<real>)
    ensures |w| == d && forall i :: 0 <= i < d ==> w[i] == 1.0
  {
    seq(d, _ => 1.0)
  }

  // ---------------------------------------------------------------- changing the gain

  lemma SquareOfSum(t: real, u: real)
    ensures Square(t + u) == Square(t) + Times(2.0 * u, t) + Square(u)
  {
    Expand(t, u, t, u);
    assert t * u + u * t == 2.0 * u * t;
  }

  lemma Expand(a: real, b: real, c: real, d: real)
    ensures (a + b) * (c + d) == a * c + a * d + b * c + b * d
  {
  }

  lemma TermShift(w: real, t: real, u: real)
    ensures Times(w, Square(t + u)) == Times(w, Square(t)) + Times(2.0 * u, Times(w, t)) + Times(w, Square(u))
  {
    SquareOfSum(t, u);
    Distribute3(w, Square(t), Times(2.0 * u, t), Square(u));
    Swap(w, 2.0 * u, t);
  }

  lemma Distribute3(w: real, a: real, b: real, c: real)
    ensures Times(w, a + b + c) == Times(w, a) + Times(w, b) + Times(w, c)
  {
  }

  lemma Distribute2(w: real, a: real, b: real)
    ensures Times(w, a + b) == Times(w, a) + Times(w, b) && Times(a + b, w) == Times(a, w) + Times(b, w)
  {
  }

  lemma Swap(w: real, u: real, t: real)
    ensures Times(w, Times(u, t)) == Times(u, Times(w, t))
  {
  }

  /** The error as a parabola in the gain, centred anywhere. */
  lemma {:induction false} ErrorShift(vec: seq<real>, row: seq<real>, w: seq<real>, g: real, h: real, n: nat)
    requires n <= |vec| == |row| == |w|
    ensures Error(vec, row, w, h, n) == Error(vec, row, w, g, n)
              + Times(2.0 * (g - h), Deviation(vec, row, w, g, n)) + Times(Sum(vec, w, n), Square(g - h))
  {
    if n > 0 {
      ErrorShift(vec, row, w, g, h, n - 1);
      if vec[n - 1] != 0.0 {
        var t := vec[n - 1] - row[n - 1] - g;
        assert vec[n - 1] - row[n - 1] - h == t + (g - h);
        TermShift(w[n - 1], t, g - h);
        Distribute2(2.0 * (g - h), Deviation(vec, row, w, g, n - 1), Times(w[n - 1], t));
        Distribute2(Square(g - h), Sum(vec, w, n - 1), w[n - 1]);
      }
    }
  }

  lemma ProductNonNegative(x: real, y: real)
    requires x >= 0.0 && y >= 0.0
    ensures Times(x, y) >= 0.0
  {
  }

  /** A gain minimises the weighted error over all gains exactly when the weighted deviations from it
      cancel and the weights do not add up to less than nothing. */
  lemma GainOptimalIff(vec: seq<real>, row: seq<real>, w: seq<real>, g: real)
    requires |vec| == |row| == |w|
    ensures (forall h: real :: Error(vec, row, w, g, |vec|) <= Error(vec, row, w, h, |vec|))
            <==> Deviation(vec, row, w, g, |vec|) == 0.0 && Sum(vec, w, |vec|) >= 0.0
  {
    hide Times;
    hide Square;
    var n := |vec|;
    var D, W := Deviation(vec, row, w, g, n), Sum(vec, w, n);
    if D == 0.0 && W >= 0.0 {
      forall h: real ensures Error(vec, row, w, g, n) <= Error(vec, row, w, h, n) {
        ErrorShift(vec, row, w, g, h, n);
        SquarePositive(g - h);
        ProductNonNegative(W, Square(g - h));
        TimesZero(2.0 * (g - h), D);
      }
    } else {
      var u := LowerVertex(D, W);
      ErrorShift(vec, row, w, g, g - u, n);
      assert g - (g - u) == u;
      assert Error(vec, row, w, g - u, n) < Error(vec, row, w, g, n);
    }
  }

  lemma TimesZero(x: real, y: real)
    requires x == 0.0 || y == 0.0
    ensures Times(x, y) == 0.0
  {
  }

  /** Off the vertex, or on a parabola open downwards, some step goes down. */
  lemma LowerVertex(D: real, W: real) returns (u: real)
    requires D != 0.0 || W < 0.0
    ensures Times(2.0 * u, D) + Times(W, Square(u)) < 0.0
  {
    hide Times;
    hide Square;
    if D == 0.0 {
      u := 1.0;
      SquarePositive(u);
      ProductPositive(-W, Square(u));
      NegatedTimes(W, Square(u));
      TimesZero(2.0 * u, D);
    } else if W <= 0.0 {
      u := -D;
      SquarePositive(D);
      MinusTwice(D, D);
      SquareNegated(D);
      ProductNonNegative(-W, Square(D));
      NegatedTimes(W, Square(D));
    } else {
      var q := D / W;
      u := -q;
      QuotientTimes(D, W);
      SquarePositive(q);
      ProductPositive(W, Square(q));
      SquareNegated(q);
      Swap(2.0 * u, W, q);
      MinusTwice(q, q);
      TimesMinusTwo(W, Square(q));
    }
  }

  lemma NegatedTimes(x: real, y: real)
    ensures Times(-x, y) == -Times(x, y)
  {
  }

  lemma SquareNegated(x: real)
    ensures Square(-x) == Square(x)
  {
    assert (-x) * (-x) == x * x;
  }

  lemma MinusTwice(x: real, y: real)
    requires x == y
    ensures Times(2.0 * -x, y) == -2.0 * Square(x)
  {
    assert (2.0 * -x) * x == -2.0 * (x * x);
  }

  lemma TimesMinusTwo(x: real, y: real)
    ensures Times(x, -2.0 * y) == -2.0 * Times(x, y)
  {
  }

  lemma QuotientTimes(x: real, y: real)
    requires y != 0.0
    ensures Times(y, x / y) == x
  {
  }

  // ---------------------------------------------------------------- the closed-form gain

  lemma {:induction false} DeviationByHand(vec: seq<real>, row: seq<real>, g: real, n: nat)
    requires n <= |vec| == |row|
    ensures Deviation(vec, row, Ones(|vec|), g, n)
            == Sum(vec, vec, n) - Sum(vec, row, n) - Times(Active(vec, n) as real, g)
    ensures Sum(vec, Ones(|vec|), n) == Active(vec, n) as real
  {
    if n > 0 {
      DeviationByHand(vec, row, g, n - 1);
      if vec[n - 1] != 0.0 {
        assert Times(1.0, vec[n - 1] - row[n - 1] - g) == vec[n - 1] - row[n - 1] - g;
        Distribute2(g, Active(vec, n - 1) as real, 1.0);
      }
    }
  }

  /** The gain computed by the search: the mean difference of the active entries. */
  function BestGain(vec: seq<real>, row: seq<real>): real
    requires |vec| == |row| && Active(vec, |vec|) > 0
  {
    (Sum(vec, vec, |vec|) - Sum(vec, row, |vec|)) / Active(vec, |vec|) as real
  }

  /** It minimises the unweighted error over all gains. */
  lemma BestGainIsOptimal(vec: seq<real>, row: seq<real>, h: real)
    requires |vec| == |row| && Active(vec, |vec|) > 0
    ensures Error(vec, row, Ones(|vec|), BestGain(vec, row), |vec|) <= Error(vec, row, Ones(|vec|), h, |vec|)
  {
    var n, g := |vec|, BestGain(vec, row);
    DeviationByHand(vec, row, g, n);
    var total, m := Sum(vec, vec, n) - Sum(vec, row, n), Active(vec, n) as real;
    QuotientTimes(total, m);
    GainOptimalIff(vec, row, Ones(n), g);
  }

  lemma {:induction false} DeviationFromZero(vec: seq<real>, row: seq<real>, w: seq<real>, g: real, n: nat)
    requires n <= |vec| == |row| == |w|
    ensures Deviation(vec, row, w, g, n) == Deviation(vec, row, w, 0.0, n) - Times(Sum(vec, w, n), g)
  {
    hide Times;
    if n == 0 {
      TimesZero(Sum(vec, w, n), g);
    } else {
      DeviationFromZero(vec, row, w, g, n - 1);
      if vec[n - 1] != 0.0 {
        var t := vec[n - 1] - row[n - 1];
        Distribute2(w[n - 1], t - g, g);
        Distribute2(g, Sum(vec, w, n - 1), w[n - 1]);
        assert t - 0.0 == t;
      }
    }
  }

  /** Exactly when the gain the search computes also minimises its own weighted metric over all gains:
      the weighted and the plain mean of the differences agree. */
  lemma BestGainWeightedOptimalIff(vec: seq<real>, row: seq<real>, w: seq<real>)
    requires |vec| == |row| == |w| && Active(vec, |vec|) > 0
    ensures var n := |vec|;
            (forall h: real :: Error(vec, row, w, BestGain(vec, row), n) <= Error(vec, row, w, h, n))
            <==> && Sum(vec, w, n) >= 0.0
                 && Times(Deviation(vec, row, w, 0.0, n), Active(vec, n) as real)
                    == Times(Sum(vec, w, n), Sum(vec, vec, n) - Sum(vec, row, n))
  {
    hide Times;
    hide Error;
    hide Deviation;
    hide Sum;
    var n, g := |vec|, BestGain(vec, row);
    GainOptimalIff(vec, row, w, g);
    DeviationFromZero(vec, row, w, g, n);
    var total := Sum(vec, vec, n) - Sum(vec, row, n);
    MeanIff(Deviation(vec, row, w, 0.0, n), Sum(vec, w, n), total, Active(vec, n) as real);
  }

  lemma MeanIff(d: real, s: real, total: real, m: real)
    requires m > 0.0
    ensures d - Times(s, total / m) == 0.0 <==> Times(d, m) == Times(s, total)
  {
    hide Times;
    var x := d - Times(s, total / m);
    QuotientTimes(total, m);
    Swap(m, s, total / m);
    Distribute2(m, x, Times(s, total / m));
    TimesCommute(d, m);
    if x > 0.0 {
      ProductPositive(m, x);
    } else if x < 0.0 {
      ProductPositive(m, -x);
      TimesCommute(m, -x);
      TimesCommute(m, x);
      NegatedTimes(x, m);
    } else {
      TimesZero(m, x);
    }
  }

  lemma TimesCommute(x: real, y: real)
    ensures Times(x, y) == Times(y, x)
  {
  }

  // ---------------------------------------------------------------- searching for the least metric

  /** Of the first j rows, best is the first with the least metric, if any is below the start value. */
  predicate BestOf(metrics: seq<real>, j: nat, best: nat, metric: real)
    requires j <= |metrics|
  {
    && (forall k :: 0 <= k < j ==> metric <= metrics[k])
    && ((best == 0 && metric == HUGE) || (best < j && metric == metrics[best] < HUGE))
    && (forall k :: 0 <= k < best && k < j ==> metric < metrics[k])
  }

  /** The weighted metrics of all rows of a codebook. */
  ghost function Metrics(cb: seq<real>, vec: seq<real>, w: seq<real>, e: nat): (m: seq<real>)
    requires |vec| == |w| && |cb| == e * |vec|
    ensures |m| == e
  {
    seq(e, j requires 0 <= j < e => Error(vec, Rows(cb, |vec|, e)[j], w, 0.0, |vec|))
  }

  /** The weighted metrics of all rows, each raised by its own best gain. */
  ghost function GainMetrics(cb: seq<real>, vec: seq<real>, w: seq<real>, e: nat): (m: seq<real>)
    requires |vec| == |w| && |cb| == e * |vec| && Active(vec, |vec|) > 0
    ensures |m| == e
  {
    seq(e, j requires 0 <= j < e =>
      var row := Rows(cb, |vec|, e)[j]; Error(vec, row, w, BestGain(vec, row), |vec|))
  }

  lemma SquareSymmetric(a: real, b: real)
    ensures Square(a - b) == Square(b - a - 0.0)
  {
  }

  /** error and metric of row j without gain, summed over the non-zero targets. */
  method RowError(cb: seq<real>, vec: seq<real>, w: seq<real>, e: nat, j: nat) returns (error: real, metric: real)
    requires |vec| == |w| && |cb| == e * |vec| && j < e
    ensures error == Error(vec, Rows(cb, |vec|, e)[j], Ones(|vec|), 0.0, |vec|)
    ensures metric == Error(vec, Rows(cb, |vec|, e)[j], w, 0.0, |vec|)
  {
    var d := |vec|;
    ghost var row, ones := Rows(cb, d, e)[j], Ones(d);
    error, metric := 0.0, 0.0;
    for i := 0 to d
      invariant error == Error(vec, row, ones, 0.0, i) && metric == Error(vec, row, w, 0.0, i)
    {
      RowsAt(cb, d, e, j, i);
      if vec[i] != 0.0 {
        var diff := cb[j * d + i] - vec[i];
        SquareSymmetric(cb[j * d + i], vec[i]);
        error := error + diff * diff;
        WeightedSquare(w[i], diff);
        metric := metric + w[i] * diff * diff;
      }
    }
  }

  lemma WeightedSquare(w: real, x: real)
    ensures w * x * x == Times(w, Square(x)) && x * x == Square(x) == Times(1.0, Square(x))
  {
  }

  /** vq_amp: the first row of least weighted metric, provided some metric is below 1E32. */
  method VqAmp(cb: seq<real>, vec: seq<real>, w: seq<real>, e: nat, se: real) returns (best: nat, se': real)
    requires |vec| == |w| && |cb| == e * |vec|
    ensures var d, rows := |vec|, Rows(cb, |vec|, e);
            (exists k :: 0 <= k < e && Error(vec, rows[k], w, 0.0, d) < HUGE) ==>
              && best < e && se' == se + Error(vec, rows[best], Ones(d), 0.0, d)
              && (forall k :: 0 <= k < e ==> Error(vec, rows[best], w, 0.0, d) <= Error(vec, rows[k], w, 0.0, d))
              && (forall k :: 0 <= k < best ==> Error(vec, rows[best], w, 0.0, d) < Error(vec, rows[k], w, 0.0, d))
    ensures var d, rows := |vec|, Rows(cb, |vec|, e);
            (forall k :: 0 <= k < e ==> Error(vec, rows[k], w, 0.0, d) >= HUGE) ==> best == 0 && se' == se + HUGE
  {
    hide Rows;
    hide Error;
    hide Metrics;
    ghost var metrics := Metrics(cb, vec, w, e);
    MetricsOfRows(cb, vec, w, e);
    best := 0;
    var bestMetric, bestError := HUGE, HUGE;
    for j := 0 to e
      invariant BestOf(metrics, j, best, bestMetric)
      invariant bestMetric == HUGE ==> bestError == HUGE
      invariant bestMetric < HUGE ==>
                  bestError == Error(vec, Rows(cb, |vec|, e)[best], Ones(|vec|), 0.0, |vec|)
    {
      var error, metric := RowError(cb, vec, w, e, j);
      assert metric == metrics[j];
      if metric < bestMetric {
        bestError, bestMetric, best := error, metric, j;
      }
    }
    se' := se + bestError;
  }

  lemma MetricsOfRows(cb: seq<real>, vec: seq<real>, w: seq<real>, e: nat)
    requires |vec| == |w| && |cb| == e * |vec|
    ensures forall k :: 0 <= k < e ==> Metrics(cb, vec, w, e)[k] == Error(vec, Rows(cb, |vec|, e)[k], w, 0.0, |vec|)
  {
  }

  // ---------------------------------------------------------------- gain and shape

  /** The optimum gain of row j. */
  method RowGain(cb: seq<real>, vec: seq<real>, e: nat, j: nat) returns (gain: real)
    requires |cb| == e * |vec| && j < e && Active(vec, |vec|) > 0
    ensures gain == BestGain(vec, Rows(cb, |vec|, e)[j])
  {
    var d := |vec|;
    ghost var row := Rows(cb, d, e)[j];
    var sumAm, sumCb, m := 0.0, 0.0, 0;
    for i := 0 to d
      invariant m == Active(vec, i) && sumAm == Sum(vec, vec, i) && sumCb == Sum(vec, row, i)
    {
      if vec[i] != 0.0 {
        m := m + 1;
        sumAm := sumAm + vec[i];
        RowsAt(cb, d, e, j, i);
        sumCb := sumCb + cb[j * d + i];
      }
    }
    gain := (sumAm - sumCb) / m as real;
  }

  method RowGainError(cb: seq<real>, vec: seq<real>, w: seq<real>, e: nat, j: nat, gain: real)
    returns (error: real, metric: real)
    requires |vec| == |w| && |cb| == e * |vec| && j < e
    ensures error == Error(vec, Rows(cb, |vec|, e)[j], Ones(|vec|), gain, |vec|)
    ensures metric == Error(vec, Rows(cb, |vec|, e)[j], w, gain, |vec|)
  {
    var d := |vec|;
    ghost var row, ones := Rows(cb, d, e)[j], Ones(d);
    error, metric := 0.0, 0.0;
    for i := 0 to d
      invariant error == Error(vec, row, ones, gain, i) && metric == Error(vec, row, w, gain, i)
    {
      RowsAt(cb, d, e, j, i);
      if vec[i] != 0.0 {
        var diff := vec[i] - cb[j * d + i] - gain;
        WeightedSquare(w[i], diff);
        error := error + diff * diff;
        metric := metric + w[i] * diff * diff;
      }
    }
  }

  /** gain_shape_vq_amp: the first row whose metric with its own gain is least, and that gain. */
  method GainShapeVqAmp(cb: seq<real>, vec: seq<real>, w: seq<real>, e: nat, se: real, gain: real)
    returns (best: nat, se': real, bestGain: real)
    requires |vec| == |w| && |cb| == e * |vec| && Active(vec, |vec|) > 0
    ensures var d, rows := |vec|, Rows(cb, |vec|, e);
            (exists k :: 0 <= k < e && Error(vec, rows[k], w, BestGain(vec, rows[k]), d) < HUGE) ==>
              && best < e && bestGain == BestGain(vec, rows[best])
              && se' == se + Error(vec, rows[best], Ones(d), bestGain, d)
              && (forall k :: 0 <= k < e ==>
                    Error(vec, rows[best], w, bestGain, d) <= Error(vec, rows[k], w, BestGain(vec, rows[k]), d))
              && (forall k :: 0 <= k < best ==>
                    Error(vec, rows[best], w, bestGain, d) < Error(vec, rows[k], w, BestGain(vec, rows[k]), d))
    ensures var d, rows := |vec|, Rows(cb, |vec|, e);
            (forall k :: 0 <= k < e ==> Error(vec, rows[k], w, BestGain(vec, rows[k]), d) >= HUGE) ==>
              best == 0 && se' == se + HUGE && bestGain == gain
  {
    hide Rows;
    hide Error;
    hide BestGain;
    hide GainMetrics;
    ghost var metrics := GainMetrics(cb, vec, w, e);
    GainMetricsOfRows(cb, vec, w, e);
    best, bestGain := 0, gain;
    var bestMetric, bestError := HUGE, HUGE;
    for j := 0 to e
      invariant BestOf(metrics, j, best, bestMetric)
      invariant bestMetric == HUGE ==> bestError == HUGE && bestGain == gain
      invariant bestMetric < HUGE ==>
                  var row := Rows(cb, |vec|, e)[best];
                  bestGain == BestGain(vec, row) && bestError == Error(vec, row, Ones(|vec|), bestGain, |vec|)
    {
      var g := RowGain(cb, vec, e, j);
      var error, metric := RowGainError(cb, vec, w, e, j, g);
      assert metric == metrics[j];
      if metric < bestMetric {
        bestError, bestMetric, bestGain, best := error, metric, g, j;
      }
    }
    se' := se + bestError;
  }

  lemma GainMetricsOfRows(cb: seq<real>, vec: seq<real>, w: seq<real>, e: nat)
    requires |vec| == |w| && |cb| == e * |vec| && Active(vec, |vec|) > 0
    ensures forall k :: 0 <= k < e ==>
              var row := Rows(cb, |vec|, e)[k];
              GainMetrics(cb, vec, w, e)[k] == Error(vec, row, w, BestGain(vec, row), |vec|)
  {
  }

  lemma {:induction false} EqualWeights(vec: seq<real>, row: seq<real>, w: seq<real>, c: real, g: real, n: nat)
    requires n <= |vec| == |row| == |w| && forall i :: 0 <= i < |w| ==> w[i] == c
    ensures Error(vec, row, w, g, n) == Times(c, Error(vec, row, Ones(|vec|), g, n))
  {
    if n > 0 {
      EqualWeights(vec, row, w, c, g, n - 1);
      if vec[n - 1] != 0.0 {
        var sq := Square(vec[n - 1] - row[n - 1] - g);
        assert Times(1.0, sq) == sq;
        Distribute2(c, Error(vec, row, Ones(|vec|), g, n - 1), sq);
      }
    }
  }

  lemma CancelFactor(c: real, a: real, b: real)
    requires c > 0.0 && Times(c, a) <= Times(c, b)
    ensures a <= b
  {
    Distribute2(c, a - b, b);
    if a > b { ProductPositive(c, a - b); }
  }

  /** With equal positive weights a row that is least with its own gain is jointly optimal with it: no
      other row and no gain whatever gives a smaller squared error. */
  lemma GainShapeJointlyOptimal(cb: seq<real>, vec: seq<real>, w: seq<real>, e: nat, c: real, best: nat,
                                j: nat, h: real)
    requires |vec| == |w| && |cb| == e * |vec| && Active(vec, |vec|) > 0
    requires c > 0.0 && forall i :: 0 <= i < |w| ==> w[i] == c
    requires best < e && j < e
    requires var a, b := Rows(cb, |vec|, e)[best], Rows(cb, |vec|, e)[j];
             Error(vec, a, w, BestGain(vec, a), |vec|) <= Error(vec, b, w, BestGain(vec, b), |vec|)
    ensures var a, b := Rows(cb, |vec|, e)[best], Rows(cb, |vec|, e)[j];
            Error(vec, a, Ones(|vec|), BestGain(vec, a), |vec|) <= Error(vec, b, Ones(|vec|), h, |vec|)
  {
    var d := |vec|;
    var a, b := Rows(cb, d, e)[best], Rows(cb, d, e)[j];
    EqualWeights(vec, a, w, c, BestGain(vec, a), d);
    EqualWeights(vec, b, w, c, BestGain(vec, b), d);
    CancelFactor(c, Error(vec, a, Ones(d), BestGain(vec, a), d), Error(vec, b, Ones(d), BestGain(vec, b), d));
    BestGainIsOptimal(vec, b, h);
  }

  /** With unequal weights it need not be: the computed gain ignores the weights. */
  lemma WeightedGainCounterexample()
    ensures var vec, row, w := [1.0, 4.0], [0.0, 0.0], [3.0, 1.0];
            Active(vec, 2) == 2 && BestGain(vec, row) == 2.5
            && Error(vec, row, w, 2.0, 2) < Error(vec, row, w, BestGain(vec, row), 2)
  {
    var vec, row, w := [1.0, 4.0], [0.0, 0.0], [3.0, 1.0];
    assert Active(vec, 1) == 1 && Sum(vec, vec, 1) == 1.0 && Sum(vec, row, 1) == 0.0;
    assert Active(vec, 2) == 2 && Sum(vec, vec, 2) == 5.0 && Sum(vec, row, 2) == 0.0;
    assert Error(vec, row, w, 2.0, 1) == 3.0;
    assert Error(vec, row, w, 2.0, 2) == 7.0;
    assert Error(vec, row, w, 2.5, 1) == 6.75;
    assert Error(vec, row, w, 2.5, 2) == 9.0;
  }

  // ---------------------------------------------------------------- the split quantiser

  /** A codebook of m codewords of dimension k, for the entries from offset on. */
  datatype Codebook = Codebook(offset: nat, k: nat, m: nat, cb: seq<real>)

  predicate ValidBook(vq: Codebook, size: nat) {
    vq.offset + vq.k <= size && vq.m > 0 && |vq.cb| == vq.m * vq.k
  }

  /** The residual after one stage: the chosen codeword is taken off the non-zero entries. */
  function Residual(before: seq<real>, row: seq<real>, offset: nat): (r: seq<real>)
    requires offset + |row| <= |before|
    ensures |r| == |before|
  {
    seq(|before|, j requires 0 <= j < |before| =>
      if offset <= j < offset + |row| && before[j] != 0.0 then before[j] - row[j - offset] else before[j])
  }

  /** split_vq: moves the nearest codeword from the residual to the output, in place. */
  method SplitVq(out: array<real>, vq: Codebook, w: array<real>, residual: array<real>, varN: int)
    returns (index: nat, varN': int)
    requires out != residual && w != out && w != residual && out.Length == residual.Length == w.Length
    requires ValidBook(vq, residual.Length)
    modifies out, residual
    ensures index < vq.m
    ensures var row := Rows(vq.cb, vq.k, vq.m)[index];
            forall j :: 0 <= j < residual.Length ==>
              residual[j] == if vq.offset <= j < vq.offset + vq.k && old(residual[j]) != 0.0
                             then old(residual[j]) - row[j - vq.offset] else old(residual[j])
    ensures forall j :: 0 <= j < out.Length ==> residual[j] + out[j] == old(residual[j]) + old(out[j])
    ensures varN' == varN + Active(old(residual[vq.offset..vq.offset + vq.k]), vq.k)
    ensures var target, weights := old(residual[vq.offset..vq.offset + vq.k]), w[vq.offset..vq.offset + vq.k];
            var d, rows := vq.k, Rows(vq.cb, vq.k, vq.m);
            if exists k :: 0 <= k < vq.m && Error(target, rows[k], weights, 0.0, d) < HUGE
            then forall k :: 0 <= k < vq.m ==>
                   var least := Error(target, rows[index], weights, 0.0, d);
                   var other := Error(target, rows[k], weights, 0.0, d);
                   least <= other && (k < index ==> least < other)
            else index == 0
  {
    hide Rows;
    hide Error;
    hide Active;
    var target, weights := residual[vq.offset..vq.offset + vq.k], w[vq.offset..vq.offset + vq.k];
    var se: real;
    index, se := VqAmp(vq.cb, target, weights, vq.m, 0.0);
    varN' := MoveRow(out, residual, vq, index, varN);
  }

  method MoveRow(out: array<real>, residual: array<real>, vq: Codebook, index: nat, varN: int) returns (varN': int)
    requires out != residual && out.Length == residual.Length && ValidBook(vq, residual.Length)
    requires index < vq.m
    modifies out, residual
    ensures var row := Rows(vq.cb, vq.k, vq.m)[index];
            forall j :: 0 <= j < residual.Length ==>
              residual[j] == if vq.offset <= j < vq.offset + vq.k && old(residual[j]) != 0.0
                             then old(residual[j]) - row[j - vq.offset] else old(residual[j])
    ensures forall j :: 0 <= j < out.Length ==> residual[j] + out[j] == old(residual[j]) + old(out[j])
    ensures varN' == varN + Active(old(residual[vq.offset..vq.offset + vq.k]), vq.k)
  {
    hide Active;
    hide Rows;
    ghost var before, row := residual[..], Rows(vq.cb, vq.k, vq.m)[index];
    ghost var target := residual[vq.offset..vq.offset + vq.k];
    var nonZero := 0;
    var j := vq.offset;
    NoneActive(target);
    for i := 0 to vq.k
      invariant j == vq.offset + i && nonZero == Active(target, i)
      invariant forall t :: 0 <= t < j ==> residual[t] == Residual(before, row, vq.offset)[t]
      invariant forall t :: j <= t < residual.Length ==> residual[t] == before[t]
      invariant forall t :: 0 <= t < out.Length ==> residual[t] + out[t] == before[t] + old(out[t])
    {
      RowsAt(vq.cb, vq.k, vq.m, index, i);
      ActiveStep(target, i);
      assert target[i] == before[j];
      var moved := MoveEntry(out, residual, j, vq.cb[index * vq.k + i]);
      nonZero := nonZero + moved;
      j := j + 1;
    }
    varN' := varN + nonZero;
  }

  lemma NoneActive(vec: seq<real>)
    ensures Active(vec, 0) == 0
  {
  }

  /** Moves x from the residual to the output at one entry, unless nothing is left there. */
  method MoveEntry(out: array<real>, residual: array<real>, j: nat, x: real) returns (moved: nat)
    requires out != residual && out.Length == residual.Length && j < out.Length
    modifies out, residual
    ensures moved == if old(residual[j]) != 0.0 then 1 else 0
    ensures residual[j] == if old(residual[j]) != 0.0 then old(residual[j]) - x else old(residual[j])
    ensures residual[j] + out[j] == old(residual[j]) + old(out[j])
    ensures forall t :: 0 <= t < out.Length && t != j ==> residual[t] == old(residual[t]) && out[t] == old(out[t])
  {
    moved := 0;
    if residual[j] != 0.0 {
      residual[j] := residual[j] - x;
      out[j] := out[j] + x;
      moved := 1;
    }
  }

  lemma ResidualIs(before: seq<real>, after: seq<real>, vq: Codebook, index: nat)
    requires ValidBook(vq, |before|) && |after| == |before| && index < vq.m
    requires forall j :: 0 <= j < |before| ==>
               after[j] == if vq.offset <= j < vq.offset + vq.k && before[j] != 0.0
                           then before[j] - Rows(vq.cb, vq.k, vq.m)[index][j - vq.offset] else before[j]
    ensures after == Residual(before, Rows(vq.cb, vq.k, vq.m)[index], vq.offset)
  {
  }

  /** The energy of the first n entries of a residual, over the entries that were non-zero before. */
  function Energy(before: seq<real>, after: seq<real>, n: nat): real
    requires n <= |before| == |after|
  {
    if n == 0 then 0.0
    else Energy(before, after, n - 1) + if before[n - 1] != 0.0 then Square(after[n - 1]) else 0.0
  }

  /** What one stage leaves behind is exactly the error of the codeword it chose. */
  lemma {:induction false} ResidualEnergyIsError(before: seq<real>, row: seq<real>, offset: nat, n: nat)
    requires n <= |row| && offset + |row| <= |before|
    ensures var target, after := before[offset..offset + |row|], Residual(before, row, offset)[offset..offset + |row|];
            Energy(target, after, n) == Error(target, row, Ones(|row|), 0.0, n)
  {
    if n > 0 {
      ResidualEnergyIsError(before, row, offset, n - 1);
      var sq := Square(before[offset + n - 1] - row[n - 1] - 0.0);
      assert before[offset + n - 1] - row[n - 1] - 0.0 == before[offset + n - 1] - row[n - 1];
      assert Times(1.0, sq) == sq;
    }
  }

  /** One stage: the residual loses a row on its non-zero entries, and unless all metrics are out of reach
      no row is nearer to it. */
  ghost predicate Stage(vq: Codebook, before: seq<real>, after: seq<real>, w: seq<real>, index: nat)
    requires ValidBook(vq, |before|) && |w| == |before|
  {
    var target, weights := before[vq.offset..vq.offset + vq.k], w[vq.offset..vq.offset + vq.k];
    var d, rows := vq.k, Rows(vq.cb, vq.k, vq.m);
    && index < vq.m && after == Residual(before, rows[index], vq.offset)
    && forall k :: 0 <= k < vq.m ==>
         var other := Error(target, rows[k], weights, 0.0, d);
         Error(target, rows[index], weights, 0.0, d) <= other || other >= HUGE
  }

  lemma StageIs(vq: Codebook, before: seq<real>, after: seq<real>, w: seq<real>, index: nat, j: nat, k: nat)
    requires ValidBook(vq, |before|) && |w| == |before| && Stage(vq, before, after, w, index)
    requires j < |before| && k < vq.m
    ensures var target, weights := before[vq.offset..vq.offset + vq.k], w[vq.offset..vq.offset + vq.k];
            var rows := Rows(vq.cb, vq.k, vq.m);
            && index < vq.m && |after| == |before|
            && (Error(target, rows[index], weights, 0.0, vq.k) <= Error(target, rows[k], weights, 0.0, vq.k)
                || Error(target, rows[k], weights, 0.0, vq.k) >= HUGE)
            && after[j] == if vq.offset <= j < vq.offset + vq.k && before[j] != 0.0
                           then before[j] - rows[index][j - vq.offset] else before[j]
  {
  }

  /** The stages of sparse_vq_amp one after the other: quantised plus residual stays the target, and each
      stage takes off what the one before left; left holds the residuals in between. */
  method SplitStages(out: array<real>, vqs: seq<Codebook>, w: array<real>, residual: array<real>)
    returns (indexes: seq<nat>, ghost left: seq<seq<real>>)
    requires out != residual && w != out && w != residual && out.Length == residual.Length == w.Length
    requires forall s :: 0 <= s < |vqs| ==> ValidBook(vqs[s], residual.Length)
    modifies out, residual
    ensures forall j :: 0 <= j < out.Length ==> residual[j] + out[j] == old(residual[j]) + old(out[j])
    ensures |indexes| == |vqs| && |left| == |vqs| + 1 && left[0] == old(residual[..]) && left[|vqs|] == residual[..]
    ensures forall s :: 0 <= s < |vqs| ==>
              |left[s]| == residual.Length && Stage(vqs[s], left[s], left[s + 1], w[..], indexes[s])
  {
    hide ValidBook;
    hide Stage;
    indexes, left := [], [residual[..]];
    for s := 0 to |vqs|
      invariant forall j :: 0 <= j < out.Length ==> residual[j] + out[j] == old(residual[j]) + old(out[j])
      invariant |indexes| == s && |left| == s + 1 && left[0] == old(residual[..]) && left[s] == residual[..]
      invariant forall t :: 0 <= t < s ==>
                  |left[t]| == residual.Length && Stage(vqs[t], left[t], left[t + 1], w[..], indexes[t])
    {
      var index := OneStage(out, vqs[s], w, residual);
      indexes, left := indexes + [index], left + [residual[..]];
    }
  }

  method OneStage(out: array<real>, vq: Codebook, w: array<real>, residual: array<real>) returns (index: nat)
    requires out != residual && w != out && w != residual && out.Length == residual.Length == w.Length
    requires ValidBook(vq, residual.Length)
    modifies out, residual
    ensures forall j :: 0 <= j < out.Length ==> residual[j] + out[j] == old(residual[j]) + old(out[j])
    ensures Stage(vq, old(residual[..]), residual[..], w[..], index)
  {
    hide Rows;
    hide Error;
    hide Active;
    var n;
    index, n := SplitVq(out, vq, w, residual, 0);
    ResidualIs(old(residual[..]), residual[..], vq, index);
    assert w[..][vq.offset..vq.offset + vq.k] == w[vq.offset..vq.offset + vq.k];
    assert old(residual[..])[vq.offset..vq.offset + vq.k] == old(residual[vq.offset..vq.offset + vq.k]);
  }
}
