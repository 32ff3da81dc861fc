/**
 The channel error injector of c2dec.c: random bit flips over a range of each frame, and a two-state
 burst channel.  The random draws are parameters.
 */
module ErrorInjector {
  import opened Bits
  import opened BitPacking

  /** The bits after flipping each bit, counted from bit number from, whose draw is below the threshold;
      draws for bits outside the frame flip nothing. */
  function Flipped(bits: seq<bool>, from: int, draws: seq<real>, threshold: real): (r: seq<bool>)
    ensures |r| == |bits|
  {
    seq(|bits|, k requires 0 <= k < |bits| =>
      if from <= k < from + |draws| && draws[k - from] < threshold then !bits[k] else bits[k])
  }

  function Hits(draws: seq<real>, threshold: real, n: nat): nat
    requires n <= |draws|
  {
    if n == 0 then 0 else Hits(draws, threshold, n - 1) + if draws[n - 1] < threshold then 1 else 0
  }

  /** The number of positions among the first n where two bit strings differ. */
  function Distance(a: seq<bool>, b: seq<bool>, n: nat): nat
    requires n <= |a| == |b|
  {
    if n == 0 then 0 else Distance(a, b, n - 1) + if a[n - 1] != b[n - 1] then 1 else 0
  }

  /** The number of draws for bits below bit n. */
  function DrawsBelow(n: int, from: int, draws: seq<real>): (k: nat)
    ensures k <= |draws|
  {
    if n <= from then 0 else if n <= from + |draws| then n - from else |draws|
  }

  /** Two frames differ in as many of their first n bits as draws for those bits hit. */
  lemma {:induction false} DistanceCountsHits(bits: seq<bool>, from: int, draws: seq<real>, threshold: real, n: nat)
    requires n <= |bits|
    ensures Distance(bits, Flipped(bits, from, draws, threshold), n)
            == Hits(draws, threshold, DrawsBelow(n, from, draws)) - Hits(draws, threshold, DrawsBelow(0, from, draws))
  {
    if n > 0 { DistanceCountsHits(bits, from, draws, threshold, n - 1); }
  }

  lemma {:induction false} NoHitsIff(draws: seq<real>, threshold: real, n: nat)
    requires n <= |draws|
    ensures Hits(draws, threshold, n) == 0 <==> forall t :: 0 <= t < n ==> draws[t] >= threshold
  {
    if n > 0 { NoHitsIff(draws, threshold, n - 1); }
  }

  lemma {:induction false} NoHitsBetween(draws: seq<real>, threshold: real, m: nat, n: nat)
    requires m <= n <= |draws| && forall t :: m <= t < n ==> draws[t] >= threshold
    ensures Hits(draws, threshold, n) == Hits(draws, threshold, m)
    decreases n
  {
    if n > m { NoHitsBetween(draws, threshold, m, n - 1); }
  }

  /** The same flips a second time restore the frame. */
  lemma FlippingTwice(bits: seq<bool>, from: int, draws: seq<real>, threshold: real)
    ensures Flipped(Flipped(bits, from, draws, threshold), from, draws, threshold) == bits
  {
  }

  /** bits[byte] ^= 1 << (7 - i + byte * 8) flips bit i of the frame and no other. */
  lemma XorFlipsBit(bytes: seq<int>, i: nat)
    requires IsBytes(bytes) && i < 8 * |bytes|
    ensures var x := Xor(bytes[i / 8], Shl(1, 7 - i % 8));
            && 0 <= x < 256 && IsBytes(bytes[i / 8 := x])
            && Unpacked(bytes[i / 8 := x]) == Unpacked(bytes)[i := !Unpacked(bytes)[i]]
  {
    hide Xor;
    hide Shl;
    hide Bit;
    var mask := Shl(1, 7 - i % 8);
    var x := Xor(bytes[i / 8], mask);
    MaskBits(7 - i % 8);
    assert Pow2(8) == 256;
    XorBound(bytes[i / 8], mask, 8);
    var next := bytes[i / 8 := x];
    forall k | 0 <= k < 8 * |bytes|
      ensures Bit(next[k / 8], 7 - k % 8) == (Bit(bytes[k / 8], 7 - k % 8) != (k == i))
    {
      if k / 8 == i / 8 {
        XorBit(bytes[i / 8], mask, 7 - k % 8);
        MaskBit1(7 - i % 8, 7 - k % 8);
      }
    }
  }

  lemma MaskBits(s: nat)
    requires s < 8
    ensures Shl(1, s) < 256
  {
    ShlIsPow2(s);
    Pow2Mono(s, 7);
    assert Pow2(7) == 128;
  }

  lemma {:induction false} ShlIsPow2(s: nat)
    ensures Shl(1, s) == Pow2(s)
  {
    if s > 0 { ShlIsPow2(s - 1); }
  }

  lemma MaskBit1(s: nat, k: nat)
    ensures Bit(Shl(1, s), k) == (k == s)
  {
    ShlIsPow2(s);
    Pow2Bit(s, k);
  }

  /** Shifts past bit 7 leave nothing of the mask in an unsigned char. */
  lemma MaskVanishes(s: nat)
    requires s >= 8
    ensures Shl(1, s) % 256 == 0
  {
    ShlIsPow2(s);
    Pow2Add(s - 8, 8);
    assert Pow2(8) == 256;
    QuotientUnique(Pow2(s), 256, Pow2(s - 8), 0);
  }

  function FlipAt(bits: seq<bool>, i: int): (r: seq<bool>)
    requires i < |bits|
    ensures |r| == |bits|
  {
    if i < 0 then bits else bits[i := !bits[i]]
  }

  /** The flip of the program: i / 8 rounds towards zero, so that the seven numbers below 0 also select
      byte 0, and there the mask is lost. */
  method FlipBit(bits: array<int>, i: int)
    requires IsBytes(bits[..]) && -8 < i < 8 * bits.Length && bits.Length > 0
    modifies bits
    ensures IsBytes(bits[..])
    ensures Unpacked(bits[..]) == FlipAt(Unpacked(old(bits[..])), i)
  {
    ghost var now := bits[..];
    var byte := if i < 0 then 0 else i / 8;
    var mask := Shl(1, 7 - i + byte * 8) % 256;
    if i < 0 {
      MaskVanishes(7 - i);
      XorZero(bits[0]);
      bits[byte] := Xor(bits[byte], mask);
      assert bits[..] == now;
    } else {
      XorFlipsBit(now, i);
      MaskBits(7 - i % 8);
      bits[byte] := Xor(bits[byte], mask);
      assert bits[..] == now[byte := Xor(now[byte], Shl(1, 7 - i % 8))];
    }
  }

  /** One frame of random errors from bit nstart to bit nend.  done counts the draws used: all of them, or
      those before the first flip outside the buffer, which the program would write.  Numbers from -7 to -1
      select byte 0 with an empty mask. */
  method Inject(bits: array<int>, nstart: int, nend: int, draws: seq<real>, ber: real, bitErrors: int, bitsProc: int)
    returns (done: nat, bitErrors': int, bitsProc': int)
    requires IsBytes(bits[..]) && bits.Length > 0
    requires |draws| == if nstart <= nend then nend + 1 - nstart else 0
    modifies bits
    ensures done <= |draws| && bitsProc' == bitsProc + done
    ensures done < |draws| ==> draws[done] < ber && !(-8 < nstart + done < 8 * bits.Length)
    ensures forall t :: 0 <= t < done && draws[t] < ber ==> -8 < nstart + t < 8 * bits.Length
    ensures IsBytes(bits[..]) && Unpacked(bits[..]) == Flipped(Unpacked(old(bits[..])), nstart, draws[..done], ber)
    ensures bitErrors' == bitErrors + Hits(draws, ber, done)
  {
    hide FlipAt;
    hide Unpacked;
    hide Flipped;
    hide IsBytes;
    ghost var before := Unpacked(bits[..]);
    bitErrors', bitsProc', done := bitErrors, bitsProc, 0;
    NoFlips(before, nstart, draws, ber);
    assert Hits(draws, ber, 0) == 0;
    var i := nstart;
    while i < nend + 1
      invariant 0 <= done <= |draws| && i == nstart + done && bitsProc' == bitsProc + done
      invariant forall t :: 0 <= t < done && draws[t] < ber ==> -8 < nstart + t < 8 * bits.Length
      invariant IsBytes(bits[..]) && Unpacked(bits[..]) == Flipped(before, nstart, draws[..done], ber)
      invariant bitErrors' == bitErrors + Hits(draws, ber, done)
    {
      HitsOneMore(draws, ber, done);
      var r := draws[done];
      if r < ber {
        if !(-8 < i < 8 * bits.Length) {
          return;
        }
        FlipBit(bits, i);
        bitErrors' := bitErrors' + 1;
      }
      FlipOneMore(before, nstart, draws, ber, done);
      bitsProc' := bitsProc' + 1;
      i, done := i + 1, done + 1;
    }
  }

  /** What the error count grows by: the distance of the frames, and the hits on numbers below 0, which
      are counted and flip nothing. */
  lemma CountedErrors(bits: seq<bool>, nstart: int, draws: seq<real>, ber: real)
    requires forall t :: 0 <= t < |draws| && draws[t] < ber ==> nstart + t < |bits|
    ensures Hits(draws, ber, |draws|) == Distance(bits, Flipped(bits, nstart, draws, ber), |bits|)
                                         + Hits(draws, ber, DrawsBelow(0, nstart, draws))
  {
    hide Distance;
    hide Flipped;
    DistanceCountsHits(bits, nstart, draws, ber, |bits|);
    NoHitsBetween(draws, ber, DrawsBelow(|bits|, nstart, draws), |draws|);
  }

  /** So the count is the distance exactly when no draw for a number below 0 hits. */
  lemma CountIsDistanceIff(bits: seq<bool>, nstart: int, draws: seq<real>, ber: real)
    requires forall t :: 0 <= t < |draws| && draws[t] < ber ==> nstart + t < |bits|
    ensures Hits(draws, ber, |draws|) == Distance(bits, Flipped(bits, nstart, draws, ber), |bits|)
            <==> forall t :: 0 <= t < |draws| && nstart + t < 0 ==> draws[t] >= ber
  {
    hide Distance;
    hide Flipped;
    CountedErrors(bits, nstart, draws, ber);
    NoHitsIff(draws, ber, DrawsBelow(0, nstart, draws));
  }

  /** A hit on number -1 is counted and changes no bit. */
  lemma NegativeStartCounts(bits: seq<bool>, draws: seq<real>)
    requires draws == [0.0]
    ensures Flipped(bits, -1, draws, 0.5) == bits && Hits(draws, 0.5, 1) == 1
  {
    assert Hits(draws, 0.5, 0) == 0;
  }

  lemma NoFlips(bits: seq<bool>, from: int, draws: seq<real>, ber: real)
    ensures Flipped(bits, from, draws[..0], ber) == bits
  {
  }

  lemma HitsOneMore(draws: seq<real>, ber: real, n: nat)
    requires n < |draws|
    ensures Hits(draws, ber, n + 1) == Hits(draws, ber, n) + if draws[n] < ber then 1 else 0
  {
  }

  lemma FlipOneMore(bits: seq<bool>, from: int, draws: seq<real>, ber: real, n: nat)
    requires n < |draws| && (draws[n] < ber ==> from + n < |bits|)
    ensures var f := Flipped(bits, from, draws[..n], ber);
            Flipped(bits, from, draws[..n + 1], ber) == if draws[n] < ber then FlipAt(f, from + n) else f
  {
  }

  // ---------------------------------------------------------------- the two-state burst channel

  datatype Burst = Burst(bad: bool, timer: real)

  datatype Params = Params(period: real, length: real, frameTime: real)

  predicate Sane(p: Params) {
    0.0 <= p.length <= p.period && p.frameTime > 0.0
  }

  /** One frame of the channel's clock. */
  function Tick(p: Params, b: Burst): Burst {
    var timer := b.timer + p.frameTime;
    if !b.bad then Burst(timer > p.period - p.length, timer)
    else if timer > p.period then Burst(false, 0.0) else Burst(true, timer)
  }

  method TwoStateFrame(bits: array<int>, nend: int, draws: seq<real>, p: Params, b: Burst,
                       bitErrors: int, bitsProc: int)
    returns (next: Burst, bitErrors': int, bitsProc': int)
    requires IsBytes(bits[..]) && bits.Length > 0 && 0 <= nend + 1 <= 8 * bits.Length && |draws| == nend + 1
    modifies bits
    ensures next == Tick(p, b) && IsBytes(bits[..])
    ensures Unpacked(bits[..]) ==
            if b.bad then Flipped(Unpacked(old(bits[..])), 0, draws, 0.5) else Unpacked(old(bits[..]))
    ensures bitErrors' == bitErrors + Distance(Unpacked(old(bits[..])), Unpacked(bits[..]), 8 * bits.Length)
    ensures bitsProc' == bitsProc + if b.bad then |draws| else 0
  {
    hide IsBytes;
    hide Unpacked;
    hide Flipped;
    hide Distance;
    hide Hits;
    var timer := b.timer + p.frameTime;
    var bad := b.bad;
    bitErrors', bitsProc' := bitErrors, bitsProc;
    ghost var before := Unpacked(bits[..]);
    if !b.bad {
      if timer > p.period - p.length {
        bad := true;
      }
      SameDistance(before, 8 * bits.Length);
    } else {
      var done;
      done, bitErrors', bitsProc' := Inject(bits, 0, nend, draws, 0.5, bitErrors, bitsProc);
      assert draws[..|draws|] == draws;
      CountIsDistanceIff(before, 0, draws, 0.5);
      if timer > p.period {
        timer := 0.0;
        bad := false;
      }
    }
    next := Burst(bad, timer);
  }

  lemma {:induction false} SameDistance(a: seq<bool>, n: nat)
    requires n <= |a|
    ensures Distance(a, a, n) == 0
  {
    if n > 0 { SameDistance(a, n - 1); }
  }

  function Ticks(p: Params, b: Burst, n: nat): Burst {
    if n == 0 then b else Tick(p, Ticks(p, b, n - 1))
  }

  /** In every run from a clear start: the clear state ends before the burst is due, and between
      frames the timer never exceeds the period by more than one frame time. */
  lemma {:induction false} TimerBounded(p: Params, n: nat)
    requires Sane(p)
    ensures var b := Ticks(p, Burst(false, 0.0), n);
            && 0.0 <= b.timer <= p.period + p.frameTime
            && (!b.bad ==> b.timer <= p.period - p.length)
            && (b.bad ==> b.timer > p.period - p.length)
  {
    if n > 0 { TimerBounded(p, n - 1); }
  }

  // ---------------------------------------------------------------- the timer within a frame

  /** The timer inside frame n + 1, before the burst state may reset it. */
  function Peak(p: Params, n: nat): real {
    Ticks(p, Burst(false, 0.0), n).timer + p.frameTime
  }

  /** The timer after k clear frames. */
  function Elapsed(p: Params, k: nat): real {
    if k == 0 then 0.0 else Elapsed(p, k - 1) + p.frameTime
  }

  /** A frame ends inside the burst. */
  predicate FrameEndsInBurst(p: Params, k: nat) {
    p.period - p.length < Elapsed(p, k) <= p.period
  }

  lemma {:induction false} ElapsedMono(p: Params, j: nat, k: nat)
    requires Sane(p) && j <= k
    ensures Elapsed(p, j) <= Elapsed(p, k)
  {
    if j < k { ElapsedMono(p, j, k - 1); }
  }

  lemma OneMore(x: real, t: real)
    ensures (x - 1.0) * t + t == x * t
  {
  }

  lemma {:induction false} ElapsedIsProduct(p: Params, k: nat)
    ensures Elapsed(p, k) == k as real * p.frameTime
  {
    if k > 0 {
      ElapsedIsProduct(p, k - 1);
      OneMore(k as real, p.frameTime);
    }
  }

  /** The number of whole frames in a period. */
  function FramesInPeriod(p: Params): (k: nat)
    requires Sane(p)
  {
    QuotientNonNegative(p.period, p.frameTime);
    (p.period / p.frameTime).Floor
  }

  lemma QuotientNonNegative(x: real, y: real)
    requires x >= 0.0 && y > 0.0
    ensures x / y >= 0.0 && (x / y) * y == x
  {
  }

  lemma ScaleLe(x: real, y: real, t: real)
    requires x <= y && t > 0.0
    ensures x * t <= y * t && (x < y ==> x * t < y * t)
  {
  }

  lemma WholeFrames(p: Params)
    requires Sane(p)
    ensures var k := FramesInPeriod(p);
            Elapsed(p, k) == k as real * p.frameTime && Elapsed(p, k) <= p.period < Elapsed(p, k + 1)
  {
    hide Elapsed;
    var k := FramesInPeriod(p);
    ElapsedIsProduct(p, k);
    ElapsedIsProduct(p, k + 1);
    WholeMultiples(p.period, p.frameTime, p.period / p.frameTime, k as real, (k + 1) as real);
  }

  lemma WholeMultiples(x: real, t: real, quotient: real, low: real, high: real)
    requires t > 0.0 && quotient == x / t && low <= quotient < high
    ensures low * t <= x < high * t
  {
    var y := quotient * t;
    assert y == x;
    ScaleLe(low, quotient, t);
    ScaleLe(quotient, high, t);
  }

  lemma {:induction false} FirstDue(p: Params, k: nat) returns (j: nat)
    requires Sane(p) && Elapsed(p, k) > p.period - p.length
    ensures j > 0 && Elapsed(p, j) > p.period - p.length && Elapsed(p, j - 1) <= p.period - p.length
  {
    if Elapsed(p, k - 1) > p.period - p.length {
      j := FirstDue(p, k - 1);
    } else {
      j := k;
    }
  }

  lemma {:induction false} ClearRun(p: Params, n: nat)
    requires Sane(p) && Elapsed(p, n) <= p.period - p.length
    ensures Ticks(p, Burst(false, 0.0), n) == Burst(false, Elapsed(p, n))
  {
    if n > 0 {
      ElapsedMono(p, n - 1, n);
      ClearRun(p, n - 1);
    }
  }

  /** With a frame ending inside the burst, no burst starts after the period is over. */
  lemma {:induction false} BurstStartsInTime(p: Params, k: nat, n: nat) returns (j: nat)
    requires Sane(p) && FrameEndsInBurst(p, k)
    ensures var b := Ticks(p, Burst(false, 0.0), n);
            b.timer == Elapsed(p, j) <= if b.bad then p.period else p.period - p.length
  {
    if n == 0 {
      j := 0;
    } else {
      var i := BurstStartsInTime(p, k, n - 1);
      if !Ticks(p, Burst(false, 0.0), n - 1).bad {
        if i >= k {
          ElapsedMono(p, k, i);
        } else {
          ElapsedMono(p, i + 1, k);
        }
      }
      j := if Ticks(p, Burst(false, 0.0), n) == Burst(false, 0.0) then 0 else i + 1;
    }
  }

  /** Some frame ends inside the burst exactly when the last frame that fits the period does. */
  lemma FrameEndsInBurstIff(p: Params)
    requires Sane(p)
    ensures (exists k: nat :: FrameEndsInBurst(p, k))
            <==> FramesInPeriod(p) as real * p.frameTime > p.period - p.length
  {
    hide FramesInPeriod;
    var last := FramesInPeriod(p);
    WholeFrames(p);
    if k: nat :| FrameEndsInBurst(p, k) {
      if k > last {
        ElapsedMono(p, last + 1, k);
      } else {
        ElapsedMono(p, k, last);
      }
    } else {
      assert !FrameEndsInBurst(p, last);
    }
  }

  /** Inside a frame the timer can pass the period by almost two frame times: it stays within one
      exactly when the last frame that fits the period ends inside the burst. */
  lemma PeakBoundedIff(p: Params)
    requires Sane(p)
    ensures (forall n: nat :: Peak(p, n) <= p.period + p.frameTime)
            <==> FramesInPeriod(p) as real * p.frameTime > p.period - p.length
  {
    hide FramesInPeriod;
    FrameEndsInBurstIff(p);
    if k: nat :| FrameEndsInBurst(p, k) {
      forall n: nat ensures Peak(p, n) <= p.period + p.frameTime {
        var j := BurstStartsInTime(p, k, n);
      }
    } else {
      WholeFrames(p);
      var j := FirstDue(p, FramesInPeriod(p) + 1);
      ClearRun(p, j - 1);
      assert !FrameEndsInBurst(p, j);
      assert Peak(p, j) > p.period + p.frameTime;
    }
  }

  lemma PeakCounterexample()
    ensures var p := Params(1.0, 0.25, 0.625); Sane(p) && Peak(p, 2) > p.period + p.frameTime
  {
    var p := Params(1.0, 0.25, 0.625);
    assert Ticks(p, Burst(false, 0.0), 1) == Burst(false, 0.625);
    assert Ticks(p, Burst(false, 0.0), 2) == Burst(true, 1.25);
  }

  // ---------------------------------------------------------------- which frames are hit

  /** The first frame, counted from 1, that ends after time x. */
  function FirstAfter(x: real, frameTime: real): (k: nat)
    requires frameTime > 0.0
    ensures k >= 1 && k as real * frameTime > x && (k == 1 || (k - 1) as real * frameTime <= x)
  {
    if x < 0.0 then 1
    else
      QuotientNonNegative(x, frameTime);
      var k := (x / frameTime).Floor;
      WholeMultiples(x, frameTime, x / frameTime, k as real, (k + 1) as real);
      k + 1
  }

  /** The clear frames of a cycle: up to and with the one that ends when the burst is due. */
  function ClearFrames(p: Params): (j: nat)
    requires p.frameTime > 0.0
    ensures j >= 1
  {
    FirstAfter(p.period - p.length, p.frameTime)
  }

  /** All frames of a cycle: up to and with the one after those that ends after the period. */
  function CycleFrames(p: Params): (e: nat)
    requires p.frameTime > 0.0
    ensures e > ClearFrames(p)
  {
    var j, e := ClearFrames(p), FirstAfter(p.period, p.frameTime);
    if e > j then e else j + 1
  }

  lemma {:induction false} ClearOnward(p: Params, b: Burst, n: nat)
    requires p.frameTime > 0.0 && !b.bad && (n == 0 || b.timer + Elapsed(p, n) <= p.period - p.length)
    ensures Ticks(p, b, n) == Burst(false, b.timer + Elapsed(p, n))
  {
    if n > 0 { ClearOnward(p, b, n - 1); }
  }

  lemma {:induction false} BadOnward(p: Params, b: Burst, n: nat)
    requires p.frameTime > 0.0 && b.bad && (n == 0 || b.timer + Elapsed(p, n) <= p.period)
    ensures Ticks(p, b, n) == Burst(true, b.timer + Elapsed(p, n))
  {
    if n > 0 { BadOnward(p, b, n - 1); }
  }

  lemma {:induction false} TicksAdd(p: Params, b: Burst, m: nat, n: nat)
    ensures Ticks(p, b, m + n) == Ticks(p, Ticks(p, b, m), n)
  {
    if n > 0 { TicksAdd(p, b, m, n - 1); }
  }

  lemma {:induction false} ElapsedAdd(p: Params, m: nat, n: nat)
    ensures Elapsed(p, m + n) == Elapsed(p, m) + Elapsed(p, n)
  {
    if n > 0 { ElapsedAdd(p, m, n - 1); }
  }

  /** One cycle from a clear start: the timer runs through, the state is clear for the first frames and bad
      for the rest, and after the last the channel is back where it was. */
  lemma Cycle(p: Params, n: nat)
    requires p.frameTime > 0.0 && n <= CycleFrames(p)
    ensures Ticks(p, Burst(false, 0.0), n) ==
            if n == CycleFrames(p) then Burst(false, 0.0) else Burst(n >= ClearFrames(p), n as real * p.frameTime)
  {
    hide ClearFrames;
    hide CycleFrames;
    hide Elapsed;
    var start, j, e := Burst(false, 0.0), ClearFrames(p), CycleFrames(p);
    ElapsedIsProduct(p, n);
    if n < j {
      BeforeDue(p, n);
      ClearOnward(p, start, n);
    } else {
      BurstBegins(p);
      if n < e {
        InsideBurst(p, n);
      } else {
        InsideBurst(p, e - 1);
        BurstEnds(p);
      }
    }
  }

  lemma BeforeDue(p: Params, n: nat)
    requires p.frameTime > 0.0 && n < ClearFrames(p)
    ensures n == 0 || Elapsed(p, n) <= p.period - p.length
  {
    hide FirstAfter;
    hide Elapsed;
    var j := ClearFrames(p);
    ElapsedIsProduct(p, n);
    ScaleLe(n as real, (j - 1) as real, p.frameTime);
  }

  lemma BurstBegins(p: Params)
    requires p.frameTime > 0.0
    ensures Ticks(p, Burst(false, 0.0), ClearFrames(p)) == Burst(true, Elapsed(p, ClearFrames(p)))
  {
    var start, j := Burst(false, 0.0), ClearFrames(p);
    BeforeDue(p, j - 1);
    ClearOnward(p, start, j - 1);
    ElapsedIsProduct(p, j);
  }

  lemma BeforeEnd(p: Params, n: nat)
    requires p.frameTime > 0.0 && ClearFrames(p) < n < CycleFrames(p)
    ensures Elapsed(p, n) <= p.period
  {
    hide FirstAfter;
    hide Elapsed;
    var e := FirstAfter(p.period, p.frameTime);
    assert e == CycleFrames(p) > n;
    assert (e - 1) as real * p.frameTime <= p.period;
    ElapsedIsProduct(p, n);
    ScaleLe(n as real, (e - 1) as real, p.frameTime);
  }

  lemma InsideBurst(p: Params, n: nat)
    requires p.frameTime > 0.0 && ClearFrames(p) <= n < CycleFrames(p)
    ensures Ticks(p, Burst(false, 0.0), n) == Burst(true, Elapsed(p, n))
  {
    hide ClearFrames;
    hide CycleFrames;
    var start, j := Burst(false, 0.0), ClearFrames(p);
    BurstBegins(p);
    TicksAdd(p, start, j, n - j);
    ElapsedAdd(p, j, n - j);
    if n > j { BeforeEnd(p, n); }
    BadOnward(p, Ticks(p, start, j), n - j);
  }

  lemma BurstEnds(p: Params)
    requires p.frameTime > 0.0
    ensures Ticks(p, Burst(false, 0.0), CycleFrames(p)) == Burst(false, 0.0)
  {
    hide Elapsed;
    hide CycleFrames;
    var e := CycleFrames(p);
    InsideBurst(p, e - 1);
    PastEnd(p);
    ElapsedStep(p, e);
  }

  lemma PastEnd(p: Params)
    requires p.frameTime > 0.0
    ensures Elapsed(p, CycleFrames(p)) > p.period
  {
    hide Elapsed;
    hide FirstAfter;
    hide ClearFrames;
    var e := CycleFrames(p);
    ElapsedIsProduct(p, e);
    ScaleLe(FirstAfter(p.period, p.frameTime) as real, e as real, p.frameTime);
  }

  lemma ElapsedStep(p: Params, k: nat)
    requires k > 0
    ensures Elapsed(p, k) == Elapsed(p, k - 1) + p.frameTime
  {
  }

  /** The channel over any number of frames: the cycle repeats for ever, so frame n, counted from 0, is hit
      exactly when it is past the clear frames of its cycle. */
  lemma {:induction false} Trajectory(p: Params, n: nat)
    requires p.frameTime > 0.0
    ensures var k := n % CycleFrames(p);
            Ticks(p, Burst(false, 0.0), n) == Burst(k >= ClearFrames(p), k as real * p.frameTime)
  {
    hide ClearFrames;
    hide CycleFrames;
    hide Ticks;
    var e := CycleFrames(p);
    if n < e {
      QuotientUnique(n, e, 0, n);
      Cycle(p, n);
    } else {
      Trajectory(p, n - e);
      Cycle(p, e);
      TicksAdd(p, Burst(false, 0.0), e, n - e);
      ModuloBack(n, e);
    }
  }

  /** How many of the first n frames are hit. */
  function HitFrames(p: Params, n: nat): nat
    requires p.frameTime > 0.0
  {
    if n == 0 then 0 else HitFrames(p, n - 1) + if (n - 1) % CycleFrames(p) >= ClearFrames(p) then 1 else 0
  }

  /** None of the clear frames at the start, and then all but the clear ones of every cycle. */
  lemma {:induction false} HitFramesAre(p: Params, n: nat)
    requires p.frameTime > 0.0
    ensures n <= ClearFrames(p) ==> HitFrames(p, n) == 0
    ensures ClearFrames(p) <= n <= CycleFrames(p) ==> HitFrames(p, n) == n - ClearFrames(p)
    ensures HitFrames(p, n + CycleFrames(p)) == HitFrames(p, n) + (CycleFrames(p) - ClearFrames(p))
  {
    hide ClearFrames;
    hide CycleFrames;
    var e := CycleFrames(p);
    if n == 0 {
      HitsInCycle(p, e);
    } else {
      HitFramesAre(p, n - 1);
      ModuloBack(n - 1 + e, e);
      if n <= e { QuotientUnique(n - 1, e, 0, n - 1); }
    }
  }

  lemma {:induction false} HitsInCycle(p: Params, n: nat)
    requires p.frameTime > 0.0 && n <= CycleFrames(p)
    ensures HitFrames(p, n) == if n <= ClearFrames(p) then 0 else n - ClearFrames(p)
  {
    hide ClearFrames;
    hide CycleFrames;
    if n > 0 {
      HitsInCycle(p, n - 1);
      QuotientUnique(n - 1, CycleFrames(p), 0, n - 1);
    }
  }

  /** The bits changed in the first n frames. */
  function TotalErrors(frames: seq<seq<int>>, outs: seq<seq<int>>, n: nat): nat
    requires n <= |frames| && n <= |outs|
    requires forall f :: 0 <= f < n ==> IsBytes(frames[f]) && IsBytes(outs[f]) && |frames[f]| == |outs[f]|
  {
    if n == 0 then 0
    else TotalErrors(frames, outs, n - 1) + Distance(Unpacked(frames[n - 1]), Unpacked(outs[n - 1]), 8 * |outs[n - 1]|)
  }

  lemma {:induction false} EarlierErrors(frames: seq<seq<int>>, outs: seq<seq<int>>, more: seq<seq<int>>, n: nat)
    requires n <= |frames| && n <= |outs|
    requires forall f :: 0 <= f < n ==> IsBytes(frames[f]) && IsBytes(outs[f]) && |frames[f]| == |outs[f]|
    ensures TotalErrors(frames, outs + more, n) == TotalErrors(frames, outs, n)
  {
    hide IsBytes;
    if n > 0 { EarlierErrors(frames, outs, more, n - 1); }
  }

  lemma {:induction false} NoErrors(frames: seq<seq<int>>, n: nat)
    requires n <= |frames| && forall f :: 0 <= f < n ==> IsBytes(frames[f])
    ensures TotalErrors(frames, frames, n) == 0
  {
    if n > 0 {
      NoErrors(frames, n - 1);
      SameDistance(Unpacked(frames[n - 1]), 8 * |frames[n - 1]|);
    }
  }

  lemma OneMoreHit(p: Params, f: nat, k: int)
    requires p.frameTime > 0.0
    ensures k * HitFrames(p, f + 1)
            == k * HitFrames(p, f) + if f % CycleFrames(p) >= ClearFrames(p) then k else 0
  {
  }

  /** Reading frame after frame in the two-state mode: exactly the bits of the hit frames whose draw is below
      one half are flipped. */
  method TwoStateRun(frames: seq<seq<int>>, nbyte: nat, nend: int, draws: seq<seq<real>>, p: Params)
    returns (outs: seq<seq<int>>, bitErrors: int, bitsProc: int)
    requires forall f :: 0 <= f < |frames| ==> IsBytes(frames[f]) && |frames[f]| == nbyte
    requires nbyte > 0 && 0 <= nend + 1 <= 8 * nbyte && p.frameTime > 0.0
    requires |draws| == |frames| && forall f :: 0 <= f < |draws| ==> |draws[f]| == nend + 1
    ensures |outs| == |frames| && forall f :: 0 <= f < |outs| ==> IsBytes(outs[f]) && |outs[f]| == nbyte
    ensures forall f :: 0 <= f < |outs| ==>
              Unpacked(outs[f]) == if f % CycleFrames(p) < ClearFrames(p) then Unpacked(frames[f])
                                   else Flipped(Unpacked(frames[f]), 0, draws[f], 0.5)
    ensures bitErrors == TotalErrors(frames, outs, |frames|)
    ensures bitsProc == (nend + 1) * HitFrames(p, |frames|)
  {
    hide IsBytes;
    hide FrameDone;
    hide TotalErrors;
    hide Processed;
    hide ClearFrames;
    hide CycleFrames;
    hide Tick;
    var b := Burst(false, 0.0);
    outs, bitErrors, bitsProc := [], 0, 0;
    NothingDone(frames, outs, p, nend);
    for f := 0 to |frames|
      invariant |outs| == f && b == Ticks(p, Burst(false, 0.0), f)
      invariant forall g :: 0 <= g < f ==> IsBytes(outs[g]) && |outs[g]| == nbyte
      invariant forall g :: 0 <= g < f ==> FrameDone(frames[g], outs[g], draws[g], p, g)
      invariant bitErrors == TotalErrors(frames, outs, f) && bitsProc == Processed(p, f, nend)
    {
      var out;
      out, b, bitErrors, bitsProc := TwoStateNext(frames[f], nend, draws[f], p, f, b, bitErrors, bitsProc);
      OneMoreFrame(frames, outs, out, f);
      outs := outs + [out];
    }
    forall f | 0 <= f < |outs|
      ensures Unpacked(outs[f]) == if f % CycleFrames(p) < ClearFrames(p) then Unpacked(frames[f])
                                   else Flipped(Unpacked(frames[f]), 0, draws[f], 0.5)
    {
      FrameDoneIs(frames[f], outs[f], draws[f], p, f);
    }
    ProcessedIs(p, |frames|, nend);
  }

  ghost predicate FrameDone(frame: seq<int>, out: seq<int>, draws: seq<real>, p: Params, f: nat)
    requires IsBytes(frame) && IsBytes(out) && p.frameTime > 0.0
  {
    Unpacked(out) == if f % CycleFrames(p) < ClearFrames(p) then Unpacked(frame)
                     else Flipped(Unpacked(frame), 0, draws, 0.5)
  }

  lemma FrameDoneIs(frame: seq<int>, out: seq<int>, draws: seq<real>, p: Params, f: nat)
    requires IsBytes(frame) && IsBytes(out) && p.frameTime > 0.0 && FrameDone(frame, out, draws, p, f)
    ensures Unpacked(out) == if f % CycleFrames(p) < ClearFrames(p) then Unpacked(frame)
                             else Flipped(Unpacked(frame), 0, draws, 0.5)
  {
  }

  ghost function Processed(p: Params, n: nat, nend: int): int
    requires p.frameTime > 0.0
  {
    (nend + 1) * HitFrames(p, n)
  }

  lemma ProcessedIs(p: Params, n: nat, nend: int)
    requires p.frameTime > 0.0
    ensures Processed(p, n, nend) == (nend + 1) * HitFrames(p, n)
  {
  }

  lemma NothingDone(frames: seq<seq<int>>, outs: seq<seq<int>>, p: Params, nend: int)
    requires p.frameTime > 0.0
    ensures TotalErrors(frames, outs, 0) == 0 && Processed(p, 0, nend) == 0
  {
  }

  lemma OneMoreFrame(frames: seq<seq<int>>, outs: seq<seq<int>>, out: seq<int>, f: nat)
    requires f == |outs| < |frames| && IsBytes(frames[f]) && IsBytes(out) && |out| == |frames[f]|
    requires forall g :: 0 <= g < f ==> IsBytes(frames[g]) && IsBytes(outs[g]) && |frames[g]| == |outs[g]|
    ensures TotalErrors(frames, outs + [out], f + 1)
            == TotalErrors(frames, outs, f) + Distance(Unpacked(frames[f]), Unpacked(out), 8 * |out|)
  {
    hide IsBytes;
    hide Distance;
    hide Unpacked;
    EarlierErrors(frames, outs, [out], f);
  }

  /** One frame read into the buffer and passed through the channel. */
  method TwoStateNext(frame: seq<int>, nend: int, draws: seq<real>, p: Params, ghost f: nat, b: Burst,
                      bitErrors: int, bitsProc: int)
    returns (out: seq<int>, next: Burst, bitErrors': int, bitsProc': int)
    requires IsBytes(frame) && |frame| > 0 && 0 <= nend + 1 <= 8 * |frame| && |draws| == nend + 1
    requires p.frameTime > 0.0 && b == Ticks(p, Burst(false, 0.0), f) && bitsProc == Processed(p, f, nend)
    ensures IsBytes(out) && |out| == |frame| && FrameDone(frame, out, draws, p, f)
    ensures next == Ticks(p, Burst(false, 0.0), f + 1)
    ensures bitErrors' == bitErrors + Distance(Unpacked(frame), Unpacked(out), 8 * |out|)
    ensures bitsProc' == Processed(p, f + 1, nend)
  {
    hide IsBytes;
    hide Unpacked;
    hide Flipped;
    hide ClearFrames;
    hide CycleFrames;
    hide Tick;
    hide Distance;
    hide HitFrames;
    Trajectory(p, f);
    OneMoreHit(p, f, nend + 1);
    var bits := new int[|frame|];
    Fill(bits, frame);
    next, bitErrors', bitsProc' := TwoStateFrame(bits, nend, draws, p, b, bitErrors, bitsProc);
    out := bits[..];
  }

  method Fill(bits: array<int>, frame: seq<int>)
    requires bits.Length == |frame|
    modifies bits
    ensures bits[..] == frame
  {
    for j := 0 to bits.Length
      invariant bits[..j] == frame[..j]
    {
      bits[j] := frame[j];
    }
  }
}
