/**
 A transmission over the air: every symbol of a carrier multiplied by that carrier's unknown complex gain,
 picked up by a receiver that starts listening at any moment and in any state.
 */
module ModemLink {
  import opened Complex
  import opened Dqpsk
  import opened Acquisition
  import opened BitPacking
  import opened Modem

  /** nc data carriers and the pilot carrier; norm and h as in PhaseDifference. */
  datatype Radio = Radio(nc: nat, oldMapping: bool, norm: Cpx -> real, h: real, gain: int -> Cpx)

  ghost predicate Good(radio: Radio) {
    && radio.h > 0.0 && (forall z: Cpx :: radio.norm(z) > 0.0)
    && (forall c :: 0 <= c <= radio.nc ==> radio.gain(c) != Zero)
  }

  // ---------------------------------------------------------------- transmitter

  /** The last symbol sent on every carrier, and the pilot bit of the next frame. */
  datatype Tx = Tx(symbols: seq<Cpx>, pilot: bool)

  ghost predicate ValidTx(radio: Radio, tx: Tx) {
    |tx.symbols| == radio.nc + 1 && forall c :: 0 <= c <= radio.nc ==> tx.symbols[c] != Zero
  }

  predicate IsFrame(radio: Radio, bits: seq<bool>) {
    |bits| == 2 * radio.nc
  }

  predicate AreFrames(radio: Radio, frames: seq<seq<bool>>) {
    forall i :: 0 <= i < |frames| ==> IsFrame(radio, frames[i])
  }

  function CarrierAfter(radio: Radio, tx: Tx, bits: seq<bool>, c: nat): Cpx
    requires |tx.symbols| == radio.nc + 1 && IsFrame(radio, bits) && c <= radio.nc
  {
    if c == radio.nc then TxPilot(tx.symbols[c], tx.pilot)
    else TxSymbol(tx.symbols[c], bits[2 * c], bits[2 * c + 1], radio.oldMapping)
  }

  function NextTx(radio: Radio, tx: Tx, bits: seq<bool>): (r: Tx)
    requires |tx.symbols| == radio.nc + 1 && IsFrame(radio, bits)
    ensures |r.symbols| == radio.nc + 1
    ensures forall c :: 0 <= c <= radio.nc ==> r.symbols[c] == CarrierAfter(radio, tx, bits, c)
  {
    Tx(seq(radio.nc + 1, c requires 0 <= c <= radio.nc => CarrierAfter(radio, tx, bits, c)), !tx.pilot)
  }

  lemma NextTxValid(radio: Radio, tx: Tx, bits: seq<bool>)
    requires ValidTx(radio, tx) && IsFrame(radio, bits)
    ensures ValidTx(radio, NextTx(radio, tx, bits))
  {
    hide Mul;
    forall c | 0 <= c <= radio.nc ensures NextTx(radio, tx, bits).symbols[c] != Zero {
      if c < radio.nc {
        TurnsKeepNonZero(tx.symbols[c], bits[2 * c], bits[2 * c + 1], radio.oldMapping, false);
      } else {
        TurnsKeepNonZero(tx.symbols[c], false, false, false, tx.pilot);
      }
    }
  }

  /** bits_to_dqpsk_symbols: fills the symbols of one frame, carrier by carrier. */
  method BitsToSymbols(radio: Radio, prev: array<Cpx>, bits: array<bool>, pilotBit: bool, out: array<Cpx>)
    returns (nextPilot: bool)
    requires prev.Length == out.Length == radio.nc + 1 && IsFrame(radio, bits[..]) && prev != out
    modifies out
    ensures Tx(out[..], nextPilot) == NextTx(radio, Tx(prev[..], pilotBit), bits[..])
  {
    ghost var tx, frame := Tx(prev[..], pilotBit), bits[..];
    for c := 0 to radio.nc
      invariant prev[..] == tx.symbols && bits[..] == frame
      invariant forall k :: 0 <= k < c ==> out[k] == CarrierAfter(radio, tx, frame, k)
    {
      var msb, lsb := bits[2 * c], bits[2 * c + 1];
      if !msb && !lsb {
        out[c] := prev[c];
      }
      if !msb && lsb {
        out[c] := Mul(J, prev[c]);
      }
      if msb && !lsb {
        if radio.oldMapping { out[c] := Neg(prev[c]); } else { out[c] := Mul(Neg(J), prev[c]); }
      }
      if msb && lsb {
        if radio.oldMapping { out[c] := Mul(Neg(J), prev[c]); } else { out[c] := Neg(prev[c]); }
      }
    }
    if pilotBit {
      out[radio.nc] := Neg(prev[radio.nc]);
    } else {
      out[radio.nc] := prev[radio.nc];
    }
    nextPilot := !pilotBit;
  }

  /** What arrives of a frame's symbols. */
  function Arriving(radio: Radio, symbols: seq<Cpx>): (r: seq<Cpx>)
    ensures |r| == |symbols| && forall c :: 0 <= c < |r| ==> r[c] == Mul(radio.gain(c), symbols[c])
  {
    seq(|symbols|, c requires 0 <= c < |symbols| => Mul(radio.gain(c), symbols[c]))
  }

  /** The received symbols of a run of frames. */
  function OnAir(radio: Radio, tx: Tx, frames: seq<seq<bool>>): (r: seq<seq<Cpx>>)
    requires |tx.symbols| == radio.nc + 1 && AreFrames(radio, frames)
    ensures |r| == |frames| && forall i :: 0 <= i < |r| ==> |r[i]| == radio.nc + 1
    decreases |frames|
  {
    if |frames| == 0 then []
    else var tx' := NextTx(radio, tx, frames[0]);
         [Arriving(radio, tx'.symbols)] + OnAir(radio, tx', frames[1..])
  }

  // ---------------------------------------------------------------- receiver

  function Dibit(radio: Radio, prev: seq<Cpx>, rx: seq<Cpx>, c: nat): (bool, bool)
    requires |prev| == |rx| == radio.nc + 1 && c < radio.nc
  {
    Decide(PhaseDifference(prev[c], rx[c], radio.norm(prev[c]), radio.h), radio.oldMapping)
  }

  function DecodedBits(radio: Radio, prev: seq<Cpx>, rx: seq<Cpx>): (bits: seq<bool>)
    requires |prev| == |rx| == radio.nc + 1
    ensures |bits| == 2 * radio.nc
  {
    seq(2 * radio.nc, i requires 0 <= i < 2 * radio.nc =>
      var d := Dibit(radio, prev, rx, i / 2); if i % 2 == 0 then d.0 else d.1)
  }

  function DecodedSync(radio: Radio, prev: seq<Cpx>, rx: seq<Cpx>): bool
    requires |prev| == |rx| == radio.nc + 1
  {
    SyncBit(prev[radio.nc], rx[radio.nc], radio.norm(prev[radio.nc]))
  }

  /** qpsk_to_bits: decides the bits of one frame, carrier by carrier. */
  method SymbolsToBits(radio: Radio, prev: array<Cpx>, rx: array<Cpx>, bits: array<bool>) returns (syncBit: bool)
    requires prev.Length == rx.Length == radio.nc + 1 && bits.Length == 2 * radio.nc
    modifies bits
    ensures bits[..] == DecodedBits(radio, prev[..], rx[..]) && syncBit == DecodedSync(radio, prev[..], rx[..])
  {
    hide Mul;
    hide PhaseDifference;
    hide Decide;
    hide SyncBit;
    for c := 0 to radio.nc
      invariant forall k :: 0 <= k < 2 * c ==> bits[k] == DecodedBits(radio, prev[..], rx[..])[k]
    {
      var d := PhaseDifference(prev[c], rx[c], radio.norm(prev[c]), radio.h);
      var (msb, lsb) := Decide(d, radio.oldMapping);
      bits[2 * c] := msb;
      bits[2 * c + 1] := lsb;
    }
    syncBit := SyncBit(prev[radio.nc], rx[radio.nc], radio.norm(prev[radio.nc]));
  }

  /** What the receiver makes of a run of symbols, from its previous symbols and sync memory. */
  function Observed(radio: Radio, prev: seq<Cpx>, mem: seq<int>, air: seq<seq<Cpx>>): (r: seq<RxFrame>)
    requires |prev| == radio.nc + 1 && |mem| == NSYNC_MEM
    requires forall i :: 0 <= i < |air| ==> |air[i]| == radio.nc + 1
    ensures |r| == |air|
    decreases |air|
  {
    if |air| == 0 then []
    else
      var mem' := Shift(mem, DecodedSync(radio, prev, air[0]));
      [RxFrame(DecodedBits(radio, prev, air[0]), Reliable(mem'))] + Observed(radio, air[0], mem', air[1..])
  }

  /** With the previous frame received through the same channel, a frame is recovered exactly. */
  lemma FrameRecovered(radio: Radio, tx: Tx, bits: seq<bool>)
    requires Good(radio) && ValidTx(radio, tx) && IsFrame(radio, bits)
    ensures var prev, rx := Arriving(radio, tx.symbols), Arriving(radio, NextTx(radio, tx, bits).symbols);
            DecodedBits(radio, prev, rx) == bits && DecodedSync(radio, prev, rx) == tx.pilot
  {
    var prev, rx := Arriving(radio, tx.symbols), Arriving(radio, NextTx(radio, tx, bits).symbols);
    forall i | 0 <= i < 2 * radio.nc ensures DecodedBits(radio, prev, rx)[i] == bits[i] {
      var c := i / 2;
      DibitRecovered(radio.gain(c), tx.symbols[c], bits[2 * c], bits[2 * c + 1], radio.oldMapping,
                     radio.norm(prev[c]), radio.h);
    }
    PilotRecovered(radio.gain(radio.nc), tx.symbols[radio.nc], tx.pilot, radio.norm(prev[radio.nc]));
  }

  /** The pilot bit of the i-th frame from now. */
  predicate PilotAt(pilot: bool, i: int) {
    if Even(i) then pilot else !pilot
  }

  /** The sync memory after k frames whose pilots were received correctly. */
  function MemAt(mem: seq<int>, pilot: bool, k: nat): (m: seq<int>)
    requires |mem| == NSYNC_MEM
    ensures |m| == NSYNC_MEM
  {
    if k == 0 then mem else Shift(MemAt(mem, pilot, k - 1), PilotAt(pilot, k - 1))
  }

  lemma {:induction false} MemAtShift(mem: seq<int>, pilot: bool, k: nat)
    requires |mem| == NSYNC_MEM
    ensures MemAt(mem, pilot, k + 1) == MemAt(Shift(mem, pilot), !pilot, k)
  {
    if k > 0 { MemAtShift(mem, pilot, k - 1); }
  }

  /** What a tracking receiver makes of the frames: their own bits, and reliability by the true pilots. */
  function Expected(frames: seq<seq<bool>>, mem: seq<int>, pilot: bool): (r: seq<RxFrame>)
    requires |mem| == NSYNC_MEM
    ensures |r| == |frames|
    decreases |frames|
  {
    if |frames| == 0 then []
    else [RxFrame(frames[0], Reliable(Shift(mem, pilot)))] + Expected(frames[1..], Shift(mem, pilot), !pilot)
  }

  lemma OnAirStep(radio: Radio, tx: Tx, frames: seq<seq<bool>>)
    requires |tx.symbols| == radio.nc + 1 && AreFrames(radio, frames) && |frames| > 0
    ensures IsFrame(radio, frames[0]) && AreFrames(radio, frames[1..])
    ensures var air, tx' := OnAir(radio, tx, frames), NextTx(radio, tx, frames[0]);
            |air| > 0 && air[0] == Arriving(radio, tx'.symbols) && air[1..] == OnAir(radio, tx', frames[1..])
  {
    hide Mul;
    hide CarrierAfter;
    hide NextTx;
    hide Arriving;
  }

  lemma {:induction false} ObservedIsExpected(radio: Radio, tx: Tx, frames: seq<seq<bool>>, mem: seq<int>)
    requires Good(radio) && ValidTx(radio, tx) && |mem| == NSYNC_MEM && AreFrames(radio, frames)
    ensures Observed(radio, Arriving(radio, tx.symbols), mem, OnAir(radio, tx, frames))
            == Expected(frames, mem, tx.pilot)
    decreases |frames|
  {
    hide Mul;
    hide CarrierAfter;
    hide Good;
    hide AreFrames;
    hide IsFrame;
    hide Arriving;
    hide OnAir;
    hide DecodedBits;
    hide DecodedSync;
    hide Reliable;
    hide Shift;
    if |frames| > 0 {
      OnAirStep(radio, tx, frames);
      var tx' := NextTx(radio, tx, frames[0]);
      FrameRecovered(radio, tx, frames[0]);
      NextTxValid(radio, tx, frames[0]);
      ObservedIsExpected(radio, tx', frames[1..], Shift(mem, tx.pilot));
    }
  }

  lemma {:induction false} ExpectedBits(frames: seq<seq<bool>>, mem: seq<int>, pilot: bool)
    requires |mem| == NSYNC_MEM
    ensures BitsOfFrames(Expected(frames, mem, pilot)) == frames
    decreases |frames|
  {
    hide Reliable;
    hide Shift;
    if |frames| > 0 {
      ExpectedBits(frames[1..], Shift(mem, pilot), !pilot);
      var all, rest := Expected(frames, mem, pilot), Expected(frames[1..], Shift(mem, pilot), !pilot);
      forall i | 0 <= i < |frames| ensures all[i].bits == frames[i] {
        if i > 0 { assert all[i] == rest[i - 1] && BitsOfFrames(rest)[i - 1] == frames[1..][i - 1]; }
      }
    }
  }

  lemma {:induction false} ExpectedReliable(frames: seq<seq<bool>>, mem: seq<int>, pilot: bool, i: nat)
    requires |mem| == NSYNC_MEM && i < |frames|
    ensures Expected(frames, mem, pilot)[i].reliable == Reliable(MemAt(mem, pilot, i + 1))
    decreases i
  {
    hide Reliable;
    hide Shift;
    var mem' := Shift(mem, pilot);
    if i == 0 {
      assert MemAt(mem, pilot, 1) == Shift(MemAt(mem, pilot, 0), PilotAt(pilot, 0));
    } else {
      ExpectedReliable(frames[1..], mem', !pilot, i - 1);
      MemAtShift(mem, pilot, i);
      assert Expected(frames, mem, pilot)[i] == Expected(frames[1..], mem', !pilot)[i - 1];
    }
  }

  /** Reliability is decided by the true pilot history. */
  ghost predicate ReliableByPilots(obs: seq<RxFrame>, mem: seq<int>, pilot: bool)
    requires |mem| == NSYNC_MEM
  {
    forall i :: 0 <= i < |obs| ==> obs[i].reliable == Reliable(MemAt(mem, pilot, i + 1))
  }

  /** Tracking: bits are exact, and reliability is decided by the true pilot history. */
  lemma Tracking(radio: Radio, tx: Tx, frames: seq<seq<bool>>, mem: seq<int>)
    requires Good(radio) && ValidTx(radio, tx) && |mem| == NSYNC_MEM && AreFrames(radio, frames)
    ensures var obs := Observed(radio, Arriving(radio, tx.symbols), mem, OnAir(radio, tx, frames));
            && BitsOfFrames(obs) == frames && ReliableByPilots(obs, mem, tx.pilot)
            && forall i :: 0 <= i < |obs| ==> obs[i].reliable == Reliable(MemAt(mem, tx.pilot, i + 1))
  {
    hide Mul;
    hide CarrierAfter;
    hide Good;
    hide ValidTx;
    hide AreFrames;
    hide Observed;
    hide OnAir;
    hide Arriving;
    hide Expected;
    hide Reliable;
    hide MemAt;
    ObservedIsExpected(radio, tx, frames, mem);
    ExpectedBits(frames, mem, tx.pilot);
    forall i | 0 <= i < |frames|
      ensures Expected(frames, mem, tx.pilot)[i].reliable == Reliable(MemAt(mem, tx.pilot, i + 1))
    {
      ExpectedReliable(frames, mem, tx.pilot, i);
    }
  }

  // ---------------------------------------------------------------- locking

  lemma {:induction false} MemAtValid(mem: seq<int>, pilot: bool, k: nat)
    requires ValidMem(mem)
    ensures ValidMem(MemAt(mem, pilot, k))
  {
    if k > 0 { MemAtValid(mem, pilot, k - 1); }
  }

  /** A reliable bit comes only with a frame whose pilot bit is set: a second half. */
  lemma ReliableOnlyOnPilot(mem: seq<int>, pilot: bool, i: nat)
    requires ValidMem(mem) && Reliable(MemAt(mem, pilot, i + 1))
    ensures PilotAt(pilot, i)
  {
    MemAtValid(mem, pilot, i + 1);
    ReliableIffUniqueWord(MemAt(mem, pilot, i + 1));
  }

  /** Entry j of the memory after n frames is the pilot of frame n - 6 + j. */
  lemma {:induction false} EntryAt(mem: seq<int>, pilot: bool, n: nat, j: nat)
    requires |mem| == NSYNC_MEM && j < NSYNC_MEM <= n + j
    ensures MemAt(mem, pilot, n)[j] == Sign(PilotAt(pilot, n - NSYNC_MEM + j))
    decreases n
  {
    hide PilotAt;
    hide Sign;
    if j < NSYNC_MEM - 1 {
      EntryAt(mem, pilot, n - 1, j + 1);
    }
  }

  lemma PilotFlips(pilot: bool, i: int)
    ensures PilotAt(pilot, i + 1) == !PilotAt(pilot, i)
  {
  }

  /** Six correctly received pilots that end on a set bit always raise the reliable bit. */
  lemma SixPilotsLock(mem: seq<int>, pilot: bool, k: nat)
    requires |mem| == NSYNC_MEM && PilotAt(pilot, k + 5)
    ensures Reliable(MemAt(mem, pilot, k + 6))
  {
    hide MemAt;
    hide PilotAt;
    EntryAt(mem, pilot, k + 6, 0); EntryAt(mem, pilot, k + 6, 1); EntryAt(mem, pilot, k + 6, 2);
    EntryAt(mem, pilot, k + 6, 3); EntryAt(mem, pilot, k + 6, 4); EntryAt(mem, pilot, k + 6, 5);
    PilotFlips(pilot, k);
    PilotFlips(pilot, k + 1);
    PilotFlips(pilot, k + 2);
    PilotFlips(pilot, k + 3);
    PilotFlips(pilot, k + 4);
  }

  /** The frame, counted from the first one heard, by which the receiver has locked. */
  function LockFrame(pilot: bool): nat {
    if pilot then 6 else 7
  }

  lemma {:induction false} PilotSteps(pilot: bool, i: int, d: nat)
    ensures PilotAt(pilot, i + d) == if Even(d) then PilotAt(pilot, i) else !PilotAt(pilot, i)
  {
    if d > 0 {
      PilotSteps(pilot, i, d - 1);
      PilotFlips(pilot, i + d - 1);
    }
  }

  lemma StaysAligned(obs: seq<RxFrame>, mem: seq<int>, pilot: bool, m: nat)
    requires ValidMem(mem) && 0 < m <= |obs| && PilotAt(pilot, m - 1)
    requires ReliableByPilots(obs, mem, pilot)
    ensures Aligned(obs[m..])
  {
    var later := obs[m..];
    forall i | 0 <= i < |later| && Even(i) ensures !later[i].reliable {
      assert later[i] == obs[m + i];
      PilotSteps(pilot, m - 1, i + 1);
      if later[i].reliable { ReliableOnlyOnPilot(mem, pilot, m + i); }
    }
  }

  /** A receiver that tracks has locked by its k+5-th frame, and afterwards stays aligned. */
  lemma TrackingLocks(obs: seq<RxFrame>, frames: seq<seq<bool>>, mem: seq<int>, pilot: bool, k: nat)
    requires ValidMem(mem) && BitsOfFrames(obs) == frames
    requires ReliableByPilots(obs, mem, pilot)
    requires k + 5 < |frames| && PilotAt(pilot, k + 5)
    ensures obs[k + 5].reliable && Aligned(obs[k + 6..]) && BitsOfFrames(obs[k + 6..]) == frames[k + 6..]
  {
    SixPilotsLock(mem, pilot, k);
    StaysAligned(obs, mem, pilot, k + 6);
    BitsOfSuffix(frames, obs, k + 6);
  }

  lemma BitsOfSuffix(frames: seq<seq<bool>>, obs: seq<RxFrame>, m: nat)
    requires BitsOfFrames(obs) == frames && m <= |frames|
    ensures BitsOfFrames(obs[m..]) == frames[m..]
  {
    var later, tail := BitsOfFrames(obs[m..]), frames[m..];
    forall i | 0 <= i < |later| ensures later[i] == tail[i] {
      assert BitsOfFrames(obs)[m + i] == frames[m + i];
    }
  }

  lemma EmitAfterLock(p: Pairing, first: RxFrame, rest: seq<RxFrame>, lock: nat)
    requires 0 < lock <= |rest| && rest[lock - 1].reliable && Aligned(rest[lock..])
    ensures EmittedAll(p, [first] + rest)
            == EmittedAll(p, ([first] + rest)[..lock + 1]) + Pairs(BitsOfFrames(rest[lock..]))
  {
    var obs := [first] + rest;
    assert obs == obs[..lock] + [obs[lock]] + rest[lock..];
    assert obs[..lock] + [obs[lock]] == obs[..lock + 1];
    ResyncAfterReliable(p, obs[..lock], obs[lock], rest[lock..]);
  }

  /** Listening from any moment and in any state, the receiver locks within eight modem frames; from
      then on it emits exactly the pairs of transmitted frames. */
  lemma LateJoin(radio: Radio, tx: Tx, frames: seq<seq<bool>>, prev: seq<Cpx>, mem: seq<int>, p: Pairing)
    requires Good(radio) && ValidTx(radio, tx) && |prev| == radio.nc + 1 && ValidMem(mem)
    requires AreFrames(radio, frames)
    requires LockFrame(tx.pilot) < |frames|
    ensures var obs := Observed(radio, prev, mem, OnAir(radio, tx, frames));
            var k := LockFrame(tx.pilot) + 1;
            EmittedAll(p, obs) == EmittedAll(p, obs[..k]) + Pairs(frames[k..])
  {
    hide Mul;
    hide CarrierAfter;
    hide Good;
    hide AreFrames;
    hide IsFrame;
    hide Arriving;
    hide OnAir;
    hide DecodedBits;
    hide DecodedSync;
    hide Reliable;
    hide Shift;
    hide EmittedAll;
    hide Pairs;
    hide MemAt;
    hide PilotAt;
    hide Aligned;
    hide ReliableByPilots;
    var air, lock := OnAir(radio, tx, frames), LockFrame(tx.pilot);
    OnAirStep(radio, tx, frames);
    var tx', mem' := NextTx(radio, tx, frames[0]), Shift(mem, DecodedSync(radio, prev, air[0]));
    NextTxValid(radio, tx, frames[0]);
    ShiftValid(mem, DecodedSync(radio, prev, air[0]));
    var rest := Observed(radio, Arriving(radio, tx'.symbols), mem', air[1..]);
    var first := RxFrame(DecodedBits(radio, prev, air[0]), Reliable(mem'));
    assert Observed(radio, prev, mem, air) == [first] + rest;
    Tracking(radio, tx', frames[1..], mem');
    LocksOnPilot(tx'.pilot);
    TrackingLocks(rest, frames[1..], mem', tx'.pilot, lock - 6);
    EmitAfterLock(p, first, rest, lock);
    assert frames[1..][lock..] == frames[lock + 1..];
  }

  lemma ShiftValid(mem: seq<int>, bit: bool)
    requires ValidMem(mem)
    ensures ValidMem(Shift(mem, bit))
  {
  }

  lemma LocksOnPilot(pilot: bool)
    ensures PilotAt(pilot, LockFrame(!pilot) - 1)
  {
  }

  // ---------------------------------------------------------------- acquisition over the air

  /** The sync machine after a run of received symbols. */
  function Acquired(radio: Radio, prev: seq<Cpx>, a: Acq, air: seq<seq<Cpx>>): (r: Acq)
    requires |prev| == radio.nc + 1 && |a.mem| == NSYNC_MEM
    requires forall i :: 0 <= i < |air| ==> |air[i]| == radio.nc + 1
    ensures |r.mem| == NSYNC_MEM
    decreases |air|
  {
    if |air| == 0 then a
    else Acquired(radio, air[0], Next(a, DecodedSync(radio, prev, air[0])), air[1..])
  }

  lemma AcquiredStep(radio: Radio, prev: seq<Cpx>, a: Acq, air: seq<seq<Cpx>>)
    requires |prev| == radio.nc + 1 && |a.mem| == NSYNC_MEM && |air| > 0
    requires forall i :: 0 <= i < |air| ==> |air[i]| == radio.nc + 1
    ensures Acquired(radio, prev, a, air)
            == Acquired(radio, air[0], Next(a, DecodedSync(radio, prev, air[0])), air[1..])
  {
  }

  lemma {:induction false} AcquiresPilot(radio: Radio, tx: Tx, frames: seq<seq<bool>>, a: Acq)
    requires Good(radio) && ValidTx(radio, tx) && |a.mem| == NSYNC_MEM && AreFrames(radio, frames)
    ensures Acquired(radio, Arriving(radio, tx.symbols), a, OnAir(radio, tx, frames)) == PilotRun(a, tx.pilot, |frames|)
    decreases |frames|
  {
    hide Mul;
    hide CarrierAfter;
    hide Good;
    hide AreFrames;
    hide IsFrame;
    hide Arriving;
    hide OnAir;
    hide DecodedBits;
    hide DecodedSync;
    hide Next;
    if |frames| > 0 {
      OnAirStep(radio, tx, frames);
      FrameRecovered(radio, tx, frames[0]);
      NextTxValid(radio, tx, frames[0]);
      AcquiresPilot(radio, NextTx(radio, tx, frames[0]), frames[1..], Next(a, tx.pilot));
    }
  }

  lemma GoodSyncWhenTracking(radio: Radio, tx: Tx, frames: seq<seq<bool>>, a: Acq)
    requires Good(radio) && ValidTx(radio, tx) && Valid(a) && AreFrames(radio, frames) && |frames| >= 32
    ensures Acquired(radio, Arriving(radio, tx.symbols), a, OnAir(radio, tx, frames)).state == 2
  {
    hide Good;
    hide AreFrames;
    hide Arriving;
    hide OnAir;
    hide PilotRun;
    hide Acquired;
    hide Mul;
    AcquiresPilot(radio, tx, frames, a);
    GoodSyncAfter32(a, tx.pilot, |frames|);
  }

  /** Over any constant channel, from any valid state and whatever was heard before, the sync machine is
      in good sync after every run of 33 frames or more: it gets there and never leaves. */
  lemma GoodSyncOverTheAir(radio: Radio, tx: Tx, frames: seq<seq<bool>>, prev: seq<Cpx>, a: Acq)
    requires Good(radio) && ValidTx(radio, tx) && |prev| == radio.nc + 1 && Valid(a)
    requires AreFrames(radio, frames) && |frames| >= 33
    ensures Acquired(radio, prev, a, OnAir(radio, tx, frames)).state == 2
  {
    hide Mul;
    hide CarrierAfter;
    hide Good;
    hide AreFrames;
    hide IsFrame;
    hide Arriving;
    hide OnAir;
    hide DecodedSync;
    hide Next;
    hide Acquired;
    OnAirStep(radio, tx, frames);
    var air := OnAir(radio, tx, frames);
    NextTxValid(radio, tx, frames[0]);
    var bit := DecodedSync(radio, prev, air[0]);
    NextKeepsValid(a, bit);
    AcquiredStep(radio, prev, a, air);
    GoodSyncWhenTracking(radio, NextTx(radio, tx, frames[0]), frames[1..], Next(a, bit));
  }

  // ---------------------------------------------------------------- a whole file

  /** The transmitter after the first s frames. */
  function TxAt(radio: Radio, tx: Tx, frames: seq<seq<bool>>, s: nat): (r: Tx)
    requires |tx.symbols| == radio.nc + 1 && s <= |frames|
    requires AreFrames(radio, frames)
    ensures |r.symbols| == radio.nc + 1
  {
    if s == 0 then tx else NextTx(radio, TxAt(radio, tx, frames, s - 1), frames[s - 1])
  }

  lemma {:induction false} TxAtValid(radio: Radio, tx: Tx, frames: seq<seq<bool>>, s: nat)
    requires ValidTx(radio, tx) && s <= |frames|
    requires AreFrames(radio, frames)
    ensures ValidTx(radio, TxAt(radio, tx, frames, s))
    ensures TxAt(radio, tx, frames, s).pilot == PilotAt(tx.pilot, s)
  {
    hide Mul;
    hide CarrierAfter;
    if s > 0 {
      TxAtValid(radio, tx, frames, s - 1);
      NextTxValid(radio, TxAt(radio, tx, frames, s - 1), frames[s - 1]);
    }
  }

  lemma {:induction false} HalfFramesConcat(skipped: seq<int>, rest: seq<int>, b: nat, n: nat)
    requires IsBytes(skipped) && IsBytes(rest) && b > 0 && 8 * b == 2 * n
    requires WholeBlocks(skipped, b) == skipped
    ensures IsBytes(skipped + rest)
    ensures HalfFrames(skipped + rest, b, n) == HalfFrames(skipped, b, n) + HalfFrames(rest, b, n)
    decreases |skipped|
  {
    hide Unpacked;
    hide HalfFrames;
    if |skipped| < b {
      assert skipped + rest == rest;
      HalfFramesUnfold(skipped, b, n);
    } else {
      var file, head, tail := skipped + rest, skipped[..b], skipped[b..];
      assert skipped == head + tail;
      HalfFramesConcat(tail, rest, b, n);
      assert file[..b] == head && file[b..] == tail + rest;
      HalfFramesUnfold(file, b, n);
      HalfFramesUnfold(skipped, b, n);
      var bits := Unpacked(head);
      Associate([bits[..n], bits[n..]], HalfFrames(tail, b, n), HalfFrames(rest, b, n));
    }
  }

  lemma HalfFramesUnfold(file: seq<int>, b: nat, n: nat)
    requires IsBytes(file) && b > 0 && 8 * b == 2 * n
    ensures HalfFrames(file, b, n) ==
            if |file| < b then [] else
              var bits := Unpacked(file[..b]); [bits[..n], bits[n..]] + HalfFrames(file[b..], b, n)
  {
  }

  lemma Associate<T>(a: seq<T>, b: seq<T>, c: seq<T>)
    ensures a + (b + c) == a + b + c
  {
  }

  /** The tools end to end: a file sent over the air and picked up from the s-th modem frame on, by a
      receiver in any state, comes out as the frames emitted during start-up followed by the rest of
      the file, byte for byte; skipped is the part of the file sent before start-up is over. */
  lemma FileOverTheAir(radio: Radio, tx: Tx, skipped: seq<int>, rest: seq<int>, b: nat, s: nat,
                       prev: seq<Cpx>, mem: seq<int>, p: Pairing)
    requires Good(radio) && ValidTx(radio, tx) && !tx.pilot
    requires |prev| == radio.nc + 1 && ValidMem(mem)
    requires IsBytes(skipped) && IsBytes(rest) && b > 0 && 8 * b == 2 * (2 * radio.nc)
    requires WholeBlocks(skipped, b) == skipped
    requires |HalfFrames(skipped, b, 2 * radio.nc)| == s + if Even(s) then 8 else 7
    ensures IsBytes(skipped + rest)
    ensures var frames := HalfFrames(skipped + rest, b, 2 * radio.nc);
            var tail := Pairs(HalfFrames(rest, b, 2 * radio.nc));
            && s <= |frames|
            && (forall i :: 0 <= i < |tail| ==> |tail[i]| % 8 == 0) && Written(tail) == WholeBlocks(rest, b)
            && var obs := Observed(radio, prev, mem, OnAir(radio, TxAt(radio, tx, frames, s), frames[s..]));
               var start := if Even(s) then 8 else 7;
               start <= |obs| && EmittedAll(p, obs) == EmittedAll(p, obs[..start]) + tail
  {
    hide HalfFrames;
    hide OnAir;
    hide Observed;
    hide EmittedAll;
    hide Pairs;
    hide Written;
    hide WholeBlocks;
    hide TxAt;
    hide Good;
    hide Unpacked;
    hide IsBytes;
    hide Mul;
    hide CarrierAfter;
    var n := 2 * radio.nc;
    HalfFramesConcat(skipped, rest, b, n);
    HalvesRestoreFile(rest, b, n);
    var frames := HalfFrames(skipped + rest, b, n);
    TxAtValid(radio, tx, frames, s);
    LateJoin(radio, TxAt(radio, tx, frames, s), frames[s..], prev, mem, p);
    assert frames[s..][if Even(s) then 8 else 7..] == HalfFrames(rest, b, n);
  }
}
