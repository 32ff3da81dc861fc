/**
 The modem tools around the radio: fdmdv_mod.c splits each codec frame over two modem frames, and
 fdmdv_demod.c pairs the received halves again, resynchronising on the reliable sync bit.
 */
module Modem {
  import opened BitPacking

  // ---------------------------------------------------------------- pairing of half frames

  /** sync is set while the next frame is expected to be a second half; half is the stored first one. */
  datatype Pairing = Pairing(sync: bool, half: seq<bool>)

  datatype RxFrame = RxFrame(bits: seq<bool>, reliable: bool)

  function Pair(p: Pairing, f: RxFrame): Pairing {
    if p.sync || f.reliable then Pairing(false, p.half) else Pairing(true, f.bits)
  }

  function Emitted(p: Pairing, f: RxFrame): seq<seq<bool>> {
    if p.sync || f.reliable then [p.half + f.bits] else []
  }

  function PairAll(p: Pairing, fs: seq<RxFrame>): Pairing
    decreases |fs|
  {
    if |fs| == 0 then p else PairAll(Pair(p, fs[0]), fs[1..])
  }

  function EmittedAll(p: Pairing, fs: seq<RxFrame>): seq<seq<bool>>
    decreases |fs|
  {
    if |fs| == 0 then [] else Emitted(p, fs[0]) + EmittedAll(Pair(p, fs[0]), fs[1..])
  }

  /** One frame of a run: with sync set or a reliable frame, even one that comes when a first half is expected,
      the stored half and the frame go out; otherwise the frame is stored. */
  lemma OneFrame(p: Pairing, f: RxFrame, rest: seq<RxFrame>)
    ensures EmittedAll(p, [f] + rest) ==
            if p.sync || f.reliable then [p.half + f.bits] + EmittedAll(Pairing(false, p.half), rest)
            else EmittedAll(Pairing(true, f.bits), rest)
    ensures PairAll(p, [f] + rest) ==
            if p.sync || f.reliable then PairAll(Pairing(false, p.half), rest) else PairAll(Pairing(true, f.bits), rest)
  {
    assert ([f] + rest)[1..] == rest;
  }

  /** Consecutive frames joined two by two; a last odd one is still waiting. */
  function Pairs(fs: seq<seq<bool>>): seq<seq<bool>>
    decreases |fs|
  {
    if |fs| < 2 then [] else [fs[0] + fs[1]] + Pairs(fs[2..])
  }

  function BitsOfFrames(fs: seq<RxFrame>): (r: seq<seq<bool>>)
    ensures |r| == |fs| && forall i :: 0 <= i < |fs| ==> r[i] == fs[i].bits
  {
    seq(|fs|, i requires 0 <= i < |fs| => fs[i].bits)
  }

  predicate Even(n: int) {
    n % 2 == 0
  }

  /** Reliable bits fall on second halves only. */
  predicate Aligned(fs: seq<RxFrame>) {
    forall i :: 0 <= i < |fs| && Even(i) ==> !fs[i].reliable
  }

  /** Once aligned, the receiver emits exactly the pairs, in order. */
  lemma {:induction false} AlignedPairs(p: Pairing, fs: seq<RxFrame>)
    requires !p.sync && Aligned(fs)
    ensures EmittedAll(p, fs) == Pairs(BitsOfFrames(fs))
    ensures PairAll(p, fs).sync == !Even(|fs|)
    decreases |fs|
  {
    if |fs| >= 2 {
      var rest := fs[2..];
      assert Even(0) && !fs[0].reliable;
      assert fs[1..][1..] == rest;
      var q := Pair(Pair(p, fs[0]), fs[1]);
      forall i | 0 <= i < |rest| && Even(i) ensures !rest[i].reliable {
        assert Even(i + 2);
      }
      AlignedPairs(q, rest);
      assert BitsOfFrames(fs)[2..] == BitsOfFrames(rest);
      assert EmittedAll(p, fs) == Emitted(p, fs[0]) + (Emitted(Pair(p, fs[0]), fs[1]) + EmittedAll(q, rest));
    } else if |fs| == 1 {
      assert Even(0) && !fs[0].reliable && fs[1..] == [];
    }
  }

  lemma {:induction false} EmittedSplit(p: Pairing, a: seq<RxFrame>, b: seq<RxFrame>)
    ensures EmittedAll(p, a + b) == EmittedAll(p, a) + EmittedAll(PairAll(p, a), b)
    ensures PairAll(p, a + b) == PairAll(PairAll(p, a), b)
    decreases |a|
  {
    if |a| == 0 {
      assert a + b == b;
    } else {
      assert (a + b)[1..] == a[1..] + b;
      EmittedSplit(Pair(p, a[0]), a[1..], b);
    }
  }

  /** From any state, once a reliable frame has arrived and later reliable bits fall only at even
      distance from it, what follows is exactly the pairs of the frames after it. */
  lemma ResyncAfterReliable(p: Pairing, before: seq<RxFrame>, lock: RxFrame, later: seq<RxFrame>)
    requires lock.reliable && Aligned(later)
    ensures EmittedAll(p, before + [lock] + later)
            == EmittedAll(p, before + [lock]) + Pairs(BitsOfFrames(later))
  {
    EmittedSplit(p, before + [lock], later);
    EmittedSplit(p, before, [lock]);
    var q := PairAll(p, before);
    assert [lock][1..] == [];
    assert PairAll(q, [lock]) == Pair(q, lock);
    AlignedPairs(Pair(q, lock), later);
  }

  /** Frames stored as first halves, and reliable bits that cut a pair short. */
  function Stores(p: Pairing, fs: seq<RxFrame>): nat
    decreases |fs|
  {
    if |fs| == 0 then 0
    else (if p.sync || fs[0].reliable then 0 else 1) + Stores(Pair(p, fs[0]), fs[1..])
  }

  function Slips(p: Pairing, fs: seq<RxFrame>): nat
    decreases |fs|
  {
    if |fs| == 0 then 0
    else (if !p.sync && fs[0].reliable then 1 else 0) + Slips(Pair(p, fs[0]), fs[1..])
  }

  function Flag(b: bool): int {
    if b then 1 else 0
  }

  /** In every run: emitted = stored + (initial sync) - (final sync) + slips. */
  lemma {:induction false} FramesAccounted(p: Pairing, fs: seq<RxFrame>)
    ensures |EmittedAll(p, fs)| == Stores(p, fs) + Flag(p.sync) - Flag(PairAll(p, fs).sync) + Slips(p, fs)
    ensures |EmittedAll(p, fs)| + Stores(p, fs) == |fs|
    decreases |fs|
  {
    if |fs| > 0 { FramesAccounted(Pair(p, fs[0]), fs[1..]); }
  }

  /** The demodulator's frame loop: the two halves of codec_bits, the sync flag and the packing. */
  class Demodulator {
    var sync: bool
    const n: nat                     // bits per modem frame
    const codecBits: array<bool>
    const packedBits: array<int>

    ghost predicate Valid() {
      codecBits.Length == 2 * n && 8 * packedBits.Length == 2 * n
    }

    ghost function Model(): Pairing
      reads this, codecBits
      requires Valid()
    {
      Pairing(sync, codecBits[..n])
    }

    constructor (n: nat, sync: bool)
      requires 2 * n % 8 == 0
      ensures Valid() && this.n == n && this.sync == sync
    {
      this.n, this.sync := n, sync;
      codecBits := new bool[2 * n];
      packedBits := new int[2 * n / 8];
    }

    method Receive(rxBits: array<bool>, reliable: bool) returns (written: seq<int>)
      requires Valid() && rxBits.Length == n && rxBits != codecBits
      modifies this`sync, codecBits, packedBits
      ensures sync == !(old(sync) || reliable)
      ensures codecBits[..n] == if old(sync) || reliable then old(codecBits[..n]) else rxBits[..]
      ensures if old(sync) || reliable
              then IsBytes(written) && Unpacked(written) == old(codecBits[..n]) + rxBits[..] else written == []
      ensures Model() == Pair(old(Model()), RxFrame(rxBits[..], reliable))
      ensures var out := Emitted(old(Model()), RxFrame(rxBits[..], reliable));
              if |out| == 0 then written == [] else |out[0]| == 2 * n && written == Packed(out[0])
    {
      written := [];
      if reliable {
        sync := true;
      }
      if !sync {
        Copy(rxBits, 0);
        sync := true;
      } else {
        ghost var half := codecBits[..n];
        Copy(rxBits, n);
        assert codecBits[..] == half + rxBits[..];
        PackBits(codecBits, packedBits);
        UnpackedPacked(codecBits[..]);
        written := packedBits[..];
        sync := false;
      }
    }

    /** memcpy of one modem frame into codec_bits at the given offset. */
    method Copy(rxBits: array<bool>, offset: nat)
      requires Valid() && rxBits.Length == n && rxBits != codecBits && (offset == 0 || offset == n)
      modifies codecBits
      ensures codecBits[offset..offset + n] == rxBits[..]
      ensures offset == n ==> codecBits[..n] == old(codecBits[..n])
    {
      for i := 0 to n
        invariant codecBits[offset..offset + i] == rxBits[..i]
        invariant offset == n ==> codecBits[..n] == old(codecBits[..n])
      {
        codecBits[offset + i] := rxBits[i];
      }
    }
  }

  // ---------------------------------------------------------------- the modulator's side

  /** The modem frames of a file: the bits of each whole codec frame of b bytes, split in two. */
  function HalfFrames(file: seq<int>, b: nat, n: nat): (r: seq<seq<bool>>)
    requires IsBytes(file) && b > 0 && 8 * b == 2 * n
    ensures forall i :: 0 <= i < |r| ==> |r[i]| == n
    ensures Even(|r|)
    decreases |file|
  {
    if |file| < b then []
    else var bits := Unpacked(file[..b]); [bits[..n], bits[n..]] + HalfFrames(file[b..], b, n)
  }

  /** The bytes written for a run of codec frames. */
  function Written(frames: seq<seq<bool>>): seq<int>
    requires forall i :: 0 <= i < |frames| ==> |frames[i]| % 8 == 0
  {
    if |frames| == 0 then [] else Packed(frames[0]) + Written(frames[1..])
  }

  lemma PairsSize(fs: seq<seq<bool>>, n: nat)
    requires forall i :: 0 <= i < |fs| ==> |fs[i]| == n
    ensures forall i :: 0 <= i < |Pairs(fs)| ==> |Pairs(fs)[i]| == 2 * n
    decreases |fs|
  {
    if |fs| >= 2 { PairsSize(fs[2..], n); }
  }

  /** Joining the halves and packing them gives the file back. */
  lemma {:induction false} HalvesRestoreFile(file: seq<int>, b: nat, n: nat)
    requires IsBytes(file) && b > 0 && 8 * b == 2 * n
    ensures var frames := Pairs(HalfFrames(file, b, n));
            && (forall i :: 0 <= i < |frames| ==> |frames[i]| % 8 == 0)
            && Written(frames) == WholeBlocks(file, b)
    decreases |file|
  {
    var halves := HalfFrames(file, b, n);
    PairsSize(halves, n);
    if |file| >= b {
      var bits, rest := Unpacked(file[..b]), HalfFrames(file[b..], b, n);
      assert halves[0] + halves[1] == bits && halves[2..] == rest;
      HalvesRestoreFile(file[b..], b, n);
      PackedUnpacked(file[..b]);
      assert Pairs(halves) == [bits] + Pairs(rest);
      assert Pairs(halves)[1..] == Pairs(rest);
    }
  }

  /** Demodulation undoes modulation on files of any length, when the frames arrive unchanged, sync
      starts clear and reliable bits come only with second halves. */
  lemma DemodulationUndoesModulation(file: seq<int>, b: nat, n: nat, p: Pairing, fs: seq<RxFrame>)
    requires IsBytes(file) && b > 0 && 8 * b == 2 * n
    requires !p.sync && Aligned(fs) && BitsOfFrames(fs) == HalfFrames(file, b, n)
    ensures var out := EmittedAll(p, fs);
            (forall i :: 0 <= i < |out| ==> |out[i]| % 8 == 0) && Written(out) == WholeBlocks(file, b)
  {
    AlignedPairs(p, fs);
    HalvesRestoreFile(file, b, n);
  }

  method ModulateFrame(packed: array<int>, n: nat) returns (first: seq<bool>, second: seq<bool>)
    requires IsBytes(packed[..]) && 8 * packed.Length == 2 * n && packed.Length > 0
    ensures |first| == |second| == n && first + second == Unpacked(packed[..])
    ensures [first, second] == HalfFrames(packed[..], packed.Length, n)
  {
    var txBits := new bool[2 * n];
    UnpackBits(packed, txBits);
    first, second := txBits[..n], txBits[n..];
    assert packed[..][..packed.Length] == packed[..];
  }
}
