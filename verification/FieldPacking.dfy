/**
 The bit field packer of pack.c: Gray coding, and fields written into and read from a byte string
 slice by slice at a moving bit cursor.
 */
module FieldPacking {
  import opened Bits
  import opened BitPacking

  // ---------------------------------------------------------------- Gray code

  /** x added to itself shifted right. */
  function Fold(x: nat, n: nat): nat {
    Xor(x, Shr(x, n))
  }

  /** (field >> 1) ^ field */
  function Gray(x: nat): nat {
    Xor(Shr(x, 1), x)
  }

  /** The decoder's folding steps, by n, n / 2, ... 1. */
  function Unfold(g: nat, n: nat): nat
    decreases n
  {
    if n == 0 then g else Unfold(Fold(g, n), n / 2)
  }

  function Ungray(g: nat): nat {
    Unfold(g, 8)
  }

  lemma UngraySteps(g: nat)
    ensures Ungray(g) == Fold(Fold(Fold(Fold(g, 8), 4), 2), 1)
  {
    var a := Fold(g, 8);
    var b := Fold(a, 4);
    var c := Fold(b, 2);
    assert Unfold(g, 8) == Unfold(a, 4);
    assert Unfold(a, 4) == Unfold(b, 2);
    assert Unfold(b, 2) == Unfold(c, 1);
    assert Unfold(c, 1) == Unfold(Fold(c, 1), 0);
  }

  lemma FoldBit(x: nat, n: nat, k: nat)
    ensures Bit(Fold(x, n), k) == (Bit(x, k) != Bit(x, k + n))
  {
    XorBit(x, Shr(x, n), k);
    ShrBit(x, n, k);
  }

  lemma FoldsCommute(x: nat, m: nat, n: nat)
    ensures Fold(Fold(x, m), n) == Fold(Fold(x, n), m)
  {
    forall k: nat ensures Bit(Fold(Fold(x, m), n), k) == Bit(Fold(Fold(x, n), m), k) {
      FoldBit(Fold(x, m), n, k);
      FoldBit(x, m, k);
      FoldBit(x, m, k + n);
      FoldBit(Fold(x, n), m, k);
      FoldBit(x, n, k);
      FoldBit(x, n, k + m);
    }
    SameBits(Fold(Fold(x, m), n), Fold(Fold(x, n), m));
  }

  /** Folding twice by n folds once by 2n: the cross terms cancel. */
  lemma FoldTwice(x: nat, n: nat)
    ensures Fold(Fold(x, n), n) == Fold(x, 2 * n)
  {
    forall k: nat ensures Bit(Fold(Fold(x, n), n), k) == Bit(Fold(x, 2 * n), k) {
      FoldBit(Fold(x, n), n, k);
      FoldBit(x, n, k);
      FoldBit(x, n, k + n);
      FoldBit(x, 2 * n, k);
    }
    SameBits(Fold(Fold(x, n), n), Fold(x, 2 * n));
  }

  /** Decoding a Gray code folds the value once by sixteen bits ... */
  lemma UngrayGray(x: nat)
    ensures Ungray(Gray(x)) == Fold(x, 16)
  {
    XorComm(Shr(x, 1), x);
    UngraySteps(Gray(x));
    FoldsCommute(x, 1, 8);
    FoldsCommute(Fold(x, 8), 1, 4);
    FoldsCommute(Fold(Fold(x, 8), 4), 1, 2);
    var b := Fold(Fold(Fold(x, 8), 4), 2);
    assert Ungray(Gray(x)) == Fold(Fold(b, 1), 1);
    FoldTwice(b, 1);
    FoldTwice(Fold(Fold(x, 8), 4), 2);
    FoldTwice(Fold(x, 8), 4);
    FoldTwice(x, 8);
  }

  /** ... so it restores the value exactly when that fits in sixteen bits. */
  lemma GrayRoundTripIff(x: nat)
    ensures Ungray(Gray(x)) == x <==> x < Pow2(16)
  {
    hide Xor;
    hide Shr;
    hide Bit;
    hide Gray;
    hide Ungray;
    UngrayGray(x);
    var high := Shr(x, 16);
    XorComm(x, high);
    XorCancel(high, x);
    XorZero(x);
    if high == 0 {
      forall k | k >= 16 ensures !Bit(x, k) {
        ShrBit(x, 16, k - 16);
        BitOfZero(k - 16);
      }
      BitsBound(x, 16);
    } else {
      var k := TopBit(high);
      ShrBit(x, 16, k);
      if x < Pow2(16) { HighBits(x, 16, k + 16); }
      if Xor(x, high) == x { XorSelf(x); }
    }
  }

  lemma GrayBound(x: nat, w: nat)
    requires x < Pow2(w)
    ensures Gray(x) < Pow2(w)
  {
    assert Shr(x, 1) == x / 2;
    XorBound(x / 2, x, w);
  }

  /** The bits a field occupies: its Gray code, most significant bit first. */
  function FieldBits(x: nat, w: nat): (bits: seq<bool>)
    ensures |bits| == w
  {
    seq(w, j requires 0 <= j < w => Bit(Gray(x), w - 1 - j))
  }

  // ---------------------------------------------------------------- writing a field

  /** The byte a slice of s bits of g contributes: (g >> (fw - s)) << (left - s), cut to eight bits. */
  function Slice(g: nat, fw: nat, left: nat, s: nat): nat
    requires s <= fw && s <= left
  {
    Shl(Shr(g, fw - s), left - s) % 256
  }

  lemma SplitByte(x: nat, n: nat)
    requires n == 8
    ensures x == Shl(Shr(x, n), n) + x % 256 && Pow2(n) == 256
  {
    var d := Shr(x, n);
    var low := SplitAt(x, n);
    ByteShift(d, n);
    assert x == 256 * d + low;
  }

  lemma ByteShift(d: nat, n: nat)
    requires n == 8
    ensures Shl(d, n) == 256 * d && Pow2(n) == 256
  {
    assert Shl(d, 1) == 2 * d && Pow2(1) == 2;
    assert Shl(d, 2) == 4 * d && Pow2(2) == 4;
    assert Shl(d, 3) == 8 * d && Pow2(3) == 8;
    assert Shl(d, 4) == 16 * d && Pow2(4) == 16;
    assert Shl(d, 5) == 32 * d && Pow2(5) == 32;
    assert Shl(d, 6) == 64 * d && Pow2(6) == 64;
    assert Shl(d, 7) == 128 * d && Pow2(7) == 128;
  }

  lemma Mod256Bit(x: nat, k: nat)
    ensures Bit(x % 256, k) == (k < 8 && Bit(x, k))
  {
    var n := 8;
    var d, low := Shr(x, n), x % 256;
    SplitByte(x, n);
    AddBits(d, low, n, k);
    if k >= n { HighBits(low, n, k); }
  }

  lemma BitUnfold(x: nat, k: nat)
    ensures Bit(x, k) == if k == 0 then x % 2 == 1 else Bit(x / 2, k - 1)
  {
  }

  lemma {:induction false} AddBits(d: nat, low: nat, n: nat, k: nat)
    requires low < Pow2(n)
    ensures Bit(Shl(d, n) + low, k) == if k < n then Bit(low, k) else Bit(d, k - n)
  {
    if n > 0 {
      var rest := Shl(d, n - 1);
      assert Pow2(n) == 2 * Pow2(n - 1) && Shl(d, n) + low == 2 * rest + low;
      BitUnfold(2 * rest + low, k);
      BitUnfold(low, k);
      if k > 0 { AddBits(d, low / 2, n - 1, k - 1); }
    }
  }

  lemma SliceBit(g: nat, fw: nat, left: nat, s: nat, t: nat)
    requires s <= fw && s <= left <= 8
    ensures Bit(Slice(g, fw, left, s), t) == (left - s <= t < 8 && Bit(g, fw - left + t))
    ensures Slice(g, fw, left, s) < 256
  {
    Mod256Bit(Shl(Shr(g, fw - s), left - s), t);
    ShlBit(Shr(g, fw - s), left - s, t);
    if t >= left - s { ShrBit(g, fw - s, t - (left - s)); }
  }

  /** bits[k] after a field of width w has been or-ed in at the cursor c. */
  predicate FieldBitAt(g: nat, w: nat, c: int, k: int) {
    c - c % 8 <= k < c + w && Bit(g, w - 1 - (k - c))
  }

  /** The bytes hold the old bits with the first done bits of the field g or-ed in at cursor c; bits of g
      beyond its width end up before the cursor, as far as the start of its byte. */
  predicate Merged(old_: seq<int>, new_: seq<int>, g: nat, w: nat, c: nat, done: nat) {
    && |new_| == |old_| && IsBytes(old_) && IsBytes(new_) && done <= w
    && forall k :: 0 <= k < 8 * |old_| ==>
         Bit(new_[k / 8], 7 - k % 8) ==
         (Bit(old_[k / 8], 7 - k % 8) || (0 < done && k < c + done && FieldBitAt(g, w, c, k)))
  }

  lemma OrByte(x: nat, y: nat)
    requires x < 256 && y < 256
    ensures Or(x, y) < 256
  {
    assert Pow2(8) == 256;
    forall k | k >= 8 ensures !Bit(Or(x, y), k) {
      OrBit(x, y, k);
      HighBits(x, 8, k);
      HighBits(y, 8, k);
    }
    BitsBound(Or(x, y), 8);
  }

  /** One turn of the loop: the next slice goes into the byte under the cursor and nowhere else. */
  lemma MergeSlice(before: seq<int>, now: seq<int>, g: nat, w: nat, c: nat, done: nat, s: nat)
    requires Merged(before, now, g, w, c, done) && c + w <= 8 * |before| && done < w
    requires s == (if 8 - (c + done) % 8 < w - done then 8 - (c + done) % 8 else w - done)
    requires done == 0 || (c + done) % 8 == 0
    ensures var at := (c + done) / 8;
            var next := now[at := Or(now[at], Slice(g, w - done, 8 - (c + done) % 8, s))];
            Merged(before, next, g, w, c, done + s)
  {
    hide Or;
    hide Slice;
    hide Bit;
    var p := c + done;
    var at, left, fw := p / 8, 8 - p % 8, w - done;
    var y := Slice(g, fw, left, s);
    SliceBit(g, fw, left, s, 0);
    OrByte(now[at], y);
    var next := now[at := Or(now[at], y)];
    forall k | 0 <= k < 8 * |before|
      ensures Bit(next[k / 8], 7 - k % 8) == (Bit(before[k / 8], 7 - k % 8) || (k < p + s && FieldBitAt(g, w, c, k)))
    {
      assert Bit(now[k / 8], 7 - k % 8) ==
             (Bit(before[k / 8], 7 - k % 8) || (0 < done && k < p && FieldBitAt(g, w, c, k)));
      if k / 8 == at {
        var t := 7 - k % 8;
        OrBit(now[at], y, t);
        SliceBit(g, fw, left, s, t);
        SlicePosition(g, w, c, done, s, k);
      }
    }
  }

  lemma SlicePosition(g: nat, w: nat, c: nat, done: nat, s: nat, k: nat)
    requires done < w && k / 8 == (c + done) / 8
    requires s == (if 8 - (c + done) % 8 < w - done then 8 - (c + done) % 8 else w - done)
    requires done == 0 || (c + done) % 8 == 0
    ensures var left, t := 8 - (c + done) % 8, 7 - k % 8;
            (left - s <= t && Bit(g, w - done - left + t)) ==
            ((done == 0 || c + done <= k) && k < c + done + s && FieldBitAt(g, w, c, k))
  {
    hide Bit;
    var p, t := c + done, 7 - k % 8;
    var left := 8 - p % 8;
    assert w - done - left + t == w - 1 - (k - c);
  }

  lemma NothingMerged(before: seq<int>, g: nat, w: nat, c: nat)
    requires IsBytes(before)
    ensures Merged(before, before, g, w, c, 0)
  {
    hide Bit;
    hide FieldBitAt;
  }

  lemma MergedLength(before: seq<int>, now: seq<int>, g: nat, w: nat, c: nat, done: nat)
    requires Merged(before, now, g, w, c, done)
    ensures |now| == |before| && IsBytes(now) && IsBytes(before)
  {
    hide Bit;
    hide FieldBitAt;
  }

  /** pack: ors the Gray code of field into the byte string so that its last w bits lie at the cursor, and
      moves the cursor past them. */
  method Pack(bitArray: array<int>, bitIndex: nat, field: nat, fieldWidth: nat) returns (cursor: nat)
    requires IsBytes(bitArray[..]) && fieldWidth > 0
    requires bitIndex + fieldWidth <= 8 * bitArray.Length
    modifies bitArray
    ensures cursor == bitIndex + fieldWidth
    ensures Merged(old(bitArray[..]), bitArray[..], Gray(field), fieldWidth, bitIndex, fieldWidth)
  {
    hide Merged;
    hide Xor;
    hide Or;
    hide Shl;
    hide Shr;
    hide Bit;
    ghost var before := bitArray[..];
    var g := Xor(Shr(field, 1), field);
    NothingMerged(before, g, fieldWidth, bitIndex);
    cursor := bitIndex;
    var fw := fieldWidth;
    while true
      invariant 0 < fw <= fieldWidth && cursor == bitIndex + (fieldWidth - fw)
      invariant Merged(before, bitArray[..], g, fieldWidth, bitIndex, fieldWidth - fw)
      invariant fw == fieldWidth || cursor % 8 == 0
      decreases fw
    {
      var bitsLeft := 8 - cursor % 8;
      var sliceWidth := if bitsLeft < fw then bitsLeft else fw;
      var wordIndex := cursor / 8;
      MergedLength(before, bitArray[..], g, fieldWidth, bitIndex, fieldWidth - fw);
      MergeSlice(before, bitArray[..], g, fieldWidth, bitIndex, fieldWidth - fw, sliceWidth);
      assert 0 <= bitArray[wordIndex] by { assert IsBytes(bitArray[..]); }
      bitArray[wordIndex] := Or(bitArray[wordIndex], Shl(Shr(g, fw - sliceWidth), bitsLeft - sliceWidth) % 256);
      cursor := cursor + sliceWidth;
      fw := fw - sliceWidth;
      if fw == 0 { break; }
    }
  }

  // ---------------------------------------------------------------- reading a field

  /** The bits of r above the last fw are those read so far; the rest are clear. */
  ghost predicate ReadSoFar(bits: seq<bool>, r: nat, w: nat, c: nat, fw: nat)
    requires c + w <= |bits| && fw <= w
  {
    forall t: nat :: Bit(r, t) == (fw <= t < w && bits[c + (w - 1 - t)])
  }

  lemma NothingRead(bits: seq<bool>, w: nat, c: nat)
    requires c + w <= |bits|
    ensures ReadSoFar(bits, 0, w, c, w)
  {
    forall t: nat ensures !Bit(0, t) { BitOfZero(t); }
  }

  /** Bit t of what a slice of s bits adds to the value. */
  lemma PieceBit(byte: nat, left: nat, s: nat, low: nat, t: nat)
    requires s <= left
    ensures var piece := And(Shr(byte, left - s), Pow2(s) - 1);
            Bit(Shl(piece, low), t) == (low <= t < low + s && Bit(byte, t - low + left - s))
  {
    hide And;
    hide Shl;
    hide Shr;
    hide Bit;
    var piece := And(Shr(byte, left - s), Pow2(s) - 1);
    ShlBit(piece, low, t);
    if t >= low {
      AndBit(Shr(byte, left - s), Pow2(s) - 1, t - low);
      MaskBit(s, t - low);
      ShrBit(byte, left - s, t - low);
    }
  }

  lemma SliceIndex(c: nat, w: nat, fw: nat, s: nat, t: nat)
    requires fw <= w && fw - s <= t < fw
    requires s == var p := c + (w - fw); if 8 - p % 8 < fw then 8 - p % 8 else fw
    ensures var p, k := c + (w - fw), c + (w - 1 - t);
            k / 8 == p / 8 && 7 - k % 8 == t - (fw - s) + (8 - p % 8) - s
  {
    var p, k := c + (w - fw), c + (w - 1 - t);
    assert k == p + (fw - 1 - t);
  }

  lemma ReadSlice(byte: nat, bits: seq<bool>, r: nat, w: nat, c: nat, fw: nat, s: nat)
    requires c + w <= |bits| && 0 < fw <= w && ReadSoFar(bits, r, w, c, fw)
    requires var p := c + (w - fw);
             && s == (if 8 - p % 8 < fw then 8 - p % 8 else fw)
             && forall k :: 0 <= k < |bits| && k / 8 == p / 8 ==> bits[k] == Bit(byte, 7 - k % 8)
    ensures var left := 8 - (c + (w - fw)) % 8;
            ReadSoFar(bits, Or(r, Shl(And(Shr(byte, left - s), Pow2(s) - 1), fw - s)), w, c, fw - s)
  {
    hide Or;
    hide And;
    hide Shl;
    hide Shr;
    hide Bit;
    var left := 8 - (c + (w - fw)) % 8;
    var more := Shl(And(Shr(byte, left - s), Pow2(s) - 1), fw - s);
    forall t: nat ensures Bit(Or(r, more), t) == (fw - s <= t < w && bits[c + (w - 1 - t)]) {
      OrBit(r, more, t);
      PieceBit(byte, left, s, fw - s, t);
      if fw - s <= t < fw {
        SliceIndex(c, w, fw, s, t);
      }
    }
  }

  lemma ReadComplete(bits: seq<bool>, r: nat, w: nat, c: nat)
    requires c + w <= |bits| && ReadSoFar(bits, r, w, c, 0)
    ensures r == Value(bits, c, w)
  {
    var v := Value(bits, c, w);
    forall t: nat ensures Bit(r, t) == Bit(v, t) {
      if t < w { ValueBit(bits, c, w, w - 1 - t); } else { HighBits(v, w, t); }
    }
    SameBits(r, v);
  }

  /** unpack: reads w bits at the cursor, converts them from Gray code and moves the cursor. */
  method Unpack(bitArray: array<int>, bitIndex: nat, fieldWidth: nat) returns (field: nat, cursor: nat)
    requires IsBytes(bitArray[..]) && fieldWidth > 0 && bitIndex + fieldWidth <= 8 * bitArray.Length
    ensures cursor == bitIndex + fieldWidth
    ensures field == Ungray(Value(Unpacked(bitArray[..]), bitIndex, fieldWidth))
  {
    hide Or;
    hide And;
    hide Shl;
    hide Shr;
    hide Xor;
    hide Bit;
    hide Value;
    hide ReadSoFar;
    ghost var bits := Unpacked(bitArray[..]);
    field := 0;
    cursor := bitIndex;
    var fw := fieldWidth;
    NothingRead(bits, fieldWidth, bitIndex);
    while true
      invariant 0 < fw <= fieldWidth && cursor == bitIndex + (fieldWidth - fw)
      invariant ReadSoFar(bits, field, fieldWidth, bitIndex, fw)
      decreases fw
    {
      var bitsLeft := 8 - cursor % 8;
      var sliceWidth := if bitsLeft < fw then bitsLeft else fw;
      ReadSlice(bitArray[cursor / 8], bits, field, fieldWidth, bitIndex, fw, sliceWidth);
      field := Or(field, Shl(And(Shr(bitArray[cursor / 8], bitsLeft - sliceWidth), Pow2(sliceWidth) - 1),
                             fw - sliceWidth));
      cursor := cursor + sliceWidth;
      fw := fw - sliceWidth;
      if fw == 0 { break; }
    }
    ReadComplete(bits, field, fieldWidth, bitIndex);
    UngraySteps(field);
    var t := Xor(field, Shr(field, 8));
    t := Xor(t, Shr(t, 4));
    t := Xor(t, Shr(t, 2));
    t := Xor(t, Shr(t, 1));
    field := t;
  }

  /** Reading back the bits of a field gives its Gray code. */
  lemma ValueOfField(bits: seq<bool>, c: nat, x: nat, w: nat)
    requires c + w <= |bits| && bits[c..c + w] == FieldBits(x, w) && x < Pow2(w)
    ensures Value(bits, c, w) == Gray(x)
  {
    var v := Value(bits, c, w);
    GrayBound(x, w);
    forall t: nat ensures Bit(v, t) == Bit(Gray(x), t) {
      if t < w {
        ValueBit(bits, c, w, w - 1 - t);
        assert bits[c + (w - 1 - t)] == bits[c..c + w][w - 1 - t];
      } else {
        HighBits(v, w, t);
        HighBits(Gray(x), w, t);
      }
    }
    SameBits(v, Gray(x));
  }
}
