/**
 The bit layout of codec2.c's frames in its six modes: which fields are packed, in which order and
 how wide, and the voicing bit that can be stolen as a spare bit.
 */
module FrameLayout {
  import opened Bits
  import opened BitPacking
  import opened FieldPacking

  datatype Mode = Mode3200 | Mode2400 | Mode1600 | Mode1400 | Mode1300 | Mode1200

  function BitsPerFrame(mode: Mode): nat {
    match mode
    case Mode3200 => 64
    case Mode2400 => 48
    case Mode1600 => 64
    case Mode1400 => 56
    case Mode1300 => 52
    case Mode1200 => 48
  }

  const WO_BITS := 7
  const E_BITS := 5
  const WO_E_BITS := 8
  const LSP_BITS: seq<nat> := [4, 4, 4, 4, 4, 4, 4, 3, 3, 2]     // lsp_bits(i)
  const LSPD_BITS: seq<nat> := [5, 5, 5, 5, 5, 5, 5, 5, 5, 5]    // lspd_bits(i)
  const LSP_VQ_BITS: seq<nat> := [9, 9, 9]                       // lsp_pred_vq_bits(i)

  /** The widths of the fields in the order the encoder packs them. */
  function Widths(mode: Mode): seq<nat> {
    match mode
    case Mode3200 => [1, 1, WO_BITS, E_BITS] + LSPD_BITS
    case Mode2400 => [1, 1, WO_E_BITS] + LSP_BITS + [2]
    case Mode1600 => [1, 1, WO_BITS, E_BITS, 1, 1, WO_BITS, E_BITS] + LSP_BITS
    case Mode1400 => [1, 1, WO_E_BITS, 1, 1, WO_E_BITS] + LSP_BITS
    case Mode1300 => [1, 1, 1, 1, WO_BITS, E_BITS] + LSP_BITS
    case Mode1200 => [1, 1, WO_E_BITS, 1, 1, WO_E_BITS] + LSP_VQ_BITS + [1]
  }

  /** The decoders of 2400 and 1200 leave the closing spare field unread. */
  function DecodedCount(mode: Mode): nat {
    if mode == Mode2400 || mode == Mode1200 then |Widths(mode)| - 1 else |Widths(mode)|
  }

  // ---------------------------------------------------------------- any layout

  predicate Fits(fields: seq<nat>, widths: seq<nat>) {
    && |fields| == |widths|
    && forall i :: 0 <= i < |widths| ==> 0 < widths[i] <= 16 && fields[i] < Pow2(widths[i])
  }

  /** The bit position of the i-th field. */
  function Offset(widths: seq<nat>, i: nat): nat
    requires i <= |widths|
  {
    if i == 0 then 0 else Offset(widths, i - 1) + widths[i - 1]
  }

  /** The bits of the first i fields. */
  function FrameBits(fields: seq<nat>, widths: seq<nat>, i: nat): (bits: seq<bool>)
    requires |fields| == |widths| && i <= |widths|
    ensures |bits| == Offset(widths, i)
  {
    if i == 0 then [] else FrameBits(fields, widths, i - 1) + FieldBits(fields[i - 1], widths[i - 1])
  }

  /** The first i fields read back. */
  function ReadFields(bits: seq<bool>, widths: seq<nat>, i: nat): (fields: seq<nat>)
    requires i <= |widths| && Offset(widths, i) <= |bits|
    ensures |fields| == i
  {
    if i == 0 then []
    else ReadFields(bits, widths, i - 1) + [Ungray(Value(bits, Offset(widths, i - 1), widths[i - 1]))]
  }

  /** The bits of a field of at most sixteen bits are read back as the field. */
  lemma FieldBack(bits: seq<bool>, c: nat, x: nat, w: nat)
    requires c + w <= |bits| && bits[c..c + w] == FieldBits(x, w) && x < Pow2(w) && w <= 16
    ensures Ungray(Value(bits, c, w)) == x
  {
    ValueOfField(bits, c, x, w);
    Pow2Mono(w, 16);
    GrayRoundTripIff(x);
  }

  lemma FieldPlace(fields: seq<nat>, widths: seq<nat>, bits: seq<bool>, i: nat)
    requires |fields| == |widths| && 0 < i <= |widths| && FrameBits(fields, widths, i) <= bits
    ensures var c, w := Offset(widths, i - 1), widths[i - 1];
            && FrameBits(fields, widths, i - 1) <= bits
            && c + w <= |bits| && bits[c..c + w] == FieldBits(fields[i - 1], w)
  {
    var c, w := Offset(widths, i - 1), widths[i - 1];
    var all := FrameBits(fields, widths, i);
    assert all[..c] == FrameBits(fields, widths, i - 1) && all[c..c + w] == FieldBits(fields[i - 1], w);
    assert bits[c..c + w] == all[c..c + w];
  }

  /** Every field that was packed is read back. */
  lemma {:induction false} LayoutRoundTrip(fields: seq<nat>, widths: seq<nat>, bits: seq<bool>, i: nat)
    requires Fits(fields, widths) && i <= |widths|
    requires FrameBits(fields, widths, i) <= bits
    ensures ReadFields(bits, widths, i) == fields[..i]
  {
    hide Ungray;
    hide Value;
    hide FieldBits;
    hide FrameBits;
    if i > 0 {
      var c, x, w := Offset(widths, i - 1), fields[i - 1], widths[i - 1];
      FieldPlace(fields, widths, bits, i);
      LayoutRoundTrip(fields, widths, bits, i - 1);
      assert Ungray(Value(bits, c, w)) == x by { FieldBack(bits, c, x, w); }
      assert fields[..i] == fields[..i - 1] + [x];
    }
  }

  lemma MergedAppends(before: seq<int>, after: seq<int>, x: nat, w: nat, c: nat)
    requires Merged(before, after, Gray(x), w, c, w) && c + w <= 8 * |before| && w > 0 && x < Pow2(w)
    requires forall k :: c <= k < 8 * |before| ==> !Unpacked(before)[k]
    ensures |after| == |before| && IsBytes(after)
    ensures Unpacked(after)[..c + w] == Unpacked(before)[..c] + FieldBits(x, w)
    ensures forall k :: c + w <= k < 8 * |before| ==> !Unpacked(after)[k]
  {
    hide Gray;
    hide Bit;
    hide Unpacked;
    hide Merged;
    hide IsBytes;
    MergedLength(before, after, Gray(x), w, c, w);
    var old_, new_ := Unpacked(before), Unpacked(after);
    forall k | 0 <= k < 8 * |before|
      ensures new_[k] == (old_[k] || (c <= k < c + w && Bit(Gray(x), w - 1 - (k - c))))
    {
      MergedBit(before, after, x, w, c, k);
    }
    assert new_[..c + w] == old_[..c] + FieldBits(x, w);
  }

  lemma MergedBit(before: seq<int>, after: seq<int>, x: nat, w: nat, c: nat, k: nat)
    requires Merged(before, after, Gray(x), w, c, w) && w > 0 && x < Pow2(w) && k < 8 * |before|
    ensures Unpacked(after)[k] == (Unpacked(before)[k] || (c <= k < c + w && Bit(Gray(x), w - 1 - (k - c))))
  {
    hide Gray;
    hide Bit;
    GrayBound(x, w);
    if c - c % 8 <= k < c { HighBits(Gray(x), w, w - 1 - (k - c)); }
    assert Bit(after[k / 8], 7 - k % 8) ==
           (Bit(before[k / 8], 7 - k % 8) || (0 < w && k < c + w && FieldBitAt(Gray(x), w, c, k)));
  }

  /** Packs the fields one after the other into a cleared buffer. */
  method Encode(fields: seq<nat>, widths: seq<nat>, bits: array<int>) returns (nbit: nat)
    requires Fits(fields, widths) && Offset(widths, |widths|) <= 8 * bits.Length
    modifies bits
    ensures nbit == Offset(widths, |widths|)
    ensures IsBytes(bits[..]) && Unpacked(bits[..])[..nbit] == FrameBits(fields, widths, |widths|)
    ensures forall k :: nbit <= k < 8 * bits.Length ==> !Unpacked(bits[..])[k]
  {
    hide Unpacked;
    hide FrameBits;
    hide Merged;
    hide IsBytes;
    Clear(bits);
    nbit := 0;
    NoFrameBits(fields, widths);
    for i := 0 to |widths|
      invariant nbit == Offset(widths, i) <= 8 * bits.Length && IsBytes(bits[..])
      invariant Unpacked(bits[..])[..nbit] == FrameBits(fields, widths, i)
      invariant forall k :: nbit <= k < 8 * bits.Length ==> !Unpacked(bits[..])[k]
    {
      OffsetMono(widths, i + 1, |widths|);
      ghost var before, c := bits[..], nbit;
      nbit := Pack(bits, nbit, fields[i], widths[i]);
      MergedAppends(before, bits[..], fields[i], widths[i], c);
      FrameBitsStep(fields, widths, i);
    }
  }

  lemma NoFrameBits(fields: seq<nat>, widths: seq<nat>)
    requires Fits(fields, widths)
    ensures FrameBits(fields, widths, 0) == []
  {
  }

  lemma FrameBitsStep(fields: seq<nat>, widths: seq<nat>, i: nat)
    requires Fits(fields, widths) && i < |widths|
    ensures FrameBits(fields, widths, i + 1) == FrameBits(fields, widths, i) + FieldBits(fields[i], widths[i])
    ensures Offset(widths, i + 1) == Offset(widths, i) + widths[i]
  {
  }

  method Clear(bits: array<int>)
    modifies bits
    ensures IsBytes(bits[..]) && forall k :: 0 <= k < 8 * bits.Length ==> !Unpacked(bits[..])[k]
  {
    for j := 0 to bits.Length
      invariant forall i :: 0 <= i < j ==> bits[i] == 0
    {
      bits[j] := 0;
    }
    forall k: nat ensures !Bit(0, k) { BitOfZero(k); }
  }

  lemma {:induction false} OffsetMono(widths: seq<nat>, i: nat, j: nat)
    requires i <= j <= |widths|
    ensures Offset(widths, i) <= Offset(widths, j)
    decreases j
  {
    if i < j { OffsetMono(widths, i, j - 1); }
  }

  /** Unpacks the first n fields. */
  method Decode(bits: array<int>, widths: seq<nat>, n: nat) returns (fields: seq<nat>, nbit: nat)
    requires IsBytes(bits[..]) && n <= |widths| && Offset(widths, n) <= 8 * bits.Length
    requires forall i :: 0 <= i < |widths| ==> widths[i] > 0
    ensures nbit == Offset(widths, n)
    ensures fields == ReadFields(Unpacked(bits[..]), widths, n)
  {
    hide Unpacked;
    hide ReadFields;
    hide Ungray;
    hide Value;
    hide IsBytes;
    ghost var all := Unpacked(bits[..]);
    fields, nbit := [], 0;
    NothingReadYet(all, widths);
    for i := 0 to n
      invariant nbit == Offset(widths, i) <= |all| && fields == ReadFields(all, widths, i)
    {
      OffsetMono(widths, i + 1, n);
      var field, cursor := Unpack(bits, nbit, widths[i]);
      ReadOneMore(all, widths, i);
      fields, nbit := fields + [field], cursor;
    }
  }

  lemma NothingReadYet(bits: seq<bool>, widths: seq<nat>)
    ensures ReadFields(bits, widths, 0) == []
  {
  }

  lemma ReadOneMore(bits: seq<bool>, widths: seq<nat>, i: nat)
    requires i < |widths| && Offset(widths, i + 1) <= |bits|
    ensures Offset(widths, i) + widths[i] == Offset(widths, i + 1)
    ensures ReadFields(bits, widths, i + 1) ==
            ReadFields(bits, widths, i) + [Ungray(Value(bits, Offset(widths, i), widths[i]))]
  {
  }

  // ---------------------------------------------------------------- the six modes

  lemma Offsets3200()
    ensures var w := Widths(Mode3200);
            && |w| == 14
            && Offset(w, 0) == 0 && Offset(w, 1) == 1 && Offset(w, 2) == 2 && Offset(w, 3) == 9
            && Offset(w, 4) == 14 && Offset(w, 5) == 19 && Offset(w, 6) == 24 && Offset(w, 7) == 29
            && Offset(w, 8) == 34 && Offset(w, 9) == 39 && Offset(w, 10) == 44 && Offset(w, 11) == 49
            && Offset(w, 12) == 54 && Offset(w, 13) == 59 && Offset(w, 14) == 64
  {
    var w := Widths(Mode3200);
    OffsetStep(w, 0); OffsetStep(w, 1); OffsetStep(w, 2); OffsetStep(w, 3); OffsetStep(w, 4); OffsetStep(w, 5);
    OffsetStep(w, 6); OffsetStep(w, 7); OffsetStep(w, 8); OffsetStep(w, 9); OffsetStep(w, 10); OffsetStep(w, 11);
    OffsetStep(w, 12); OffsetStep(w, 13);
  }

  lemma Offsets2400()
    ensures var w := Widths(Mode2400);
            && |w| == 14
            && Offset(w, 0) == 0 && Offset(w, 1) == 1 && Offset(w, 2) == 2 && Offset(w, 3) == 10
            && Offset(w, 4) == 14 && Offset(w, 5) == 18 && Offset(w, 6) == 22 && Offset(w, 7) == 26
            && Offset(w, 8) == 30 && Offset(w, 9) == 34 && Offset(w, 10) == 38 && Offset(w, 11) == 41
            && Offset(w, 12) == 44 && Offset(w, 13) == 46 && Offset(w, 14) == 48
  {
    var w := Widths(Mode2400);
    OffsetStep(w, 0); OffsetStep(w, 1); OffsetStep(w, 2); OffsetStep(w, 3); OffsetStep(w, 4); OffsetStep(w, 5);
    OffsetStep(w, 6); OffsetStep(w, 7); OffsetStep(w, 8); OffsetStep(w, 9); OffsetStep(w, 10); OffsetStep(w, 11);
    OffsetStep(w, 12); OffsetStep(w, 13);
  }

  lemma Offsets1600()
    ensures var w := Widths(Mode1600);
            && |w| == 18
            && Offset(w, 0) == 0 && Offset(w, 1) == 1 && Offset(w, 2) == 2 && Offset(w, 3) == 9
            && Offset(w, 4) == 14 && Offset(w, 5) == 15 && Offset(w, 6) == 16 && Offset(w, 7) == 23
            && Offset(w, 8) == 28 && Offset(w, 9) == 32 && Offset(w, 10) == 36 && Offset(w, 11) == 40
            && Offset(w, 12) == 44 && Offset(w, 13) == 48 && Offset(w, 14) == 52 && Offset(w, 15) == 56
            && Offset(w, 16) == 59 && Offset(w, 17) == 62 && Offset(w, 18) == 64
  {
    var w := Widths(Mode1600);
    OffsetStep(w, 0); OffsetStep(w, 1); OffsetStep(w, 2); OffsetStep(w, 3); OffsetStep(w, 4); OffsetStep(w, 5);
    OffsetStep(w, 6); OffsetStep(w, 7); OffsetStep(w, 8); OffsetStep(w, 9); OffsetStep(w, 10); OffsetStep(w, 11);
    OffsetStep(w, 12); OffsetStep(w, 13); OffsetStep(w, 14); OffsetStep(w, 15); OffsetStep(w, 16); OffsetStep(w, 17);
  }

  lemma Offsets1400()
    ensures var w := Widths(Mode1400);
            && |w| == 16
            && Offset(w, 0) == 0 && Offset(w, 1) == 1 && Offset(w, 2) == 2 && Offset(w, 3) == 10
            && Offset(w, 4) == 11 && Offset(w, 5) == 12 && Offset(w, 6) == 20 && Offset(w, 7) == 24
            && Offset(w, 8) == 28 && Offset(w, 9) == 32 && Offset(w, 10) == 36 && Offset(w, 11) == 40
            && Offset(w, 12) == 44 && Offset(w, 13) == 48 && Offset(w, 14) == 51 && Offset(w, 15) == 54
            && Offset(w, 16) == 56
  {
    var w := Widths(Mode1400);
    OffsetStep(w, 0); OffsetStep(w, 1); OffsetStep(w, 2); OffsetStep(w, 3); OffsetStep(w, 4); OffsetStep(w, 5);
    OffsetStep(w, 6); OffsetStep(w, 7); OffsetStep(w, 8); OffsetStep(w, 9); OffsetStep(w, 10); OffsetStep(w, 11);
    OffsetStep(w, 12); OffsetStep(w, 13); OffsetStep(w, 14); OffsetStep(w, 15);
  }

  lemma Offsets1300()
    ensures var w := Widths(Mode1300);
            && |w| == 16
            && Offset(w, 0) == 0 && Offset(w, 1) == 1 && Offset(w, 2) == 2 && Offset(w, 3) == 3
            && Offset(w, 4) == 4 && Offset(w, 5) == 11 && Offset(w, 6) == 16 && Offset(w, 7) == 20
            && Offset(w, 8) == 24 && Offset(w, 9) == 28 && Offset(w, 10) == 32 && Offset(w, 11) == 36
            && Offset(w, 12) == 40 && Offset(w, 13) == 44 && Offset(w, 14) == 47 && Offset(w, 15) == 50
            && Offset(w, 16) == 52
  {
    var w := Widths(Mode1300);
    OffsetStep(w, 0); OffsetStep(w, 1); OffsetStep(w, 2); OffsetStep(w, 3); OffsetStep(w, 4); OffsetStep(w, 5);
    OffsetStep(w, 6); OffsetStep(w, 7); OffsetStep(w, 8); OffsetStep(w, 9); OffsetStep(w, 10); OffsetStep(w, 11);
    OffsetStep(w, 12); OffsetStep(w, 13); OffsetStep(w, 14); OffsetStep(w, 15);
  }

  lemma Offsets1200()
    ensures var w := Widths(Mode1200);
            && |w| == 10
            && Offset(w, 0) == 0 && Offset(w, 1) == 1 && Offset(w, 2) == 2 && Offset(w, 3) == 10
            && Offset(w, 4) == 11 && Offset(w, 5) == 12 && Offset(w, 6) == 20 && Offset(w, 7) == 29
            && Offset(w, 8) == 38 && Offset(w, 9) == 47 && Offset(w, 10) == 48
  {
    var w := Widths(Mode1200);
    OffsetStep(w, 0); OffsetStep(w, 1); OffsetStep(w, 2); OffsetStep(w, 3); OffsetStep(w, 4); OffsetStep(w, 5);
    OffsetStep(w, 6); OffsetStep(w, 7); OffsetStep(w, 8); OffsetStep(w, 9);
  }

  lemma OffsetStep(widths: seq<nat>, i: nat)
    requires i < |widths|
    ensures Offset(widths, i + 1) == Offset(widths, i) + widths[i]
  {
  }

  lemma WidthsInRange(mode: Mode)
    ensures forall i :: 0 <= i < |Widths(mode)| ==> 0 < Widths(mode)[i] <= 16
  {
  }

  /** In every mode the encoder's cursor ends exactly at the advertised number of bits per frame. */
  lemma LayoutFillsFrame(mode: Mode)
    ensures Offset(Widths(mode), |Widths(mode)|) == BitsPerFrame(mode)
  {
    match mode
    case Mode3200 => Offsets3200();
    case Mode2400 => Offsets2400();
    case Mode1600 => Offsets1600();
    case Mode1400 => Offsets1400();
    case Mode1300 => Offsets1300();
    case Mode1200 => Offsets1200();
  }

  /** A frame encoded and decoded in any mode: every transmitted field comes back. */
  method Transport(mode: Mode, fields: seq<nat>) returns (frame: seq<int>, decoded: seq<nat>)
    requires Fits(fields, Widths(mode))
    ensures IsBytes(frame) && |frame| == (BitsPerFrame(mode) + 7) / 8
    ensures Unpacked(frame)[..BitsPerFrame(mode)] == FrameBits(fields, Widths(mode), |fields|)
    ensures forall k :: BitsPerFrame(mode) <= k < 8 * |frame| ==> !Unpacked(frame)[k]
    ensures mode.Mode2400? || mode.Mode1200? ==> |fields| > 0 && decoded == fields[..|fields| - 1]
    ensures !mode.Mode2400? && !mode.Mode1200? ==> decoded == fields
  {
    hide FrameBits;
    hide Unpacked;
    hide ReadFields;
    hide Offset;
    hide IsBytes;
    var widths, n := Widths(mode), DecodedCount(mode);
    LayoutFillsFrame(mode);
    WidthsInRange(mode);
    var bits := new int[(BitsPerFrame(mode) + 7) / 8];
    var nbit := Encode(fields, widths, bits);
    assert nbit == BitsPerFrame(mode);
    ghost var all := Unpacked(bits[..]);
    assert FrameBits(fields, widths, |widths|) <= all;
    OffsetMono(widths, n, |widths|);
    PrefixOfFrame(fields, widths, n, |widths|);
    LayoutRoundTrip(fields, widths, all, n);
    var last;
    decoded, last := Decode(bits, widths, n);
    frame := bits[..];
  }

  lemma {:induction false} PrefixOfFrame(fields: seq<nat>, widths: seq<nat>, i: nat, j: nat)
    requires |fields| == |widths| && i <= j <= |widths|
    ensures FrameBits(fields, widths, i) <= FrameBits(fields, widths, j)
    decreases j
  {
    if i < j { PrefixOfFrame(fields, widths, i, j - 1); }
  }

  // ---------------------------------------------------------------- where the fields lie

  /** Field x takes w bits of the frame, starting at bit from: its Gray code, top bit first, where each bit
      is the exclusive or of two neighbouring bits of x. */
  ghost predicate FieldAt(frame: seq<bool>, x: nat, from: nat, w: nat) {
    && from + w <= |frame|
    && forall k :: from <= k < from + w ==> frame[k] == (Bit(x, from + w - 1 - k) != Bit(x, from + w - k))
  }

  lemma FieldBit(x: nat, w: nat, t: nat)
    requires t < w
    ensures FieldBits(x, w)[t] == (Bit(x, w - 1 - t) != Bit(x, w - t))
  {
    assert FieldBits(x, w)[t] == Bit(Gray(x), w - 1 - t);
    XorBit(Shr(x, 1), x, w - 1 - t);
    ShrBit(x, 1, w - 1 - t);
  }

  lemma FieldInFrame(fields: seq<nat>, widths: seq<nat>, i: nat, from: nat, w: nat)
    requires |fields| == |widths| && i < |widths| && from == Offset(widths, i) && w == widths[i]
    ensures FieldAt(FrameBits(fields, widths, |widths|), fields[i], from, w)
  {
    hide FrameBits;
    hide FieldBits;
    hide Bit;
    hide Offset;
    var frame := FrameBits(fields, widths, |widths|);
    PrefixOfFrame(fields, widths, i + 1, |widths|);
    FieldPlace(fields, widths, frame, i + 1);
    forall k | from <= k < from + w
      ensures frame[k] == (Bit(fields[i], from + w - 1 - k) != Bit(fields[i], from + w - k))
    {
      assert frame[k] == frame[from..from + w][k - from];
      FieldBit(fields[i], w, k - from);
    }
  }

  lemma Layout3200(fields: seq<nat>)
    requires |fields| == 14
    ensures |Widths(Mode3200)| == 14
    ensures var frame := FrameBits(fields, Widths(Mode3200), 14);
            && |frame| == 64
            && FieldAt(frame, fields[0], 0, 1) && FieldAt(frame, fields[1], 1, 1)
            && FieldAt(frame, fields[2], 2, 7) && FieldAt(frame, fields[3], 9, 5)
            && FieldAt(frame, fields[4], 14, 5) && FieldAt(frame, fields[5], 19, 5)
            && FieldAt(frame, fields[6], 24, 5) && FieldAt(frame, fields[7], 29, 5)
            && FieldAt(frame, fields[8], 34, 5) && FieldAt(frame, fields[9], 39, 5)
            && FieldAt(frame, fields[10], 44, 5) && FieldAt(frame, fields[11], 49, 5)
            && FieldAt(frame, fields[12], 54, 5) && FieldAt(frame, fields[13], 59, 5)
  {
    hide FrameBits;
    hide FieldAt;
    hide Offset;
    var w := Widths(Mode3200);
    Offsets3200();
    FieldInFrame(fields, w, 0, 0, 1); FieldInFrame(fields, w, 1, 1, 1); FieldInFrame(fields, w, 2, 2, 7);
    FieldInFrame(fields, w, 3, 9, 5); FieldInFrame(fields, w, 4, 14, 5); FieldInFrame(fields, w, 5, 19, 5);
    FieldInFrame(fields, w, 6, 24, 5); FieldInFrame(fields, w, 7, 29, 5); FieldInFrame(fields, w, 8, 34, 5);
    FieldInFrame(fields, w, 9, 39, 5); FieldInFrame(fields, w, 10, 44, 5); FieldInFrame(fields, w, 11, 49, 5);
    FieldInFrame(fields, w, 12, 54, 5); FieldInFrame(fields, w, 13, 59, 5);
  }

  lemma Layout2400(fields: seq<nat>)
    requires |fields| == 14
    ensures |Widths(Mode2400)| == 14
    ensures var frame := FrameBits(fields, Widths(Mode2400), 14);
            && |frame| == 48
            && FieldAt(frame, fields[0], 0, 1) && FieldAt(frame, fields[1], 1, 1)
            && FieldAt(frame, fields[2], 2, 8) && FieldAt(frame, fields[3], 10, 4)
            && FieldAt(frame, fields[4], 14, 4) && FieldAt(frame, fields[5], 18, 4)
            && FieldAt(frame, fields[6], 22, 4) && FieldAt(frame, fields[7], 26, 4)
            && FieldAt(frame, fields[8], 30, 4) && FieldAt(frame, fields[9], 34, 4)
            && FieldAt(frame, fields[10], 38, 3) && FieldAt(frame, fields[11], 41, 3)
            && FieldAt(frame, fields[12], 44, 2) && FieldAt(frame, fields[13], 46, 2)
  {
    hide FrameBits;
    hide FieldAt;
    hide Offset;
    var w := Widths(Mode2400);
    Offsets2400();
    FieldInFrame(fields, w, 0, 0, 1); FieldInFrame(fields, w, 1, 1, 1); FieldInFrame(fields, w, 2, 2, 8);
    FieldInFrame(fields, w, 3, 10, 4); FieldInFrame(fields, w, 4, 14, 4); FieldInFrame(fields, w, 5, 18, 4);
    FieldInFrame(fields, w, 6, 22, 4); FieldInFrame(fields, w, 7, 26, 4); FieldInFrame(fields, w, 8, 30, 4);
    FieldInFrame(fields, w, 9, 34, 4); FieldInFrame(fields, w, 10, 38, 3); FieldInFrame(fields, w, 11, 41, 3);
    FieldInFrame(fields, w, 12, 44, 2); FieldInFrame(fields, w, 13, 46, 2);
  }

  lemma Layout1600(fields: seq<nat>)
    requires |fields| == 18
    ensures |Widths(Mode1600)| == 18
    ensures var frame := FrameBits(fields, Widths(Mode1600), 18);
            && |frame| == 64
            && FieldAt(frame, fields[0], 0, 1) && FieldAt(frame, fields[1], 1, 1)
            && FieldAt(frame, fields[2], 2, 7) && FieldAt(frame, fields[3], 9, 5)
            && FieldAt(frame, fields[4], 14, 1) && FieldAt(frame, fields[5], 15, 1)
            && FieldAt(frame, fields[6], 16, 7) && FieldAt(frame, fields[7], 23, 5)
            && FieldAt(frame, fields[8], 28, 4) && FieldAt(frame, fields[9], 32, 4)
            && FieldAt(frame, fields[10], 36, 4) && FieldAt(frame, fields[11], 40, 4)
            && FieldAt(frame, fields[12], 44, 4) && FieldAt(frame, fields[13], 48, 4)
            && FieldAt(frame, fields[14], 52, 4) && FieldAt(frame, fields[15], 56, 3)
            && FieldAt(frame, fields[16], 59, 3) && FieldAt(frame, fields[17], 62, 2)
  {
    hide FrameBits;
    hide FieldAt;
    hide Offset;
    var w := Widths(Mode1600);
    Offsets1600();
    FieldInFrame(fields, w, 0, 0, 1); FieldInFrame(fields, w, 1, 1, 1); FieldInFrame(fields, w, 2, 2, 7);
    FieldInFrame(fields, w, 3, 9, 5); FieldInFrame(fields, w, 4, 14, 1); FieldInFrame(fields, w, 5, 15, 1);
    FieldInFrame(fields, w, 6, 16, 7); FieldInFrame(fields, w, 7, 23, 5); FieldInFrame(fields, w, 8, 28, 4);
    FieldInFrame(fields, w, 9, 32, 4); FieldInFrame(fields, w, 10, 36, 4); FieldInFrame(fields, w, 11, 40, 4);
    FieldInFrame(fields, w, 12, 44, 4); FieldInFrame(fields, w, 13, 48, 4); FieldInFrame(fields, w, 14, 52, 4);
    FieldInFrame(fields, w, 15, 56, 3); FieldInFrame(fields, w, 16, 59, 3); FieldInFrame(fields, w, 17, 62, 2);
  }

  lemma Layout1400(fields: seq<nat>)
    requires |fields| == 16
    ensures |Widths(Mode1400)| == 16
    ensures var frame := FrameBits(fields, Widths(Mode1400), 16);
            && |frame| == 56
            && FieldAt(frame, fields[0], 0, 1) && FieldAt(frame, fields[1], 1, 1)
            && FieldAt(frame, fields[2], 2, 8) && FieldAt(frame, fields[3], 10, 1)
            && FieldAt(frame, fields[4], 11, 1) && FieldAt(frame, fields[5], 12, 8)
            && FieldAt(frame, fields[6], 20, 4) && FieldAt(frame, fields[7], 24, 4)
            && FieldAt(frame, fields[8], 28, 4) && FieldAt(frame, fields[9], 32, 4)
            && FieldAt(frame, fields[10], 36, 4) && FieldAt(frame, fields[11], 40, 4)
            && FieldAt(frame, fields[12], 44, 4) && FieldAt(frame, fields[13], 48, 3)
            && FieldAt(frame, fields[14], 51, 3) && FieldAt(frame, fields[15], 54, 2)
  {
    hide FrameBits;
    hide FieldAt;
    hide Offset;
    var w := Widths(Mode1400);
    Offsets1400();
    FieldInFrame(fields, w, 0, 0, 1); FieldInFrame(fields, w, 1, 1, 1); FieldInFrame(fields, w, 2, 2, 8);
    FieldInFrame(fields, w, 3, 10, 1); FieldInFrame(fields, w, 4, 11, 1); FieldInFrame(fields, w, 5, 12, 8);
    FieldInFrame(fields, w, 6, 20, 4); FieldInFrame(fields, w, 7, 24, 4); FieldInFrame(fields, w, 8, 28, 4);
    FieldInFrame(fields, w, 9, 32, 4); FieldInFrame(fields, w, 10, 36, 4); FieldInFrame(fields, w, 11, 40, 4);
    FieldInFrame(fields, w, 12, 44, 4); FieldInFrame(fields, w, 13, 48, 3); FieldInFrame(fields, w, 14, 51, 3);
    FieldInFrame(fields, w, 15, 54, 2);
  }

  lemma Layout1300(fields: seq<nat>)
    requires |fields| == 16
    ensures |Widths(Mode1300)| == 16
    ensures var frame := FrameBits(fields, Widths(Mode1300), 16);
            && |frame| == 52
            && FieldAt(frame, fields[0], 0, 1) && FieldAt(frame, fields[1], 1, 1)
            && FieldAt(frame, fields[2], 2, 1) && FieldAt(frame, fields[3], 3, 1)
            && FieldAt(frame, fields[4], 4, 7) && FieldAt(frame, fields[5], 11, 5)
            && FieldAt(frame, fields[6], 16, 4) && FieldAt(frame, fields[7], 20, 4)
            && FieldAt(frame, fields[8], 24, 4) && FieldAt(frame, fields[9], 28, 4)
            && FieldAt(frame, fields[10], 32, 4) && FieldAt(frame, fields[11], 36, 4)
            && FieldAt(frame, fields[12], 40, 4) && FieldAt(frame, fields[13], 44, 3)
            && FieldAt(frame, fields[14], 47, 3) && FieldAt(frame, fields[15], 50, 2)
  {
    hide FrameBits;
    hide FieldAt;
    hide Offset;
    var w := Widths(Mode1300);
    Offsets1300();
    FieldInFrame(fields, w, 0, 0, 1); FieldInFrame(fields, w, 1, 1, 1); FieldInFrame(fields, w, 2, 2, 1);
    FieldInFrame(fields, w, 3, 3, 1); FieldInFrame(fields, w, 4, 4, 7); FieldInFrame(fields, w, 5, 11, 5);
    FieldInFrame(fields, w, 6, 16, 4); FieldInFrame(fields, w, 7, 20, 4); FieldInFrame(fields, w, 8, 24, 4);
    FieldInFrame(fields, w, 9, 28, 4); FieldInFrame(fields, w, 10, 32, 4); FieldInFrame(fields, w, 11, 36, 4);
    FieldInFrame(fields, w, 12, 40, 4); FieldInFrame(fields, w, 13, 44, 3); FieldInFrame(fields, w, 14, 47, 3);
    FieldInFrame(fields, w, 15, 50, 2);
  }

  lemma Layout1200(fields: seq<nat>)
    requires |fields| == 10
    ensures |Widths(Mode1200)| == 10
    ensures var frame := FrameBits(fields, Widths(Mode1200), 10);
            && |frame| == 48
            && FieldAt(frame, fields[0], 0, 1) && FieldAt(frame, fields[1], 1, 1)
            && FieldAt(frame, fields[2], 2, 8) && FieldAt(frame, fields[3], 10, 1)
            && FieldAt(frame, fields[4], 11, 1) && FieldAt(frame, fields[5], 12, 8)
            && FieldAt(frame, fields[6], 20, 9) && FieldAt(frame, fields[7], 29, 9)
            && FieldAt(frame, fields[8], 38, 9) && FieldAt(frame, fields[9], 47, 1)
  {
    hide FrameBits;
    hide FieldAt;
    hide Offset;
    var w := Widths(Mode1200);
    Offsets1200();
    FieldInFrame(fields, w, 0, 0, 1); FieldInFrame(fields, w, 1, 1, 1); FieldInFrame(fields, w, 2, 2, 8);
    FieldInFrame(fields, w, 3, 10, 1); FieldInFrame(fields, w, 4, 11, 1); FieldInFrame(fields, w, 5, 12, 8);
    FieldInFrame(fields, w, 6, 20, 9); FieldInFrame(fields, w, 7, 29, 9); FieldInFrame(fields, w, 8, 38, 9);
    FieldInFrame(fields, w, 9, 47, 1);
  }

  // ---------------------------------------------------------------- the spare bit

  /** codec2_get_spare_bit_index */
  function SpareBitIndex(mode: Mode): int {
    match mode
    case Mode1300 => 2
    case Mode1400 => 10
    case Mode1600 => 15
    case _ => -1
  }

  /** codec2_rebuild_spare_bit, on the unpacked bits of a frame. */
  function Rebuilt(mode: Mode, b: seq<bool>): seq<bool>
    requires |b| == BitsPerFrame(mode)
  {
    match mode
    case Mode1300 => b[2 := b[1] || b[1 + 1 + 1]]
    case Mode1400 => b[10 := b[1] || b[1 + 1 + 8 + 1]]
    case Mode1600 => b[15 := b[1] || b[1 + 1 + 8 + 5 + 1]]
    case _ => b
  }

  method RebuildSpareBit(mode: Mode, bits: array<bool>) returns (status: int)
    requires bits.Length == BitsPerFrame(mode)
    modifies bits
    ensures bits[..] == Rebuilt(mode, old(bits[..]))
    ensures forall k :: 0 <= k < bits.Length && k != SpareBitIndex(mode) ==> bits[k] == old(bits[k])
    ensures if mode.Mode1300? || mode.Mode1400? || mode.Mode1600?
            then 0 <= SpareBitIndex(mode) < bits.Length && status == 0 else SpareBitIndex(mode) == -1 == status
  {
    var v1 := bits[1];
    if mode == Mode1300 {
      bits[2] := v1 || bits[3];
      return 0;
    } else if mode == Mode1400 {
      bits[10] := v1 || bits[11];
      return 0;
    } else if mode == Mode1600 {
      bits[15] := v1 || bits[16];
      return 0;
    }
    status := -1;
  }

  lemma OneBitField(v: nat)
    requires v < 2
    ensures FieldBits(v, 1) == [v == 1]
  {
    assert Shr(v, 1) == 0;
    XorZero(v);
    assert FieldBits(v, 1)[0] == Bit(Gray(v), 0);
  }

  /** Changing a one-bit field changes its bit of the frame and no other. */
  lemma {:induction false} SetOneBitField(fields: seq<nat>, widths: seq<nat>, f: nat, v: nat, n: nat)
    requires |fields| == |widths| && f < n <= |widths| && widths[f] == 1 && v < 2
    ensures Offset(widths, f) < Offset(widths, n)
    ensures FrameBits(fields[f := v], widths, n) == FrameBits(fields, widths, n)[Offset(widths, f) := v == 1]
  {
    var changed, p := fields[f := v], Offset(widths, f);
    if n == f + 1 {
      OneBitField(v);
      SameBefore(fields, widths, f, v, f);
    } else {
      SetOneBitField(fields, widths, f, v, n - 1);
      var head, tail := FrameBits(fields, widths, n - 1), FieldBits(fields[n - 1], widths[n - 1]);
      assert (head + tail)[p := v == 1] == head[p := v == 1] + tail;
    }
  }

  lemma {:induction false} SameBefore(fields: seq<nat>, widths: seq<nat>, f: nat, v: nat, n: nat)
    requires |fields| == |widths| && n <= f < |widths|
    ensures FrameBits(fields[f := v], widths, n) == FrameBits(fields, widths, n)
  {
    if n > 0 { SameBefore(fields, widths, f, v, n - 1); }
  }

  lemma {:induction false} FirstBitOfField(fields: seq<nat>, widths: seq<nat>, f: nat, n: nat)
    requires |fields| == |widths| && f < n <= |widths| && widths[f] > 0
    ensures Offset(widths, f) < Offset(widths, n)
    ensures FrameBits(fields, widths, n)[Offset(widths, f)] == FieldBits(fields[f], widths[f])[0]
  {
    if n > f + 1 { FirstBitOfField(fields, widths, f, n - 1); }
  }

  function Voicing(b: bool): nat {
    if b then 1 else 0
  }

  /** In modes 1300 and 1400 the index names the third voicing bit, and rebuilding sets exactly that
      field, to voiced when a neighbouring frame is voiced. */
  lemma SpareBitRestoresThirdVoicing(mode: Mode, fields: seq<nat>)
    requires mode == Mode1300 || mode == Mode1400
    requires Fits(fields, Widths(mode))
    ensures var third := if mode == Mode1300 then 2 else 3;
            var n := |Widths(mode)|;
            && third + 1 < n
            && Offset(Widths(mode), third) == SpareBitIndex(mode)
            && |FrameBits(fields, Widths(mode), n)| == BitsPerFrame(mode)
            && Rebuilt(mode, FrameBits(fields, Widths(mode), n))
               == FrameBits(fields[third := Voicing(fields[1] == 1 || fields[third + 1] == 1)], Widths(mode), n)
  {
    var w := Widths(mode);
    var n, third := |w|, if mode == Mode1300 then 2 else 3;
    LayoutFillsFrame(mode);
    Offsets1300();
    Offsets1400();
    OffsetStep(w, 0);
    assert w[1] == w[third] == w[third + 1] == 1;
    VoicingBit(fields, w, 1, n);
    VoicingBit(fields, w, third + 1, n);
    SetOneBitField(fields, w, third, Voicing(fields[1] == 1 || fields[third + 1] == 1), n);
  }

  lemma VoicingBit(fields: seq<nat>, widths: seq<nat>, f: nat, n: nat)
    requires Fits(fields, widths) && f < n <= |widths| && widths[f] == 1
    ensures Offset(widths, f) < Offset(widths, n)
    ensures FrameBits(fields, widths, n)[Offset(widths, f)] == (fields[f] == 1)
  {
    FirstBitOfField(fields, widths, f, n);
    assert Pow2(1) == 2;
    OneBitField(fields[f]);
  }

  lemma TopBitOfField(x: nat, w: nat)
    requires w > 0 && x < Pow2(w)
    ensures FieldBits(x, w)[0] == (x >= Pow2(w - 1))
  {
    assert FieldBits(x, w)[0] == Bit(Gray(x), w - 1);
    XorBit(Shr(x, 1), x, w - 1);
    ShrBit(x, 1, w - 1);
    HighBits(x, w, w);
    TopBitSet(x, w - 1);
  }

  /** In mode 1600 the third voicing bit is bit 14, not the coded 15, which is the fourth: rebuilding
      leaves the third alone and overwrites the fourth from the second one and the top pitch bit. */
  lemma SpareBit1600HitsFourthVoicing(fields: seq<nat>)
    requires Fits(fields, Widths(Mode1600))
    ensures var w := Widths(Mode1600);
            && Offset(w, 4) == 14 && Offset(w, 5) == SpareBitIndex(Mode1600) == 15
            && |w| == 18 && |FrameBits(fields, w, 18)| == BitsPerFrame(Mode1600)
            && Rebuilt(Mode1600, FrameBits(fields, w, 18))
               == FrameBits(fields[5 := Voicing(fields[1] == 1 || fields[6] >= 64)], w, 18)
  {
    var w := Widths(Mode1600);
    Offsets1600();
    OffsetStep(w, 0);
    assert w[1] == w[5] == 1 && w[6] == 7;
    VoicingBit(fields, w, 1, 18);
    FirstBitOfField(fields, w, 6, 18);
    assert Pow2(6) == 64;
    TopBitOfField(fields[6], 7);
    SetOneBitField(fields, w, 5, Voicing(fields[1] == 1 || fields[6] >= 64), 18);
  }

  /** A 1600 frame of silence but for its second voicing bit: the rebuild should set the third, and sets
      the fourth. */
  lemma SpareBit1600Witness(fields: seq<nat>)
    requires |fields| == 18 && fields[1] == 1 && forall i :: 0 <= i < 18 && i != 1 ==> fields[i] == 0
    ensures var w := Widths(Mode1600);
            && Fits(fields, w) && |FrameBits(fields, w, 18)| == BitsPerFrame(Mode1600)
            && Rebuilt(Mode1600, FrameBits(fields, w, 18)) == FrameBits(fields[5 := 1], w, 18)
            && Rebuilt(Mode1600, FrameBits(fields, w, 18)) != FrameBits(fields[4 := 1], w, 18)
  {
    hide FrameBits;
    hide Rebuilt;
    WitnessFits(fields);
    SpareBit1600HitsFourthVoicing(fields);
    SpareBit1600WorksIff(fields);
  }

  lemma WitnessFits(fields: seq<nat>)
    requires |fields| == 18 && fields[1] == 1 && forall i :: 0 <= i < 18 && i != 1 ==> fields[i] == 0
    ensures Fits(fields, Widths(Mode1600))
  {
    var w := Widths(Mode1600);
    assert w[1] == 1;
    forall i | 0 <= i < 18 ensures fields[i] < Pow2(w[i]) {
      if i == 1 { assert Pow2(1) == 2; }
    }
  }

  /** So the rebuilt frame decodes as intended exactly when both voicing fields already agree. */
  lemma SpareBit1600WorksIff(fields: seq<nat>)
    requires Fits(fields, Widths(Mode1600))
    ensures var w := Widths(Mode1600);
            && |w| == 18 && |FrameBits(fields, w, 18)| == BitsPerFrame(Mode1600)
            && (Rebuilt(Mode1600, FrameBits(fields, w, 18))
                == FrameBits(fields[4 := Voicing(fields[1] == 1 || fields[5] == 1)], w, 18)
                <==> fields[4] == Voicing(fields[1] == 1 || fields[5] == 1)
                     && fields[5] == Voicing(fields[1] == 1 || fields[6] >= 64))
  {
    var w := Widths(Mode1600);
    SpareBit1600HitsFourthVoicing(fields);
    var v4, v5 := Voicing(fields[1] == 1 || fields[5] == 1), Voicing(fields[1] == 1 || fields[6] >= 64);
    var wanted, got := fields[4 := v4], fields[5 := v5];
    assert w[4] == w[5] == 1 && Pow2(1) == 2;
    VoicingBit(wanted, w, 4, 18);
    VoicingBit(wanted, w, 5, 18);
    VoicingBit(got, w, 4, 18);
    VoicingBit(got, w, 5, 18);
    if fields[4] == v4 && fields[5] == v5 {
      assert wanted == fields == got;
    }
  }
}
