/**
 Conversion between bytes and individual bits, most significant bit first, as the modem tools do it
 with a running bit and byte counter.  A byte is a number below 256.
 */
module BitPacking {
  import opened Bits

  predicate IsBytes(bytes: seq<int>) {
    forall j :: 0 <= j < |bytes| ==> 0 <= bytes[j] < 256
  }

  /** The bits of a byte string, most significant bit of each byte first. */
  function Unpacked(bytes: seq<int>): (bits: seq<bool>)
    requires IsBytes(bytes)
    ensures |bits| == 8 * |bytes|
    ensures forall i :: 0 <= i < |bits| ==> bits[i] == Bit(bytes[i / 8], 7 - i % 8)
  {
    seq(8 * |bytes|, i requires 0 <= i < 8 * |bytes| => Bit(bytes[i / 8], 7 - i % 8))
  }

  /** The value of bits[from .. from + n] read as a binary number. */
  function Value(bits: seq<bool>, from: nat, n: nat): (v: nat)
    requires from + n <= |bits|
    ensures v < Pow2(n)
  {
    if n == 0 then 0 else 2 * Value(bits, from, n - 1) + if bits[from + n - 1] then 1 else 0
  }

  lemma {:induction false} ValueBit(bits: seq<bool>, from: nat, n: nat, k: nat)
    requires from + n <= |bits| && k < n
    ensures Bit(Value(bits, from, n), n - 1 - k) == bits[from + k]
  {
    if k < n - 1 { ValueBit(bits, from, n - 1, k); }
  }

  /** The byte string holding the given bits. */
  function Packed(bits: seq<bool>): (bytes: seq<int>)
    requires |bits| % 8 == 0
    ensures |bytes| == |bits| / 8
  {
    seq(|bits| / 8, j requires 0 <= j < |bits| / 8 => Value(bits, 8 * j, 8))
  }

  lemma PackedIsBytes(bits: seq<bool>)
    requires |bits| % 8 == 0
    ensures IsBytes(Packed(bits))
  {
    assert Pow2(8) == 256;
  }

  lemma UnpackedPacked(bits: seq<bool>)
    requires |bits| % 8 == 0
    ensures IsBytes(Packed(bits)) && Unpacked(Packed(bits)) == bits
  {
    PackedIsBytes(bits);
    forall i | 0 <= i < |bits| ensures Unpacked(Packed(bits))[i] == bits[i] {
      ValueBit(bits, 8 * (i / 8), 8, i % 8);
    }
  }

  /** A byte is determined by its eight bits. */
  lemma SameByte(a: nat, b: nat)
    requires a < 256 && b < 256
    requires forall k :: 0 <= k < 8 ==> Bit(a, k) == Bit(b, k)
    ensures a == b
  {
    assert Pow2(8) == 256;
    forall k: nat ensures Bit(a, k) == Bit(b, k) {
      if k >= 8 {
        HighBits(a, 8, k);
        HighBits(b, 8, k);
      }
    }
    SameBits(a, b);
  }

  /** A byte string is determined by its bits ... */
  lemma UnpackedInjective(a: seq<int>, b: seq<int>)
    requires IsBytes(a) && IsBytes(b) && Unpacked(a) == Unpacked(b)
    ensures a == b
  {
    assert |Unpacked(a)| == 8 * |a| && |Unpacked(b)| == 8 * |b|;
    forall j | 0 <= j < |a| ensures a[j] == b[j] {
      forall k | 0 <= k < 8 ensures Bit(a[j], k) == Bit(b[j], k) {
        var i := 8 * j + 7 - k;
        assert i / 8 == j && 7 - i % 8 == k;
        assert Unpacked(a)[i] == Unpacked(b)[i];
      }
      SameByte(a[j], b[j]);
    }
  }

  /** ... so packing the bits of a byte string gives it back. */
  lemma PackedUnpacked(bytes: seq<int>)
    requires IsBytes(bytes)
    ensures Packed(Unpacked(bytes)) == bytes
  {
    UnpackedPacked(Unpacked(bytes));
    UnpackedInjective(Packed(Unpacked(bytes)), bytes);
  }

  lemma ShiftTest(x: nat, k: nat)
    ensures (And(Shr(x, k), 1) == 1) == Bit(x, k)
  {
    ShrBit(x, k, 0);
    AndOne(Shr(x, k));
  }

  lemma AndOne(y: nat)
    ensures And(y, 1) == y % 2
  {
  }

  /** bits[i] = (packed[byte] >> bit) & 1, with the counters stepped once per bit. */
  method UnpackBits(packed: array<int>, bits: array<bool>)
    requires IsBytes(packed[..]) && bits.Length == 8 * packed.Length
    modifies bits
    ensures bits[..] == Unpacked(packed[..])
  {
    var bit, byte := 7, 0;
    for i := 0 to bits.Length
      invariant byte == i / 8 && bit == 7 - i % 8
      invariant forall k :: 0 <= k < i ==> bits[k] == Bit(packed[k / 8], 7 - k % 8)
    {
      ShiftTest(packed[byte], bit);
      bits[i] := And(Shr(packed[byte], bit), 1) == 1;
      bit := bit - 1;
      if bit < 0 {
        bit := 7;
        byte := byte + 1;
      }
    }
    assert byte == packed.Length;
  }

  /** Or-ing a bit into a clear position of a byte sets that position and no other. */
  lemma OrSetsBit(x: nat, b: bool, bit: nat)
    requires x < 256 && bit < 8 && !Bit(x, bit)
    ensures var y := Or(x, Shl(if b then 1 else 0, bit));
            && y < 256
            && forall k: nat :: Bit(y, k) == if k == bit then b else Bit(x, k)
  {
    var one := if b then 1 else 0;
    var y := Or(x, Shl(one, bit));
    assert Pow2(8) == 256;
    forall k: nat ensures Bit(y, k) == if k == bit then b else Bit(x, k) {
      OrBit(x, Shl(one, bit), k);
      ShlBit(one, bit, k);
      if k > bit { OneBit(one, k - bit); }
    }
    forall k | k >= 8 ensures !Bit(y, k) { HighBits(x, 8, k); }
    BitsBound(y, 8);
  }

  lemma OneBit(one: nat, k: nat)
    requires one < 2 && k > 0
    ensures !Bit(one, k)
  {
    BitOfZero(k - 1);
  }

  /** The bits stored so far are in place and the rest of the packed bytes is still clear. */
  ghost predicate PackedUpTo(packed: seq<int>, bits: seq<bool>, i: nat)
    requires |bits| == 8 * |packed|
  {
    && IsBytes(packed)
    && forall k :: 0 <= k < |bits| ==> Bit(packed[k / 8], 7 - k % 8) == (k < i && bits[k])
  }

  lemma PackStep(packed: seq<int>, bits: seq<bool>, i: nat)
    requires |bits| == 8 * |packed| && i < |bits| && PackedUpTo(packed, bits, i)
    ensures var x := Or(packed[i / 8], Shl(if bits[i] then 1 else 0, 7 - i % 8));
            PackedUpTo(packed[i / 8 := x], bits, i + 1)
  {
    var x := Or(packed[i / 8], Shl(if bits[i] then 1 else 0, 7 - i % 8));
    OrSetsBit(packed[i / 8], bits[i], 7 - i % 8);
    var next := packed[i / 8 := x];
    forall k | 0 <= k < |bits| ensures Bit(next[k / 8], 7 - k % 8) == (k < i + 1 && bits[k]) {
      assert Bit(packed[k / 8], 7 - k % 8) == (k < i && bits[k]);
    }
  }

  lemma PackedComplete(packed: seq<int>, bits: seq<bool>)
    requires |bits| == 8 * |packed| && PackedUpTo(packed, bits, |bits|)
    ensures packed == Packed(bits)
  {
    UnpackedPacked(bits);
    assert Unpacked(packed) == bits;
    UnpackedInjective(packed, Packed(bits));
  }

  /** packed[byte] |= bits[i] << bit, over a cleared buffer. */
  method PackBits(bits: array<bool>, packed: array<int>)
    requires bits.Length == 8 * packed.Length
    modifies packed
    ensures packed[..] == Packed(bits[..])
  {
    var bit, byte := 7, 0;
    for j := 0 to packed.Length
      invariant forall k :: 0 <= k < j ==> packed[k] == 0
    {
      packed[j] := 0;
    }
    forall k: nat ensures !Bit(0, k) { BitOfZero(k); }
    for i := 0 to bits.Length
      invariant byte == i / 8 && bit == 7 - i % 8
      invariant PackedUpTo(packed[..], bits[..], i)
    {
      PackStep(packed[..], bits[..], i);
      packed[byte] := Or(packed[byte], Shl(if bits[i] then 1 else 0, bit));
      bit := bit - 1;
      if bit < 0 {
        bit := 7;
        byte := byte + 1;
      }
    }
    assert byte == packed.Length;
    PackedComplete(packed[..], bits[..]);
  }

  // ---------------------------------------------------------------- whole blocks of a file

  /** The longest part of the file made of whole blocks. */
  function WholeBlocks(file: seq<int>, n: nat): (r: seq<int>)
    requires n > 0
    ensures r <= file && |r| % n == 0 && |file| - |r| < n
    decreases |file|
  {
    if |file| < n then [] else
      var rest := WholeBlocks(file[n..], n);
      assert file == file[..n] + file[n..];
      ModAdd(|rest|, n);
      file[..n] + rest
  }

  lemma ModAdd(k: nat, n: nat)
    requires n > 0 && k % n == 0
    ensures (k + n) % n == 0
  {
    var q := k / n;
    assert k + n == (q + 1) * n;
    QuotientUnique(k + n, n, q + 1, 0);
  }
}
