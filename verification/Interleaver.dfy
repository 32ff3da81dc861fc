/**
 The bit interleaver of fdmdv_interleave.c: loading the table in either direction, permuting the bits
 of each block, and the two runs of the tool undoing each other.
 */
module Interleaver {
  import opened Bits
  import opened BitPacking
  import opened FiniteSets

  const MAX_INTERLEAVER := 10000

  /** The table lists each of 0 .. |t| - 1 once: in range and without repetition. */
  predicate IsPermutation(t: seq<int>) {
    && (forall i :: 0 <= i < |t| ==> 0 <= t[i] < |t|)
    && (forall i, j :: 0 <= i < j < |t| ==> t[i] != t[j])
  }

  predicate InRange(t: seq<int>, m: nat) {
    forall i :: 0 <= i < |t| ==> 0 <= t[i] < m
  }

  /** inv sends every entry of t back to where it stands. */
  predicate IsInverse(t: seq<int>, inv: seq<int>) {
    && |inv| == |t|
    && (forall i :: 0 <= i < |t| ==> 0 <= t[i] < |t| && inv[t[i]] == i)
  }

  // ---------------------------------------------------------------- pigeonhole

  ghost function Image(t: seq<int>, n: nat): set<int>
    requires n <= |t|
  {
    set i | 0 <= i < n :: t[i]
  }

  lemma {:induction false} ImageSize(t: seq<int>, n: nat)
    requires n <= |t| && IsPermutation(t)
    ensures |Image(t, n)| == n
  {
    if n > 0 {
      ImageSize(t, n - 1);
      assert t[n - 1] !in Image(t, n - 1);
      assert Image(t, n) == Image(t, n - 1) + {t[n - 1]};
    }
  }

  /** m distinct entries below m leave none out. */
  lemma Pigeonhole(t: seq<int>, j: int)
    requires IsPermutation(t) && 0 <= j < |t|
    ensures j in t
  {
    var image, all := Image(t, |t|), Below(|t|);
    ImageSize(t, |t|);
    assert image <= all;
    SubsetOfSameSize(image, all);
    assert j in all;
  }

  lemma InverseBothWays(t: seq<int>, inv: seq<int>)
    requires IsPermutation(t) && IsInverse(t, inv)
    ensures IsPermutation(inv)
    ensures forall j :: 0 <= j < |t| ==> t[inv[j]] == j
  {
    forall j | 0 <= j < |t| ensures 0 <= inv[j] < |t| && t[inv[j]] == j {
      Pigeonhole(t, j);
      var i :| 0 <= i < |t| && t[i] == j;
    }
  }

  // ---------------------------------------------------------------- loading the table

  /** Reads the table file, entry by entry; interleave selects the scattered (de-interleaving) load.
      A table of MAX_INTERLEAVER entries or more is refused. */
  method Load(table: seq<int>, interleave: bool) returns (ok: bool, m: nat, interleaver: array<int>)
    requires interleave ==> InRange(table, MAX_INTERLEAVER)
    ensures fresh(interleaver) && interleaver.Length == MAX_INTERLEAVER
    ensures ok == (|table| < MAX_INTERLEAVER)
    ensures ok ==> m == |table|
    ensures ok && !interleave ==> interleaver[..m] == table
    ensures ok && interleave && IsPermutation(table) ==> IsInverse(table, interleaver[..m])
  {
    interleaver := new int[MAX_INTERLEAVER];
    var src := 0;
    while src < |table|
      invariant 0 <= src <= |table| && src < MAX_INTERLEAVER
      invariant !interleave ==> interleaver[..src] == table[..src]
      invariant interleave && IsPermutation(table) ==> forall i :: 0 <= i < src ==> interleaver[table[i]] == i
    {
      var dest := table[src];
      if interleave {
        interleaver[dest] := src;
      } else {
        interleaver[src] := dest;
      }
      src := src + 1;
      if src == MAX_INTERLEAVER {
        return false, src, interleaver;
      }
    }
    ok, m := true, src;
    assert table[..src] == table;
  }

  // ---------------------------------------------------------------- one block

  function Permuted(bits: seq<bool>, t: seq<int>): (r: seq<bool>)
    requires |bits| == |t| && InRange(t, |t|)
    ensures |r| == |bits|
    ensures forall i :: 0 <= i < |r| ==> r[i] == bits[t[i]]
  {
    seq(|t|, i requires 0 <= i < |t| => bits[t[i]])
  }

  /** What the tool writes for one block of bytes. */
  function Block(bytes: seq<int>, t: seq<int>): (r: seq<int>)
    requires IsBytes(bytes) && |t| == 8 * |bytes| && InRange(t, |t|)
    ensures |r| == |bytes|
  {
    Packed(Permuted(Unpacked(bytes), t))
  }

  method ProcessBlock(packed: array<int>, interleaver: array<int>, m: nat)
    requires IsBytes(packed[..]) && m == 8 * packed.Length <= interleaver.Length && packed != interleaver
    requires InRange(interleaver[..m], m)
    modifies packed
    ensures IsBytes(packed[..])
    ensures forall i :: 0 <= i < m ==> Unpacked(packed[..])[i] == Unpacked(old(packed[..]))[interleaver[i]]
    ensures packed[..] == Block(old(packed[..]), interleaver[..m])
  {
    var bits, interleaved := new bool[m], new bool[m];
    UnpackBits(packed, bits);
    ghost var t := interleaver[..m];
    ghost var unpacked := bits[..];
    assert unpacked == Unpacked(old(packed[..]));
    for i := 0 to m
      invariant bits[..] == unpacked && interleaver[..m] == t
      invariant interleaved[..i] == Permuted(unpacked, t)[..i]
    {
      assert interleaver[i] == t[i];
      interleaved[i] := bits[interleaver[i]];
    }
    assert interleaved[..] == interleaved[..m] == Permuted(unpacked, t);
    PackBits(interleaved, packed);
    UnpackedPacked(interleaved[..]);
  }

  lemma PermuteBack(bits: seq<bool>, t: seq<int>, inv: seq<int>)
    requires |bits| == |t| && IsPermutation(t) && IsInverse(t, inv)
    ensures IsPermutation(inv)
    ensures Permuted(Permuted(bits, t), inv) == bits
    ensures Permuted(Permuted(bits, inv), t) == bits
  {
    InverseBothWays(t, inv);
  }

  lemma BlockBack(bytes: seq<int>, t: seq<int>, inv: seq<int>)
    requires IsBytes(bytes) && |t| == 8 * |bytes| && IsPermutation(t) && IsInverse(t, inv)
    ensures IsPermutation(inv) && IsBytes(Block(bytes, t)) && Block(Block(bytes, t), inv) == bytes
  {
    var bits := Unpacked(bytes);
    PermuteBack(bits, t, inv);
    UnpackedPacked(Permuted(bits, t));
    PackedUnpacked(bytes);
  }

  // ---------------------------------------------------------------- a whole file

  /** The tool's output: every whole block permuted, a trailing partial block dropped. */
  function Process(file: seq<int>, t: seq<int>, n: nat): (r: seq<int>)
    requires IsBytes(file) && n > 0 && |t| == 8 * n && InRange(t, |t|)
    decreases |file|
  {
    if |file| < n then [] else Block(file[..n], t) + Process(file[n..], t, n)
  }

  lemma ProcessStep(file: seq<int>, pos: nat, t: seq<int>, n: nat)
    requires IsBytes(file) && n > 0 && |t| == 8 * n && InRange(t, |t|) && pos + n <= |file|
    ensures IsBytes(file[pos..]) && IsBytes(file[pos..pos + n]) && IsBytes(file[pos + n..])
    ensures Process(file[pos..], t, n) == Block(file[pos..pos + n], t) + Process(file[pos + n..], t, n)
  {
    assert file[pos..][..n] == file[pos..pos + n] && file[pos..][n..] == file[pos + n..];
  }

  lemma BytesSlices(file: seq<int>)
    requires IsBytes(file)
    ensures forall i, j :: 0 <= i <= j <= |file| ==> IsBytes(file[i..j])
    ensures forall i :: 0 <= i <= |file| ==> IsBytes(file[i..])
  {
  }

  lemma ProcessEnd(file: seq<int>, t: seq<int>, n: nat)
    requires IsBytes(file) && n > 0 && |t| == 8 * n && InRange(t, |t|) && |file| < n
    ensures Process(file, t, n) == []
  {
  }

  lemma BlockBits(bytes: seq<int>, t: seq<int>)
    requires IsBytes(bytes) && |t| == 8 * |bytes| && InRange(t, |t|)
    ensures IsBytes(Block(bytes, t))
    ensures forall i :: 0 <= i < |t| ==> Unpacked(Block(bytes, t))[i] == Unpacked(bytes)[t[i]]
  {
    UnpackedPacked(Permuted(Unpacked(bytes), t));
  }

  /** The bits of a file are those of its first n bytes and those of the rest. */
  lemma BitsSplit(file: seq<int>, n: nat, k: nat)
    requires IsBytes(file) && n <= |file| && k < 8 * |file|
    ensures IsBytes(file[..n]) && IsBytes(file[n..])
    ensures Unpacked(file)[k] == if k < 8 * n then Unpacked(file[..n])[k] else Unpacked(file[n..])[k - 8 * n]
  {
    if k >= 8 * n {
      assert (k - 8 * n) / 8 == k / 8 - n && (k - 8 * n) % 8 == k % 8;
    }
  }

  /** The bit of the file that bit k of the output comes from: in the same block, where the table says. */
  function From(t: seq<int>, k: nat): int
    requires |t| > 0
  {
    k - k % |t| + t[k % |t|]
  }

  lemma FromFirst(t: seq<int>, k: nat)
    requires k < |t|
    ensures From(t, k) == t[k]
  {
    QuotientUnique(k, |t|, 0, k);
  }

  lemma FromLater(t: seq<int>, k: nat)
    requires 0 < |t| <= k
    ensures From(t, k) == From(t, k - |t|) + |t|
  {
    ModuloBack(k, |t|);
  }

  lemma ProcessFirst(file: seq<int>, t: seq<int>, n: nat)
    requires IsBytes(file) && 0 < n <= |file| && |t| == 8 * n && InRange(t, |t|)
    ensures IsBytes(file[..n]) && IsBytes(file[n..])
    ensures Process(file, t, n)[..n] == Block(file[..n], t) && Process(file, t, n)[n..] == Process(file[n..], t, n)
  {
  }

  lemma {:induction false} ProcessBits(file: seq<int>, t: seq<int>, n: nat, k: nat)
    requires IsBytes(file) && n > 0 && |t| == 8 * n && InRange(t, |t|) && k < 8 * |Process(file, t, n)|
    ensures IsBytes(Process(file, t, n)) && 0 <= From(t, k) < 8 * |file|
    ensures Unpacked(Process(file, t, n))[k] == Unpacked(file)[From(t, k)]
    decreases |file|
  {
    hide Block;
    hide Unpacked;
    hide Process;
    hide IsBytes;
    hide From;
    ProcessSize(file, t, n);
    ProcessFirst(file, t, n);
    BitsSplit(Process(file, t, n), n, k);
    if k < 8 * n {
      BlockBits(file[..n], t);
      FromFirst(t, k);
    } else {
      FromLater(t, k);
      ProcessBits(file[n..], t, n, k - 8 * n);
    }
    BitsSplit(file, n, From(t, k));
  }

  lemma {:induction false} ProcessSize(file: seq<int>, t: seq<int>, n: nat)
    requires IsBytes(file) && n > 0 && |t| == 8 * n && InRange(t, |t|)
    ensures IsBytes(Process(file, t, n)) && |Process(file, t, n)| == |WholeBlocks(file, n)|
    decreases |file|
  {
    if |file| >= n {
      BlockBits(file[..n], t);
      ProcessSize(file[n..], t, n);
    }
  }

  /** Fills the block buffer from the file. */
  method ReadBlock(file: seq<int>, pos: nat, packed: array<int>)
    requires pos + packed.Length <= |file|
    modifies packed
    ensures packed[..] == file[pos..pos + packed.Length]
  {
    for j := 0 to packed.Length
      invariant packed[..j] == file[pos..pos + j]
    {
      packed[j] := file[pos + j];
    }
  }

  lemma FromEntry(interleaver: array<int>, m: nat, k: nat)
    requires 0 < m <= interleaver.Length
    ensures k - k % m + interleaver[k % m] == From(interleaver[..m], k)
  {
  }

  method Run(file: seq<int>, interleaver: array<int>, m: nat) returns (out: seq<int>)
    requires IsBytes(file) && 0 < m <= interleaver.Length && m % 8 == 0
    requires InRange(interleaver[..m], m)
    ensures IsBytes(out) && |out| % (m / 8) == 0 && 0 <= |file| - |out| < m / 8
    ensures forall k :: 0 <= k < 8 * |out| ==>
              && 0 <= k - k % m + interleaver[k % m] < 8 * |file|
              && Unpacked(out)[k] == Unpacked(file)[k - k % m + interleaver[k % m]]
    ensures out == Process(file, interleaver[..m], m / 8)
  {
    hide Process;
    hide Block;
    hide IsBytes;
    hide InRange;
    hide Unpacked;
    hide From;
    BytesSlices(file);
    ghost var t := interleaver[..m];
    var n := m / 8;
    var packed := new int[n];
    out := [];
    var pos := 0;
    assert file[0..] == file;
    while pos + n <= |file|
      invariant 0 <= pos <= |file| && interleaver[..m] == t
      invariant out + Process(file[pos..], t, n) == Process(file, t, n)
    {
      ProcessStep(file, pos, t, n);
      ghost var block, rest := Block(file[pos..pos + n], t), Process(file[pos + n..], t, n);
      ReadBlock(file, pos, packed);
      ProcessBlock(packed, interleaver, m);
      assert (out + block) + rest == out + (block + rest);
      out := out + packed[..];
      pos := pos + n;
    }
    ProcessEnd(file[pos..], t, n);
    assert out + [] == out;
    ProcessSize(file, t, n);
    forall k | 0 <= k < 8 * |out|
      ensures && 0 <= k - k % m + interleaver[k % m] < 8 * |file|
              && Unpacked(out)[k] == Unpacked(file)[k - k % m + interleaver[k % m]]
    {
      FromEntry(interleaver, m, k);
      ProcessBits(file, t, n, k);
    }
  }

  /** Interleaving and then de-interleaving restores every byte of every whole block. */
  lemma {:induction false} ProcessBack(file: seq<int>, t: seq<int>, inv: seq<int>, n: nat)
    requires IsBytes(file) && n > 0 && |t| == 8 * n && IsPermutation(t) && IsInverse(t, inv)
    ensures IsPermutation(inv) && IsBytes(Process(file, t, n))
    ensures Process(Process(file, t, n), inv, n) == WholeBlocks(file, n)
    decreases |file|
  {
    InverseBothWays(t, inv);
    if |file| >= n {
      var first, rest := Block(file[..n], t), Process(file[n..], t, n);
      BlockBack(file[..n], t, inv);
      ProcessBack(file[n..], t, inv, n);
      assert (first + rest)[..n] == first && (first + rest)[n..] == rest;
    }
  }

  /** Two runs of the tool on the same table, the second with the extra argument. */
  method RoundTrip(table: seq<int>, file: seq<int>) returns (out: seq<int>)
    requires IsBytes(file) && 0 < |table| < MAX_INTERLEAVER && |table| % 8 == 0 && IsPermutation(table)
    ensures out == WholeBlocks(file, |table| / 8)
  {
    var ok, m, interleaver := Load(table, false);
    var middle := Run(file, interleaver, m);
    var ok', m', deinterleaver := Load(table, true);
    ghost var inv := deinterleaver[..m'];
    ProcessBack(file, table, inv, |table| / 8);
    out := Run(middle, deinterleaver, m');
  }
}
