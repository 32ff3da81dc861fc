/**
 The Golay encoder and decoder of golay23.c: its tables, how they are filled, and the correction
 of every error pattern of up to three bits.
 */
module Golay {
  import opened Bits
  import opened Combinations
  import opened FiniteSets
  import opened GolayAlgebra

  // ---------------------------------------------------------------- error patterns

  /** An error pattern the decoder can correct. */
  predicate Light(e: int) {
    0 <= e < 0x800000 && Weight(e) <= 3
  }

  /** The word with ones at the (one-based) positions c. */
  function Pattern(c: seq<int>): nat
    requires forall i :: 0 <= i < |c| ==> c[i] >= 1
  {
    if |c| == 0 then 0 else Pattern(c[..|c| - 1]) + Pow2(c[|c| - 1] - 1)
  }

  /** c lists one to three bit positions of a 23-bit word, or none. */
  predicate IsErrorList(c: seq<int>) {
    && |c| <= 3
    && (forall i :: 0 <= i < |c| ==> 1 <= c[i] <= 23)
    && (forall i :: 0 < i < |c| ==> c[i - 1] < c[i])
  }

  lemma {:induction false} PatternBound(c: seq<int>)
    requires IsErrorList(c)
    ensures |c| > 0 ==> Pow2(c[|c| - 1] - 1) <= Pattern(c) < Pow2(c[|c| - 1])
    ensures Weight(Pattern(c)) == |c|
  {
    hide Weight;
    if |c| > 0 {
      var last, rest := c[|c| - 1], c[..|c| - 1];
      PatternBound(rest);
      if |rest| > 0 {
        assert c[|c| - 2] < c[|c| - 1];
        Pow2Mono(rest[|rest| - 1], last - 1);
      }
      WeightAddBit(Pattern(rest), last - 1);
    } else {
      WeightOfZero(Pattern(c));
    }
  }

  lemma WeightOfZero(x: nat)
    requires x == 0
    ensures Weight(x) == 0
  {
  }

  lemma SinglePattern(c: seq<int>)
    requires |c| == 1 && 1 <= c[0] <= 23
    ensures Pattern(c) == Pow2(c[0] - 1) && IsErrorList(c)
  {
    assert c[..0] == [];
  }

  lemma PatternIsLight(c: seq<int>)
    requires IsErrorList(c)
    ensures Light(Pattern(c))
  {
    PatternBound(c);
    WordSizes();
    if |c| > 0 { Pow2Mono(c[|c| - 1], 23); }
  }

  lemma {:induction false} PatternInjective(c: seq<int>, d: seq<int>)
    requires IsErrorList(c) && IsErrorList(d) && Pattern(c) == Pattern(d)
    ensures c == d
  {
    hide Pow2;
    hide Weight;
    PatternBound(c);
    PatternBound(d);
    if |c| > 0 {
      SameTop(c, d);
      var m := c[|c| - 1];
      PatternInjective(c[..|c| - 1], d[..|d| - 1]);
      assert c == c[..|c| - 1] + [m] && d == d[..|d| - 1] + [m];
    }
  }

  /** The highest position is where the pattern's highest one is. */
  lemma SameTop(c: seq<int>, d: seq<int>)
    requires IsErrorList(c) && IsErrorList(d) && Pattern(c) == Pattern(d) && |c| == |d| > 0
    ensures c[|c| - 1] == d[|d| - 1]
  {
    hide Pow2;
    hide Pattern;
    PatternBound(c);
    PatternBound(d);
    var m, n := c[|c| - 1], d[|d| - 1];
    if m < n {
      Pow2Mono(m, n - 1);
    } else if n < m {
      Pow2Mono(n, m - 1);
    }
  }

  /** The word with ones at positions a[1] .. a[r]. */
  method Arr2Int(a: array<int>, r: nat) returns (result: nat)
    requires r < a.Length && forall i :: 1 <= i <= r ==> a[i] >= 1
    ensures result == Pattern(a[1..r + 1])
  {
    result := 0;
    for i := 1 to r + 1
      invariant result == Pattern(a[1..i])
    {
      var mul := 1;
      var temp := a[i] - 1;
      while temp != 0
        invariant 0 <= temp <= a[i] - 1 && mul == Pow2(a[i] - 1 - temp)
      {
        temp := temp - 1;
        mul := 2 * mul;
      }
      assert a[1..i + 1][..i - 1] == a[1..i];
      result := result + mul;
    }
  }

  // ---------------------------------------------------------------- syndromes

  lemma WordSizes()
    ensures Pow2(21) == 0x200000 && Shl(0x1fffff, 11) == MASK12
    ensures Pow2(11) == X11 && Pow2(12) == 0x1000 && Pow2(22) == X22 && Pow2(23) == 0x800000
  {
  }

  lemma MaskBits(k: nat)
    ensures Bit(MASK12, k) == (11 <= k < 32)
  {
    WordSizes();
    ShlBit(0x1fffff, 11, k);
    if k >= 11 { MaskBit(21, k - 11); }
  }

  lemma MaskTest(p: nat)
    requires p < 0x800000
    ensures (And(p, MASK12) != 0) == (p >= X11)
  {
    WordSizes();
    if And(p, MASK12) != 0 {
      var k := TopBit(And(p, MASK12));
      AndBit(p, MASK12, k);
      MaskBits(k);
      if p < X11 { HighBits(p, 11, k); }
    } else {
      forall k | k >= 11 ensures !Bit(p, k) {
        if k >= 23 {
          HighBits(p, 23, k);
        } else {
          AndBit(p, MASK12, k);
          MaskBits(k);
          BitOfZero(k);
        }
      }
      BitsBound(p, 11);
    }
  }

  /** The remainder of a 23-bit word on division by the generator, by long division in place. */
  method GetSyndrome(pattern: nat) returns (r: nat)
    requires pattern < 0x800000
    ensures r == Rem(pattern)
  {
    hide Rem;
    hide Xor;
    hide Pow2;
    hide And;
    var p: nat, aux: nat := pattern, X22;
    ghost var k := 22;
    assert aux == Pow2(22) && p < Pow2(23) by { WordSizes(); }
    if p >= X11 {
      var high := TestHigh(p);
      while high
        invariant 11 <= k <= 22 && aux == Pow2(k) && p < Pow2(k + 1)
        invariant p <= pattern && Rem(p) == Rem(pattern) && high == (p >= X11)
        decreases p
      {
        aux, k := FindTop(aux, p, k);
        DivisionCancels(p, k);
        p := Xor(p, (aux / X11) * GENPOL);
        high := TestHigh(p);
      }
    }
    RemSmall(p);
    r := p;
  }

  method TestHigh(p: nat) returns (high: bool)
    requires p < 0x800000
    ensures high == (p >= X11)
  {
    high := And(p, MASK12) != 0;
    MaskTest(p);
  }

  /** Moves the probe down to the highest coefficient of p. */
  method FindTop(start: nat, p: nat, ghost from: nat) returns (aux: nat, ghost k: nat)
    requires 11 <= from <= 22 && start == Pow2(from) && X11 <= p < Pow2(from + 1)
    ensures 11 <= k <= from && aux == Pow2(k) && p < Pow2(k + 1) && And(aux, p) != 0
  {
    aux, k := start, from;
    while And(aux, p) == 0
      invariant 11 <= k <= from && aux == Pow2(k) && p < Pow2(k + 1)
      decreases k
    {
      TopClear(p, k);
      aux := aux / 2;
      k := k - 1;
    }
  }

  lemma TopClear(p: nat, k: nat)
    requires X11 <= p < Pow2(k + 1) && k >= 11 && And(Pow2(k), p) == 0
    ensures p < Pow2(k) && k > 11
  {
    AndPow2(p, k);
    TopBitSet(p, k);
    WordSizes();
  }

  lemma DivisionCancels(p: nat, k: nat)
    requires 11 <= k <= 22 && p < Pow2(k + 1) && p < 0x800000 && And(Pow2(k), p) != 0
    ensures Xor(p, (Pow2(k) / X11) * GENPOL) < Pow2(k) <= p
    ensures Rem(Xor(p, (Pow2(k) / X11) * GENPOL)) == Rem(p)
  {
    hide Xor;
    hide Rem;
    hide And;
    hide Times;
    AndPow2(p, k);
    TopBitSet(p, k);
    assert Pow2(11) == X11;
    Pow2Add(k - 11, 11);
    var g := Pow2(k - 11) * GENPOL;
    assert Pow2(k) / X11 == Pow2(k - 11);
    assert Pow2(k) <= g < Pow2(k + 1);
    XorClearsTop(p, g, k);
    TimesPow2(k - 11);
    RemTimes(Pow2(k - 11));
    RemXor(p, g);
    XorZero(Rem(p));
  }

  // ---------------------------------------------------------------- filling the decoding table

  /** The table entries of the error lists handled so far. */
  predicate Filled(table: seq<int>, lists: seq<seq<int>>) {
    && |table| == 2048
    && (forall k :: 0 <= k < |lists| ==>
          && IsErrorList(lists[k])
          && Rem(Pattern(lists[k])) < 2048
          && table[Rem(Pattern(lists[k]))] == Pattern(lists[k]))
  }

  predicate AllErrorLists(lists: seq<seq<int>>) {
    forall k :: 0 <= k < |lists| ==> IsErrorList(lists[k])
  }

  predicate Distinct(lists: seq<seq<int>>) {
    forall j, k :: 0 <= j < k < |lists| ==> lists[j] != lists[k]
  }

  /** Every syndrome is that of the light pattern stored under it. */
  predicate Complete(table: seq<int>) {
    && |table| == 2048
    && (forall s :: 0 <= s < 2048 ==> Light(table[s]) && Rem(table[s]) == s)
  }

  /** Storing a new pattern under its syndrome overwrites no earlier one. */
  lemma StoreKeepsFilled(table: seq<int>, lists: seq<seq<int>>, c: seq<int>)
    requires Filled(table, lists) && Distinct(lists) && IsErrorList(c) && c !in lists
    requires Rem(Pattern(c)) < 2048
    ensures Filled(table[Rem(Pattern(c)) := Pattern(c)], lists + [c]) && Distinct(lists + [c])
  {
    NewSyndrome(lists, c);
  }

  ghost function Syndromes(lists: seq<seq<int>>): set<int>
    requires AllErrorLists(lists)
  {
    set k | 0 <= k < |lists| && IsErrorList(lists[k]) :: Rem(Pattern(lists[k]))
  }

  lemma NewSyndrome(lists: seq<seq<int>>, c: seq<int>)
    requires IsErrorList(c) && c !in lists && AllErrorLists(lists)
    ensures forall k :: 0 <= k < |lists| ==> IsErrorList(lists[k]) && Rem(Pattern(lists[k])) != Rem(Pattern(c))
  {
    PatternIsLight(c);
    forall k | 0 <= k < |lists| ensures Rem(Pattern(lists[k])) != Rem(Pattern(c)) {
      PatternIsLight(lists[k]);
      if Rem(Pattern(lists[k])) == Rem(Pattern(c)) {
        LightPatternsSeparated(Pattern(lists[k]), Pattern(c));
        PatternInjective(lists[k], c);
      }
    }
  }

  lemma SyndromesSnoc(lists: seq<seq<int>>, c: seq<int>)
    requires IsErrorList(c) && AllErrorLists(lists)
    ensures Syndromes(lists + [c]) == Syndromes(lists) + {Rem(Pattern(c))}
  {
    var more := lists + [c];
    forall s | s in Syndromes(lists) ensures s in Syndromes(more) {
      var k :| 0 <= k < |lists| && s == Rem(Pattern(lists[k]));
      assert more[k] == lists[k];
    }
    assert more[|lists|] == c;
  }

  lemma {:induction false} SyndromesCount(lists: seq<seq<int>>)
    requires Distinct(lists) && AllErrorLists(lists)
    ensures |Syndromes(lists)| == |lists|
  {
    if |lists| > 0 {
      var rest, c := lists[..|lists| - 1], lists[|lists| - 1];
      assert lists == rest + [c];
      SyndromesCount(rest);
      NewSyndrome(rest, c);
      SyndromesSnoc(rest, c);
    }
  }

  lemma AllSyndromes(table: seq<int>, lists: seq<seq<int>>, n: nat)
    requires Filled(table, lists) && Distinct(lists) && |lists| == n == 2048
    ensures forall s :: 0 <= s < n ==> s in Syndromes(lists)
  {
    hide Rem;
    hide Pattern;
    hide Distinct;
    hide Below;
    SyndromesCount(lists);
    forall s | s in Syndromes(lists) ensures s in Below(n) {
      var k :| 0 <= k < |lists| && s == Rem(Pattern(lists[k]));
    }
    SubsetOfSameSize(Syndromes(lists), Below(n));
  }

  /** The code is perfect: 2048 distinct patterns use up all 2048 syndromes. */
  lemma FilledIsComplete(table: seq<int>, lists: seq<seq<int>>)
    requires Filled(table, lists) && Distinct(lists) && |lists| == 2048
    ensures Complete(table)
  {
    hide Weight;
    hide Rem;
    hide Pattern;
    hide Distinct;
    hide Syndromes;
    AllSyndromes(table, lists, |lists|);
    forall s | 0 <= s < 2048 ensures Light(table[s]) && Rem(table[s]) == s {
      SyndromeStored(table, lists, s);
    }
  }

  lemma SyndromeStored(table: seq<int>, lists: seq<seq<int>>, s: int)
    requires Filled(table, lists) && s in Syndromes(lists)
    ensures 0 <= s < 2048 && Light(table[s]) && Rem(table[s]) == s
  {
    hide Rem;
    hide Pattern;
    hide Weight;
    var k :| 0 <= k < |lists| && s == Rem(Pattern(lists[k]));
    PatternIsLight(lists[k]);
  }

  // ---------------------------------------------------------------- the codec

  /** The systematic codeword of twelve data bits. */
  function Encoded(data: nat): nat {
    Shl(data, 11) + Rem(Shl(data, 11))
  }

  class Golay23 {
    const encodingTable: array<int>
    const decodingTable: array<int>
    var inited: bool

    constructor ()
      ensures !inited && encodingTable.Length == 4096 && decodingTable.Length == 2048
      ensures encodingTable != decodingTable && fresh(encodingTable) && fresh(decodingTable)
    {
      encodingTable := new int[4096];
      decodingTable := new int[2048];
      inited := false;
    }

    ghost predicate Ready()
      reads this, encodingTable, decodingTable
    {
      && inited
      && encodingTable.Length == 4096
      && (forall d :: 0 <= d < 4096 ==> encodingTable[d] == Encoded(d))
      && Complete(decodingTable[..])
    }

    method FillEncodingTable()
      requires encodingTable.Length == 4096
      modifies encodingTable
      ensures forall d :: 0 <= d < 4096 ==> encodingTable[d] == Encoded(d)
    {
      for pattern := 0 to 4096
        invariant forall d :: 0 <= d < pattern ==> encodingTable[d] == Encoded(d)
      {
        var temp := Shl(pattern, 11);
        ShlBound(pattern, 11, 12);
        WordSizes();
        var s := GetSyndrome(temp);
        encodingTable[pattern] := temp + s;
      }
    }

    /** Stores a pattern under its syndrome; c is the list of its positions. */
    method Store(pattern: nat, ghost lists: seq<seq<int>>, ghost c: seq<int>)
      requires Filled(decodingTable[..], lists) && Distinct(lists)
      requires IsErrorList(c) && c !in lists && pattern == Pattern(c)
      modifies decodingTable
      ensures Filled(decodingTable[..], lists + [c]) && Distinct(lists + [c])
    {
      PatternIsLight(c);
      RemBound(pattern);
      StoreKeepsFilled(decodingTable[..], lists, c);
      var s := GetSyndrome(pattern);
      decodingTable[s] := pattern;
    }

    method FillSingles() returns (ghost lists: seq<seq<int>>)
      requires decodingTable.Length == 2048
      modifies decodingTable
      ensures Filled(decodingTable[..], lists) && Distinct(lists) && |lists| == 24
      ensures RankedBelow(lists, 2, 0)
    {
      lists := [[]];
      RemSmall(0);
      decodingTable[0] := 0;
      assert Filled(decodingTable[..], lists);
      RemSmall(1);
      StoreKeepsFilled(decodingTable[..], lists, [1]);
      decodingTable[1] := 1;
      lists := lists + [[1]];
      var temp := 1;
      for i := 2 to 24
        invariant temp == Pow2(i - 2)
        invariant Filled(decodingTable[..], lists) && Distinct(lists) && |lists| == i
        invariant forall c :: c in lists ==> |c| == 0 || (|c| == 1 && c[0] < i)
      {
        temp := 2 * temp;
        SinglePattern([i]);
        Store(temp, lists, [i]);
        lists := lists + [[i]];
      }
    }

    /** Stores the pattern of the combination in a[1 .. r], the one of rank i. */
    method StoreCombination(a: array<int>, r: nat, i: nat, ghost lists: seq<seq<int>>)
      returns (ghost more: seq<seq<int>>)
      requires 2 <= r <= 3 && a.Length == 4 && a != decodingTable
      requires IsComb(a[1..r + 1], 0, 23) && Rank(a[1..r + 1], 0, 23) == i
      requires Filled(decodingTable[..], lists) && Distinct(lists) && RankedBelow(lists, r, i)
      modifies decodingTable
      ensures Filled(decodingTable[..], more) && Distinct(more) && RankedBelow(more, r, i + 1)
      ensures |more| == |lists| + 1
    {
      ghost var c := a[1..r + 1];
      CombIsErrorList(c);
      NewByRank(lists, c, r, i);
      assert forall k :: 1 <= k <= r ==> a[k] == c[k - 1];
      var temp := Arr2Int(a, r);
      Store(temp, lists, c);
      more := lists + [c];
    }

    /** Stores every pattern of weight r, stepping through the r-combinations of the 23 positions. */
    method FillWeight(r: nat, count: nat, ghost before: seq<seq<int>>) returns (ghost lists: seq<seq<int>>)
      requires 2 <= r <= 3 && count == PatternCount(r)
      requires Filled(decodingTable[..], before) && Distinct(before) && RankedBelow(before, r, 0)
      modifies decodingTable
      ensures Filled(decodingTable[..], lists) && Distinct(lists) && RankedBelow(lists, r, count)
      ensures |lists| == |before| + count
    {
      var a := new int[4];
      a[1], a[2], a[3] := 1, 2, 3;
      FirstCombination(a[1..r + 1], r);
      lists := StoreCombination(a, r, 0, before);
      for i := 1 to count
        invariant IsComb(a[1..r + 1], 0, 23) && Rank(a[1..r + 1], 0, 23) == i - 1
        invariant Filled(decodingTable[..], lists) && Distinct(lists) && RankedBelow(lists, r, i)
        invariant |lists| == |before| + i
      {
        Successor(a, r, i);
        lists := StoreCombination(a, r, i, lists);
      }
    }

    method FillDecodingTable()
      requires decodingTable.Length == 2048
      modifies decodingTable
      ensures Complete(decodingTable[..])
    {
      ghost var lists := FillSingles();
      lists := FillWeight(2, 253, lists);
      lists := FillWeight(3, 1771, lists);
      FilledIsComplete(decodingTable[..], lists);
    }

    method Init()
      requires encodingTable.Length == 4096 && decodingTable.Length == 2048 && encodingTable != decodingTable
      modifies this`inited, encodingTable, decodingTable
      ensures Ready()
    {
      FillEncodingTable();
      FillDecodingTable();
      inited := true;
    }

    method Encode(data: nat) returns (codeword: int)
      requires Ready() && data <= 0xfff
      ensures 0 <= codeword < 0x800000 && IsCodeword(codeword) && Shr(codeword, 11) == data
    {
      codeword := encodingTable[data];
      EncodedIsCodeword(data);
    }

    /** Every 23-bit word decodes to the one codeword within distance three of it. */
    method Decode(received: nat) returns (corrected: nat)
      requires Ready() && received < 0x800000
      ensures corrected < 0x800000 && IsCodeword(corrected)
      ensures Weight(Xor(received, corrected)) <= 3
      ensures forall c: nat :: c < 0x800000 && IsCodeword(c) && Weight(Xor(received, c)) <= 3 ==> c == corrected
    {
      var s := GetSyndrome(received);
      RemBound(received);
      corrected := Xor(received, decodingTable[s]);
      NearestCodeword(decodingTable[..], received);
    }
  }

  method CountErrors(received: nat, corrected: nat) returns (errors: nat)
    requires received < 0x800000 && corrected < 0x800000
    ensures errors == Weight(Xor(received, corrected))
  {
    var diff: nat := Xor(received, corrected);
    ghost var all := diff;
    WordSizes();
    XorBound(received, corrected, 23);
    errors := 0;
    for i := 0 to 23
      invariant errors + Weight(diff) == Weight(all) && diff < Pow2(23 - i)
    {
      WeightUnfold(diff);
      if diff % 2 == 1 {
        errors := errors + 1;
      }
      diff := diff / 2;
    }
  }

  /** What the decoder computes from a received word. */
  function Corrected(table: seq<int>, w: nat): nat
    requires Complete(table) && Rem(w) < 2048
  {
    Xor(w, table[Rem(w)])
  }

  lemma {:induction false} AddLowBits(d: nat, low: nat, n: nat)
    requires low < Pow2(n)
    ensures Xor(Shl(d, n), low) == Shl(d, n) + low
  {
    if n == 0 {
      XorZero(d);
    } else {
      AddLowBits(d, low / 2, n - 1);
      XorDouble(Shl(d, n - 1), low / 2, low % 2);
    }
  }

  lemma EncodedIsCodeword(data: nat)
    requires data < 0x1000
    ensures Encoded(data) < 0x800000 && IsCodeword(Encoded(data)) && Shr(Encoded(data), 11) == data
  {
    hide Xor;
    hide Rem;
    hide Shl;
    hide Shr;
    hide IsCodeword;
    var temp := Shl(data, 11);
    WordSizes();
    ShlBound(data, 11, 12);
    RemBound(temp);
    AddLowBits(data, Rem(temp), 11);
    ShiftBack(data, Rem(temp), 11);
    RemXor(temp, Rem(temp));
    RemSmall(Rem(temp));
    XorSelf(Rem(temp));
    CodewordIffNoRemainder(Encoded(data));
  }

  /** The codewords are exactly the encodings of the 4096 data words. */
  lemma CodewordsAreEncodings(c: nat)
    requires c < 0x800000 && IsCodeword(c)
    ensures Shr(c, 11) < 0x1000 && c == Encoded(Shr(c, 11))
  {
    WordSizes();
    ShrBound(c, 11, 12);
    var d := Shr(c, 11);
    var low := SplitAt(c, 11);
    CodewordIffNoRemainder(c);
    AddLowBits(d, low, 11);
    RemXor(Shl(d, 11), low);
    RemSmall(low);
    XorEqualsZero(Rem(Shl(d, 11)), low);
  }

  lemma NearestCodeword(table: seq<int>, w: nat)
    requires Complete(table) && w < 0x800000
    ensures Rem(w) < 2048
    ensures var r := Corrected(table, w);
            && r < 0x800000 && IsCodeword(r) && Weight(Xor(w, r)) <= 3
            && forall c: nat :: c < 0x800000 && IsCodeword(c) && Weight(Xor(w, c)) <= 3 ==> c == r
  {
    RemBound(w);
    var e := table[Rem(w)];
    var r := Corrected(table, w);
    WordSizes();
    XorBound(w, e, 23);
    RemXor(w, e);
    XorSelf(Rem(w));
    CodewordIffNoRemainder(r);
    XorCancel(e, w);
    forall c: nat | c < 0x800000 && IsCodeword(c) && Weight(Xor(w, c)) <= 3 ensures c == r {
      OnlyOneNear(w, c, e);
    }
  }

  lemma OnlyOneNear(w: nat, c: nat, e: nat)
    requires w < 0x800000 && c < 0x800000 && Light(e) && Rem(e) == Rem(w)
    requires IsCodeword(c) && Weight(Xor(w, c)) <= 3
    ensures c == Xor(w, e)
  {
    WordSizes();
    XorBound(w, c, 23);
    CodewordIffNoRemainder(c);
    RemXor(w, c);
    XorZero(Rem(w));
    LightPatternsSeparated(Xor(w, c), e);
    XorCancel(c, w);
  }

  /** The law of the code: whatever the data and whatever the (up to three) bit errors, decoding
      restores the codeword. */
  lemma CorrectsThreeErrors(table: seq<int>, data: nat, e: nat)
    requires Complete(table) && data < 0x1000 && Light(e)
    ensures var w := Xor(Encoded(data), e);
            Rem(w) < 2048 && Corrected(table, w) == Encoded(data)
  {
    var c := Encoded(data);
    var w := Xor(c, e);
    WordSizes();
    EncodedIsCodeword(data);
    XorBound(c, e, 23);
    XorComm(c, e);
    XorCancel(e, c);
    XorComm(w, c);
    NearestCodeword(table, w);
  }

  /** Moves on to the combination of rank i. */
  method Successor(a: array<int>, r: nat, i: nat)
    requires 2 <= r <= 3 && a.Length == 4 && 0 < i < PatternCount(r)
    requires IsComb(a[1..r + 1], 0, 23) && Rank(a[1..r + 1], 0, 23) == i - 1
    modifies a
    ensures IsComb(a[1..r + 1], 0, 23) && Rank(a[1..r + 1], 0, 23) == i
  {
    PatternCountIsChoose(23, r);
    NextComb(23, r, a);
  }

  /** The lists of r positions among these have rank below i. */
  ghost predicate RankedBelow(lists: seq<seq<int>>, r: nat, i: int) {
    forall c :: c in lists ==> |c| < r || (|c| == r && IsComb(c, 0, 23) && Rank(c, 0, 23) < i)
  }

  function Triangular(n: nat): nat {
    if n == 0 then 0 else Triangular(n - 1) + n - 1
  }

  function Tetrahedral(n: nat): nat {
    if n == 0 then 0 else Tetrahedral(n - 1) + Triangular(n - 1)
  }

  lemma {:induction false} ChooseUpToThree(n: nat)
    ensures Choose(n, 1) == n && Choose(n, 2) == Triangular(n) && Choose(n, 3) == Tetrahedral(n)
  {
    if n > 0 { ChooseUpToThree(n - 1); }
  }

  lemma FigurateValues()
    ensures Triangular(23) == 253 && Tetrahedral(23) == 1771
  {
    assert Triangular(8) == 28 && Tetrahedral(8) == 56;
    assert Triangular(16) == 120 && Tetrahedral(16) == 560;
  }

  /** The number of error patterns of weight r. */
  function PatternCount(r: nat): nat {
    if r == 2 then 253 else 1771
  }

  lemma PatternCountIsChoose(n: nat, r: nat)
    requires n == 23 && 2 <= r <= 3
    ensures Choose(n, r) == PatternCount(r)
  {
    ChooseUpToThree(n);
    FigurateValues();
  }

  lemma NewByRank(lists: seq<seq<int>>, c: seq<int>, r: nat, i: nat)
    requires RankedBelow(lists, r, i) && |c| == r && IsComb(c, 0, 23) && Rank(c, 0, 23) == i
    ensures c !in lists && RankedBelow(lists + [c], r, i + 1)
  {
  }

  lemma FirstCombination(c: seq<int>, r: nat)
    requires 2 <= r <= 3 && |c| == r && forall i :: 0 <= i < r ==> c[i] == 1 + i
    ensures IsComb(c, 0, 23) && Rank(c, 0, 23) == 0 && IsErrorList(c)
  {
    CombFromOrder(c, 0, 23);
    RankOfFirst(c, 0, 23);
  }

  lemma CombIsErrorList(c: seq<int>)
    requires IsComb(c, 0, 23) && |c| <= 3
    ensures IsErrorList(c)
  {
    forall i | 0 <= i < |c| ensures 1 <= c[i] <= 23 { CombBounds(c, 0, 23, i); }
    forall i | 0 < i < |c| ensures c[i - 1] < c[i] { CombBounds(c, 0, 23, i - 1); }
  }
}
