/**
 The receiver's sync state machine (freq_state in fdmdv.c): a six-symbol correlator over the
 alternating pilot and a four-state machine that acquires, holds and drops sync.
 */
module Acquisition {

  const NSYNC_MEM := 6
  const UNIQUE_WORD: seq<int> := [1, -1, 1, -1, 1, -1]

  /** The machine's variables: state 0 none, 1 tentative, 2 good, 3 fading. */
  datatype Acq = Acq(state: int, timer: int, mem: seq<int>)

  /** What every run of the machine from its initial values keeps: the timers have not run over. */
  predicate Valid(a: Acq) {
    && 0 <= a.state <= 3 && ValidMem(a.mem)
    && (a.state == 1 ==> 0 <= a.timer < 25) && (a.state == 3 ==> 0 <= a.timer < 50)
  }

  predicate ValidMem(mem: seq<int>) {
    |mem| == NSYNC_MEM && forall i :: 0 <= i < NSYNC_MEM ==> -1 <= mem[i] <= 1
  }

  function Corr(mem: seq<int>): int
    requires |mem| == NSYNC_MEM
  {
    mem[0] - mem[1] + mem[2] - mem[3] + mem[4] - mem[5]
  }

  function Sign(bit: bool): int {
    if bit then -1 else 1
  }

  function Shift(mem: seq<int>, bit: bool): (m: seq<int>)
    requires |mem| == NSYNC_MEM
    ensures |m| == NSYNC_MEM
  {
    mem[1..] + [Sign(bit)]
  }

  predicate Reliable(mem: seq<int>)
    requires |mem| == NSYNC_MEM
  {
    Corr(mem) == NSYNC_MEM
  }

  predicate UniqueWord(mem: seq<int>)
    requires |mem| == NSYNC_MEM
  {
    Corr(mem) == NSYNC_MEM || Corr(mem) == -NSYNC_MEM
  }

  /** One iteration of the state machine on whether the unique word was seen. */
  function Iterate(state: int, timer: int, uw: bool): (int, int) {
    if state == 0 then (if uw then (1, 0) else (0, timer))
    else if state == 1 then (if uw then (if timer + 1 == 25 then 2 else 1, timer + 1) else (0, timer))
    else if state == 2 then (if uw then (2, timer) else (3, 0))
    else if state == 3 then (if uw then (2, timer) else (if timer + 1 == 50 then 0 else 3, timer + 1))
    else (state, timer)
  }

  function Next(a: Acq, bit: bool): (r: Acq)
    requires |a.mem| == NSYNC_MEM
    ensures |r.mem| == NSYNC_MEM
  {
    var mem := Shift(a.mem, bit);
    var (state, timer) := Iterate(a.state, a.timer, UniqueWord(mem));
    Acq(state, timer, mem)
  }

  class FreqState {
    var state: int
    var timer: int
    const syncMem: array<int>

    ghost function Model(): Acq
      reads this, syncMem
    {
      Acq(state, timer, syncMem[..])
    }

    constructor ()
      ensures fresh(syncMem) && syncMem.Length == NSYNC_MEM
      ensures Model() == Acq(0, 0, [0, 0, 0, 0, 0, 0])
    {
      state, timer := 0, 0;
      syncMem := new int[6](_ => 0);
    }

    method Update(syncBit: bool) returns (sync: bool, reliable: bool)
      requires syncMem.Length == NSYNC_MEM
      modifies this, syncMem
      ensures Model() == Next(old(Model()), syncBit)
      ensures reliable == Reliable(Model().mem) && sync == (state != 0)
    {
      ghost var before := syncMem[..];
      for i := 0 to NSYNC_MEM - 1
        invariant forall k :: 0 <= k < i ==> syncMem[k] == before[k + 1]
        invariant forall k :: i <= k < NSYNC_MEM ==> syncMem[k] == before[k]
        invariant state == old(state) && timer == old(timer)
      {
        syncMem[i] := syncMem[i + 1];
      }
      syncMem[NSYNC_MEM - 1] := if syncBit then -1 else 1;
      assert syncMem[..] == Shift(before, syncBit);
      var corr := 0;
      for i := 0 to NSYNC_MEM
        invariant corr == PartialCorr(syncMem[..], i)
      {
        corr := corr + syncMem[i] * UNIQUE_WORD[i];
      }
      PartialCorrIsCorr(syncMem[..]);
      var uniqueWord := corr == NSYNC_MEM || corr == -NSYNC_MEM;
      reliable := corr == NSYNC_MEM;
      var next := state;
      if state == 0 {
        if uniqueWord { next, timer := 1, 0; }
      } else if state == 1 {
        if uniqueWord {
          timer := timer + 1;
          if timer == 25 { next := 2; }
        } else {
          next := 0;
        }
      } else if state == 2 {
        if !uniqueWord { next, timer := 3, 0; }
      } else if state == 3 {
        if uniqueWord {
          next := 2;
        } else {
          timer := timer + 1;
          if timer == 50 { next := 0; }
        }
      }
      state := next;
      sync := state != 0;
    }
  }

  function PartialCorr(mem: seq<int>, n: nat): int
    requires |mem| == NSYNC_MEM && n <= NSYNC_MEM
  {
    if n == 0 then 0 else PartialCorr(mem, n - 1) + mem[n - 1] * UNIQUE_WORD[n - 1]
  }

  lemma PartialCorrIsCorr(mem: seq<int>)
    requires |mem| == NSYNC_MEM
    ensures PartialCorr(mem, NSYNC_MEM) == Corr(mem)
  {
    assert PartialCorr(mem, 1) == mem[0];
    assert PartialCorr(mem, 2) == mem[0] - mem[1];
    assert PartialCorr(mem, 3) == mem[0] - mem[1] + mem[2];
    assert PartialCorr(mem, 4) == mem[0] - mem[1] + mem[2] - mem[3];
    assert PartialCorr(mem, 5) == mem[0] - mem[1] + mem[2] - mem[3] + mem[4];
  }

  /** A reliable sync bit means the memory holds the unique word itself, so the newest pilot bit is 1. */
  lemma ReliableIffUniqueWord(mem: seq<int>)
    requires ValidMem(mem)
    ensures Reliable(mem) <==> mem == UNIQUE_WORD
    ensures Reliable(mem) ==> mem[NSYNC_MEM - 1] == Sign(true)
  {
    if Reliable(mem) {
      assert mem[0] == mem[2] == mem[4] == 1 && mem[1] == mem[3] == mem[5] == -1;
    }
  }

  // ---------------------------------------------------------------- whole runs

  /** State and timer after the first k of a run of unique-word flags. */
  function After(state: int, timer: int, uws: seq<bool>, k: nat): (int, int)
    requires k <= |uws|
  {
    if k == 0 then (state, timer)
    else var (s, t) := After(state, timer, uws, k - 1); Iterate(s, t, uws[k - 1])
  }

  /** n consecutive flags of value b, ending just before position k. */
  predicate Streak(uws: seq<bool>, b: bool, n: nat, k: nat) {
    n <= k <= |uws| && forall i :: k - n <= i < k ==> uws[i] == b
  }

  /** While acquiring, state 1 counts the current streak of unique words. */
  lemma {:induction false} TentativeCountsStreak(timer: int, uws: seq<bool>, k: nat)
    requires k <= |uws|
    requires forall j :: 0 <= j < k ==> After(0, timer, uws, j).0 != 2
    ensures var (s, t) := After(0, timer, uws, k);
            && (s == 0 ==> k == 0 || !uws[k - 1])
            && (s == 1 ==> 0 <= t < 25 && Streak(uws, true, t + 1, k) && (k > t + 1 ==> !uws[k - t - 2]))
            && (s == 2 ==> Streak(uws, true, 26, k))
            && 0 <= s <= 2
  {
    if k > 0 {
      TentativeCountsStreak(timer, uws, k - 1);
      assert After(0, timer, uws, k - 1).0 != 2;
    }
  }

  /** From no sync, good sync is reached exactly when 26 unique words arrive in a row. */
  lemma GoodSyncIff26(timer: int, uws: seq<bool>)
    ensures (exists k :: 0 <= k <= |uws| && After(0, timer, uws, k).0 == 2)
            <==> (exists k :: 0 <= k <= |uws| && Streak(uws, true, 26, k))
  {
    if exists k :: 0 <= k <= |uws| && After(0, timer, uws, k).0 == 2 {
      var k := FirstGood(timer, uws);
      TentativeCountsStreak(timer, uws, k);
    }
    if exists k :: 0 <= k <= |uws| && Streak(uws, true, 26, k) {
      var k :| 0 <= k <= |uws| && Streak(uws, true, 26, k);
      if forall j :: 0 <= j <= k ==> After(0, timer, uws, j).0 != 2 {
        TentativeCountsStreak(timer, uws, k);
      }
    }
  }

  lemma FirstGood(timer: int, uws: seq<bool>) returns (k: nat)
    requires exists k :: 0 <= k <= |uws| && After(0, timer, uws, k).0 == 2
    ensures k <= |uws| && After(0, timer, uws, k).0 == 2
    ensures forall j :: 0 <= j < k ==> After(0, timer, uws, j).0 != 2
  {
    k := 0;
    while After(0, timer, uws, k).0 != 2
      invariant k <= |uws| && forall j :: 0 <= j < k ==> After(0, timer, uws, j).0 != 2
      decreases |uws| - k
    {
      k := k + 1;
    }
  }

  /** While holding, state 3 counts the current streak of misses. */
  lemma {:induction false} FadeCountsStreak(timer: int, uws: seq<bool>, k: nat)
    requires k <= |uws|
    requires forall j :: 0 <= j < k ==> After(2, timer, uws, j).0 != 0
    ensures var (s, t) := After(2, timer, uws, k);
            && (s == 2 ==> k == 0 || uws[k - 1])
            && (s == 3 ==> 0 <= t < 50 && Streak(uws, false, t + 1, k) && (k > t + 1 ==> uws[k - t - 2]))
            && (s == 0 ==> Streak(uws, false, 51, k))
            && (s == 0 || s == 2 || s == 3)
  {
    if k > 0 {
      FadeCountsStreak(timer, uws, k - 1);
      assert After(2, timer, uws, k - 1).0 != 0;
    }
  }

  /** Good sync is lost exactly when 51 unique words in a row are missed. */
  lemma SyncLostIff51(timer: int, uws: seq<bool>)
    ensures (exists k :: 0 <= k <= |uws| && After(2, timer, uws, k).0 == 0)
            <==> (exists k :: 0 <= k <= |uws| && Streak(uws, false, 51, k))
  {
    if exists k :: 0 <= k <= |uws| && After(2, timer, uws, k).0 == 0 {
      var k := FirstLost(timer, uws);
      FadeCountsStreak(timer, uws, k);
    }
    if exists k :: 0 <= k <= |uws| && Streak(uws, false, 51, k) {
      var k :| 0 <= k <= |uws| && Streak(uws, false, 51, k);
      if forall j :: 0 <= j <= k ==> After(2, timer, uws, j).0 != 0 {
        FadeCountsStreak(timer, uws, k);
      }
    }
  }

  lemma FirstLost(timer: int, uws: seq<bool>) returns (k: nat)
    requires exists k :: 0 <= k <= |uws| && After(2, timer, uws, k).0 == 0
    ensures k <= |uws| && After(2, timer, uws, k).0 == 0
    ensures forall j :: 0 <= j < k ==> After(2, timer, uws, j).0 != 0
  {
    k := 0;
    while After(2, timer, uws, k).0 != 0
      invariant k <= |uws| && forall j :: 0 <= j < k ==> After(2, timer, uws, j).0 != 0
      decreases |uws| - k
    {
      k := k + 1;
    }
  }

  // ---------------------------------------------------------------- on an alternating pilot

  lemma NextKeepsValid(a: Acq, bit: bool)
    requires Valid(a)
    ensures Valid(Next(a, bit))
  {
    hide UniqueWord;
  }

  /** The machine after n frames whose pilot bits alternate. */
  function PilotRun(a: Acq, pilot: bool, n: nat): (r: Acq)
    requires |a.mem| == NSYNC_MEM
    ensures |r.mem| == NSYNC_MEM
    decreases n
  {
    if n == 0 then a else PilotRun(Next(a, pilot), !pilot, n - 1)
  }

  lemma {:induction false} PilotRunValid(a: Acq, pilot: bool, n: nat)
    requires Valid(a)
    ensures Valid(PilotRun(a, pilot, n))
    decreases n
  {
    hide Next;
    if n > 0 {
      NextKeepsValid(a, pilot);
      PilotRunValid(Next(a, pilot), !pilot, n - 1);
    }
  }

  lemma {:induction false} PilotRunSplit(a: Acq, pilot: bool, m: nat, n: nat)
    requires |a.mem| == NSYNC_MEM && m % 2 == 0
    ensures PilotRun(a, pilot, m + n) == PilotRun(PilotRun(a, pilot, m), pilot, n)
    decreases m
  {
    hide Next;
    if m > 0 {
      var b := Next(a, pilot);
      assert PilotRun(a, pilot, m + n) == PilotRun(b, !pilot, m + n - 1);
      assert PilotRun(b, !pilot, m + n - 1) == PilotRun(Next(b, !pilot), pilot, m + n - 2);
      assert PilotRun(a, pilot, m) == PilotRun(Next(b, !pilot), pilot, m - 2);
      PilotRunSplit(Next(b, !pilot), pilot, m - 2, n);
    }
  }

  /** The memory of an alternating pilot whose newest bit is last. */
  function Alternating(last: bool): (m: seq<int>)
    ensures |m| == NSYNC_MEM
  {
    [Sign(!last), Sign(last), Sign(!last), Sign(last), Sign(!last), Sign(last)]
  }

  lemma AlternatingShifts(last: bool)
    ensures Shift(Alternating(last), !last) == Alternating(!last) && UniqueWord(Alternating(last))
  {
  }

  /** Entries j and up of the memory alternate, ending with last. */
  predicate Settled(mem: seq<int>, last: bool, j: nat)
    requires |mem| == NSYNC_MEM && j <= NSYNC_MEM
  {
    mem[j..] == Alternating(last)[j..]
  }

  lemma SettleStep(mem: seq<int>, last: bool, j: nat)
    requires |mem| == NSYNC_MEM && 0 < j <= NSYNC_MEM && Settled(mem, last, j)
    ensures Settled(Shift(mem, !last), !last, j - 1)
  {
    AlternatingShifts(last);
    var m, alt := Shift(mem, !last), Alternating(last);
    forall i | j - 1 <= i < NSYNC_MEM ensures m[i] == Alternating(!last)[i] {
      if i < 5 { assert m[i] == mem[i + 1] == mem[j..][i + 1 - j] == alt[j..][i + 1 - j]; }
    }
  }

  lemma {:induction false} MemorySettles(a: Acq, pilot: bool, n: nat)
    requires |a.mem| == NSYNC_MEM && n <= NSYNC_MEM && Settled(a.mem, !pilot, n)
    ensures PilotRun(a, pilot, n).mem == Alternating(if n % 2 == 0 then !pilot else pilot)
    decreases n
  {
    hide Iterate;
    hide UniqueWord;
    hide Alternating;
    if n == 0 {
      assert a.mem[0..] == a.mem && Alternating(!pilot)[0..] == Alternating(!pilot);
    } else {
      SettleStep(a.mem, !pilot, n);
      MemorySettles(Next(a, pilot), !pilot, n - 1);
    }
  }

  /** On a settled memory every frame shows the unique word; from a valid state good sync follows after
      as many frames as the state still needs, and is never left. */
  function Needed(a: Acq): int {
    if a.state == 0 then 26 else if a.state == 1 then 25 - a.timer else if a.state == 2 then 0 else 1
  }

  lemma {:induction false} SettledReachesGood(a: Acq, pilot: bool, n: nat)
    requires Valid(a) && a.mem == Alternating(!pilot) && n >= Needed(a)
    ensures PilotRun(a, pilot, n).state == 2
    decreases n
  {
    hide Alternating;
    if n > 0 {
      AlternatingShifts(!pilot);
      AlternatingShifts(pilot);
      NextKeepsValid(a, pilot);
      SettledReachesGood(Next(a, pilot), !pilot, n - 1);
    }
  }

  /** From any valid state, 32 frames of alternating pilot bring good sync, and it stays. */
  lemma GoodSyncAfter32(a: Acq, pilot: bool, n: nat)
    requires Valid(a) && n >= 32
    ensures PilotRun(a, pilot, n).state == 2
  {
    hide Next;
    hide Alternating;
    var b := PilotRun(a, pilot, 6);
    assert a.mem[6..] == [] == Alternating(!pilot)[6..];
    MemorySettles(a, pilot, 6);
    PilotRunValid(a, pilot, 6);
    PilotRunSplit(a, pilot, 6, n - 6);
    SettledReachesGood(b, pilot, n - 6);
  }
}
