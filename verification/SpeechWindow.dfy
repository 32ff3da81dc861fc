/**
 The encoder's analysis window in codec2.c: a fixed buffer shifted in place by one sub-frame at a time.
 */
module SpeechWindow {
  import opened FrameLayout

  const N := 80     // samples per sub-frame
  const M := 320    // samples in the analysis window

  function SubFrames(mode: Mode): nat {
    if mode == Mode3200 || mode == Mode2400 then 2 else 4
  }

  function SamplesPerFrame(mode: Mode): nat {
    match mode
    case Mode3200 => 160
    case Mode2400 => 160
    case Mode1600 => 320
    case Mode1400 => 320
    case Mode1300 => 320
    case Mode1200 => 320
  }

  /** The last M samples of a history of at least that many. */
  function LastWindow(history: seq<real>): (w: seq<real>)
    requires |history| >= M
    ensures |w| == M
  {
    history[|history| - M..]
  }

  lemma LastWindowAt(history: seq<real>)
    requires |history| >= M
    ensures forall k :: 0 <= k < M ==> LastWindow(history)[k] == history[|history| - M + k]
  {
  }

  /** At 8000 samples a second each mode has the bit rate it is named after. */
  lemma ModeRates(mode: Mode)
    ensures var rate := match mode
              case Mode3200 => 3200 case Mode2400 => 2400 case Mode1600 => 1600
              case Mode1400 => 1400 case Mode1300 => 1300 case Mode1200 => 1200;
            BitsPerFrame(mode) * 8000 == rate * SamplesPerFrame(mode)
    ensures SamplesPerFrame(mode) == N * SubFrames(mode) <= M
  {
  }

  /** Sliding the window is forgetting all but the last samples of a longer history. */
  lemma SlideIsLastWindow(history: seq<real>, more: seq<real>)
    requires |history| >= M
    ensures LastWindow(LastWindow(history) + more) == LastWindow(history + more)
  {
    var w := LastWindow(history);
    var a, b := LastWindow(w + more), LastWindow(history + more);
    forall i | 0 <= i < M ensures a[i] == b[i] {
    }
  }

  lemma WindowAlone(w: seq<real>, none: seq<real>)
    requires |w| == M && none == []
    ensures LastWindow(w + none) == w
  {
  }

  function AsReal(speech: seq<int>): (r: seq<real>)
    ensures |r| == |speech| && forall i :: 0 <= i < |r| ==> r[i] == speech[i] as real
  {
    seq(|speech|, i requires 0 <= i < |speech| => speech[i] as real)
  }

  lemma AppendSlice(before: seq<real>, speech: seq<int>, i: nat, j: nat)
    requires i <= j <= |speech|
    ensures (before + AsReal(speech[..i])) + AsReal(speech[i..j]) == before + AsReal(speech[..j])
  {
  }

  function Concat(calls: seq<seq<int>>): seq<real> {
    if |calls| == 0 then [] else Concat(calls[..|calls| - 1]) + AsReal(calls[|calls| - 1])
  }

  lemma {:induction false} ConcatAt(calls: seq<seq<int>>, c: nat, i: nat)
    requires c < |calls| && i < |calls[c]|
    ensures |Concat(calls[..c])| + i < |Concat(calls)| && Concat(calls)[|Concat(calls[..c])| + i] == calls[c][i] as real
    ensures |Concat(calls[..c + 1])| == |Concat(calls[..c])| + |calls[c]|
  {
    var last := |calls| - 1;
    assert calls[..c + 1][..c] == calls[..c];
    if c < last {
      ConcatAt(calls[..last], c, i);
      assert calls[..last][..c] == calls[..c];
    }
  }

  function Initial(): (w: seq<real>)
    ensures |w| == M && forall i :: 0 <= i < M ==> w[i] == 1.0
  {
    seq(M, _ => 1.0)
  }

  lemma NothingSpoken(calls: seq<seq<int>>)
    ensures LastWindow(Initial() + Concat(calls[..0])) == Initial()
  {
    assert Initial() + Concat(calls[..0]) == Initial();
  }

  lemma OneCallMore(calls: seq<seq<int>>, i: nat)
    requires i < |calls|
    ensures (Initial() + Concat(calls[..i])) + AsReal(calls[i]) == Initial() + Concat(calls[..i + 1])
  {
    assert calls[..i + 1][..i] == calls[..i];
  }

  class Encoder {
    const Sn: array<real>

    constructor ()
      ensures fresh(Sn) && Sn.Length == M && Sn[..] == Initial()
    {
      Sn := new real[M](_ => 1.0);
    }

    /** The part of analyse_one_frame that touches the window; the rest only reads it. */
    method AnalyseOneFrame(speech: seq<int>, from: nat)
      requires Sn.Length == M && from + N <= |speech|
      modifies Sn
      ensures forall k :: 0 <= k < M ==>
                Sn[k] == if k < M - N then old(Sn[k + N]) else speech[from + k - (M - N)] as real
      ensures Sn[..] == LastWindow(old(Sn[..]) + AsReal(speech[from..from + N]))
    {
      ghost var before := Sn[..];
      for i := 0 to M - N
        invariant forall k :: 0 <= k < i ==> Sn[k] == before[k + N]
        invariant forall k :: i <= k < M ==> Sn[k] == before[k]
      {
        Sn[i] := Sn[i + N];
      }
      for i := 0 to N
        invariant forall k :: 0 <= k < M - N ==> Sn[k] == before[k + N]
        invariant forall k :: M - N <= k < M - N + i ==> Sn[k] == speech[from + (k - (M - N))] as real
      {
        Sn[i + M - N] := speech[from + i] as real;
      }
      ghost var after := LastWindow(before + AsReal(speech[from..from + N]));
      assert forall k :: 0 <= k < M ==> Sn[k] == after[k];
    }

    /** One encode call: two or four sub-frames. */
    method Encode(mode: Mode, speech: seq<int>)
      requires Sn.Length == M && |speech| == SamplesPerFrame(mode)
      modifies Sn
      ensures var kept := M - |speech|;
              forall k :: 0 <= k < M ==> Sn[k] == if k < kept then old(Sn[k + |speech|]) else speech[k - kept] as real
      ensures Sn[..] == LastWindow(old(Sn[..]) + AsReal(speech))
    {
      hide LastWindow;
      ghost var before := Sn[..];
      WindowAlone(before, AsReal(speech[..0]));
      for s := 0 to SubFrames(mode)
        invariant Sn[..] == LastWindow(before + AsReal(speech[..N * s]))
      {
        ghost var soFar, more := before + AsReal(speech[..N * s]), AsReal(speech[N * s..N * s + N]);
        AnalyseOneFrame(speech, N * s);
        SlideIsLastWindow(soFar, more);
        AppendSlice(before, speech, N * s, N * s + N);
      }
      assert speech[..N * SubFrames(mode)] == speech;
      LastWindowAt(before + AsReal(speech));
    }
  }

  /** After any calls in any modes the window holds the last 320 samples of all speech so far,
      preceded by 320 ones. */
  method EncodeAll(modes: seq<Mode>, calls: seq<seq<int>>) returns (c: Encoder)
    requires |modes| == |calls| && forall i :: 0 <= i < |calls| ==> |calls[i]| == SamplesPerFrame(modes[i])
    ensures fresh(c) && c.Sn.Length == M
    ensures var history := Initial() + Concat(calls);
            forall k :: 0 <= k < M ==> c.Sn[k] == history[|history| - M + k]
  {
    hide LastWindow;
    hide Concat;
    c := new Encoder();
    NothingSpoken(calls);
    for i := 0 to |calls|
      invariant fresh(c) && fresh(c.Sn) && c.Sn.Length == M
      invariant c.Sn[..] == LastWindow(Initial() + Concat(calls[..i]))
    {
      ghost var history, more := Initial() + Concat(calls[..i]), AsReal(calls[i]);
      c.Encode(modes[i], calls[i]);
      SlideIsLastWindow(history, more);
      OneCallMore(calls, i);
    }
    assert calls[..|calls|] == calls;
    LastWindowAt(Initial() + Concat(calls));
  }
}
