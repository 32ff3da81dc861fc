/**
 What becomes of the calls on the shared FIFO: in every run each call started is answered in turn, and
 after as many steps of its own thread as fifo_write and fifo_read have, whatever the other thread does
 in between, it has returned, with its samples moved if there was room for them.
 */
module FifoCompletion {
  import opened FifoQueue
  import opened FifoProtocol

  // ---------------------------------------------------------------- every call is answered in turn

  /** The call of the writer, or of the reader, that an event starts. */
  function Begun(s: State, e: Event, writer: bool): seq<Call> {
    match e
    case CallWrite(data, n) => if writer && s.writer.WIdle? && n <= |data| then [Put(data, n)] else []
    case CallRead(n) => if !writer && s.reader.RIdle? then [Take(n)] else []
    case _ => []
  }

  ghost function AllBegun(s: State, events: seq<Event>, writer: bool): seq<Call>
    requires Inv(s)
    decreases |events|
  {
    if |events| == 0 then []
    else
      StepKeepsInv(s, events[0]);
      Begun(s, events[0], writer) + AllBegun(Step(s, events[0]), events[1..], writer)
  }

  function InProgress(s: State, writer: bool): seq<Call> {
    if writer then if s.writer.WIdle? then [] else [Put(s.writer.data, s.writer.n)]
    else if s.reader.RIdle? then [] else [Take(s.reader.n)]
  }

  function Calls(rs: seq<Response>): (calls: seq<Call>)
    ensures |calls| == |rs| && forall i :: 0 <= i < |rs| ==> calls[i] == rs[i].call
  {
    seq(|rs|, i requires 0 <= i < |rs| => rs[i].call)
  }

  lemma StepAccounted(s: State, e: Event, writer: bool)
    requires Inv(s)
    ensures Inv(Step(s, e))
    ensures InProgress(s, writer) + Begun(s, e, writer)
            == Calls(OfThread(Return(s, e), writer)) + InProgress(Step(s, e), writer)
  {
    hide Ring;
    hide UsedOf;
    hide Inv;
    StepKeepsInv(s, e);
    OfOne(Return(s, e), writer);
  }

  /** In every run the calls a thread has started are those it has had answered, in order, and the one
      still in progress. */
  lemma {:induction false} EveryCallAnswered(s: State, events: seq<Event>, writer: bool)
    requires Inv(s)
    ensures Inv(Run(s, events))
    ensures InProgress(s, writer) + AllBegun(s, events, writer)
            == Calls(OfThread(Returns(s, events), writer)) + InProgress(Run(s, events), writer)
    decreases |events|
  {
    hide Inv;
    hide Step;
    hide Return;
    hide Begun;
    hide InProgress;
    if |events| == 0 {
      OfOne([], writer);
    } else {
      var e, rest, s1 := events[0], events[1..], Step(s, events[0]);
      StepAccounted(s, e, writer);
      EveryCallAnswered(s1, rest, writer);
      OfConcat(Return(s, e), Returns(s1, rest), writer);
      var now, later := OfThread(Return(s, e), writer), OfThread(Returns(s1, rest), writer);
      assert Calls(now + later) == Calls(now) + Calls(later);
      SpliceCalls(InProgress(s, writer), Begun(s, e, writer), AllBegun(s1, rest, writer), Calls(now),
                  InProgress(s1, writer), Calls(later), InProgress(Run(s1, rest), writer));
    }
  }

  lemma SpliceCalls(a: seq<Call>, b: seq<Call>, c: seq<Call>, d: seq<Call>, m: seq<Call>, x: seq<Call>, y: seq<Call>)
    requires a + b == d + m && m + c == x + y
    ensures a + (b + c) == (d + x) + y
  {
    assert a + (b + c) == (a + b) + c == d + (m + c) == (d + x) + y;
  }

  // ---------------------------------------------------------------- steps of one thread in a run

  predicate Own(e: Event, writer: bool) {
    if writer then e.WriterStep? else e.ReaderStep?
  }

  function Steps(events: seq<Event>, writer: bool): nat
    decreases |events|
  {
    if |events| == 0 then 0 else (if Own(events[0], writer) then 1 else 0) + Steps(events[1..], writer)
  }

  /** The thread makes no further call. */
  predicate NoCalls(events: seq<Event>, writer: bool) {
    forall i :: 0 <= i < |events| ==> if writer then !events[i].CallWrite? else !events[i].CallRead?
  }

  /** The state in which the thread takes its step number k, counted from 0. */
  ghost function AtStep(s: State, events: seq<Event>, writer: bool, k: nat): (t: State)
    requires Inv(s) && k < Steps(events, writer)
    ensures Inv(t)
    decreases |events|
  {
    StepKeepsInv(s, events[0]);
    if Own(events[0], writer) then
      if k == 0 then s else AtStep(Step(s, events[0]), events[1..], writer, k - 1)
    else AtStep(Step(s, events[0]), events[1..], writer, k)
  }

  // ---------------------------------------------------------------- the writer's call

  /** The steps the writer still needs. */
  function WriterNeeds(w: Writer): nat {
    match w
    case WIdle => 0
    case WCalled(_, n, _) => 4 + Count(n)
    case WSawIn(_, n, _, _) => 3 + Count(n)
    case WSawOut(_, n, _, _) => 2 + Count(n)
    case WCopying(_, n, _, i) => if i < n then 1 + n - i else 1
  }

  /** Whether the call in progress finds room: decided, or by the occupancy at the step that loads pout. */
  ghost predicate WriteFits(s: State, events: seq<Event>)
    requires Inv(s) && Steps(events, true) >= WriterNeeds(s.writer)
  {
    var room := |s.buf| - 1;
    match s.writer
    case WIdle => true
    case WCalled(_, n, _) => n <= room - |Contents(AtStep(s, events, true, 1))|
    case WSawIn(_, n, _, _) => n <= room - |Contents(AtStep(s, events, true, 0))|
    case WSawOut(_, n, _, used) => n <= room - used
    case WCopying(_, _, _, _) => true
  }

  /** Where the run leaves the writer's call: answered, with its samples committed if they fitted. */
  ghost predicate WriteDone(s: State, t: State, answers: seq<Response>, fits: bool)
    requires Inv(s)
  {
    && t.writer == WIdle
    && match s.writer
       case WIdle => t.committed == s.committed && answers == []
       case _ =>
         && t.committed == (if fits then s.committed + s.writer.data[..Count(s.writer.n)] else s.committed)
         && answers == [Response(Put(s.writer.data, s.writer.n), fits)]
  }

  lemma OtherEvent(s: State, e: Event, writer: bool)
    requires Inv(s) && !Own(e, writer) && if writer then !e.CallWrite? else !e.CallRead?
    ensures Inv(Step(s, e)) && OfThread(Return(s, e), writer) == [] && |Step(s, e).buf| == |s.buf|
    ensures writer ==> Step(s, e).writer == s.writer && Step(s, e).committed == s.committed
    ensures !writer ==> Step(s, e).reader == s.reader && Step(s, e).delivered == s.delivered
  {
    hide Ring;
    hide UsedOf;
    hide Inv;
    StepKeepsInv(s, e);
    OfOne(Return(s, e), writer);
  }

  lemma OwnWrite(s: State)
    requires Inv(s)
    ensures var s' := Step(s, WriterStep);
            && Inv(s') && |s'.buf| == |s.buf|
            && (s.writer.WIdle? ==> s' == s)
            && (!s'.writer.WIdle? ==>
                  && !s.writer.WIdle? && WriterNeeds(s'.writer) == WriterNeeds(s.writer) - 1
                  && s'.writer.data == s.writer.data && s'.writer.n == s.writer.n && s'.committed == s.committed)
            && (s.writer.WCalled? ==> s'.writer.WSawIn?)
            && (s.writer.WSawIn? ==> s'.writer.WSawOut? && s'.writer.used == |Contents(s)|)
            && (s.writer.WSawOut? ==> s'.writer.WCopying? == (s.writer.n <= |s.buf| - 1 - s.writer.used))
            && (s.writer.WSawOut? ==> s'.writer.WCopying? || s'.writer.WIdle?)
            && (s.writer.WCopying? && !s'.writer.WIdle? ==> s'.writer.WCopying?)
    ensures var s', answers := Step(s, WriterStep), OfThread(Return(s, WriterStep), true);
            if s'.writer.WIdle? && !s.writer.WIdle?
            then (s.writer.WSawOut? || s.writer.WCopying?) && WriteDone(s, s', answers, s.writer.WCopying?)
            else answers == []
  {
    hide Ring;
    hide UsedOf;
    StepKeepsInv(s, WriterStep);
    OccupancyIsExactWhenLoaded(s);
    OfOne(Return(s, WriterStep), true);
  }

  lemma {:induction false} WriterFinishes(s: State, events: seq<Event>)
    requires Inv(s) && NoCalls(events, true) && Steps(events, true) >= WriterNeeds(s.writer)
    ensures Inv(Run(s, events))
    ensures WriteDone(s, Run(s, events), OfThread(Returns(s, events), true), WriteFits(s, events))
    decreases |events|
  {
    hide Inv;
    hide Step;
    hide Return;
    hide Contents;
    if |events| == 0 {
      OfOne([], true);
    } else {
      var e, rest, s1 := events[0], events[1..], Step(s, events[0]);
      StepKeepsInv(s, e);
      OfConcat(Return(s, e), Returns(s1, rest), true);
      if Own(e, true) {
        OwnWrite(s);
      } else {
        OtherEvent(s, e, true);
      }
      WriterFinishes(s1, rest);
      NothingAdded(OfThread(Return(s, e), true));
      NothingAdded(OfThread(Returns(s1, rest), true));
    }
  }

  /** A call of fifo_write is over after 4 + n of the writer's steps, whatever the reader does meanwhile:
      if the n samples fitted when pout was loaded they are committed and the call has returned 0, and
      otherwise nothing is and it has returned -1. */
  lemma WriteCompletes(s: State, data: seq<Sample>, n: int, events: seq<Event>)
    requires Inv(s) && s.writer == WIdle && n <= |data|
    requires NoCalls(events, true) && Steps(events, true) >= 4 + (if n > 0 then n else 0)
    ensures var all := [CallWrite(data, n)] + events;
            && Steps(all, true) >= 4
            && var t, load, moved := Run(s, all), AtStep(s, all, true, 1), if n > 0 then data[..n] else [];
            && t.writer == WIdle
            && if n <= |s.buf| - 1 - (|load.committed| - |load.delivered|)
               then && t.committed == s.committed + moved
                    && OfThread(Returns(s, all), true) == [Response(Put(data, n), true)]
               else t.committed == s.committed && OfThread(Returns(s, all), true) == [Response(Put(data, n), false)]
  {
    var e := CallWrite(data, n);
    var all, s1 := [e] + events, Step(s, e);
    assert all[0] == e && all[1..] == events;
    StepKeepsInv(s, e);
    OfOne(Return(s, e), true);
    OfConcat(Return(s, e), Returns(s1, events), true);
    WriterFinishes(s1, events);
    assert AtStep(s, all, true, 1) == AtStep(s1, events, true, 1);
  }

  // ---------------------------------------------------------------- the reader's call

  function ReaderNeeds(r: Reader): nat {
    match r
    case RIdle => 0
    case RCalled(n, _) => 4 + Count(n)
    case RSawIn(n, _, _) => 3 + Count(n)
    case RSawOut(n, _, _) => 2 + Count(n)
    case RCopying(n, _, got) => if |got| < n then 1 + n - |got| else 1
  }

  /** Whether the call in progress finds its samples: decided, or by the occupancy at the step that loads pin. */
  ghost predicate ReadFits(s: State, events: seq<Event>)
    requires Inv(s) && Steps(events, false) >= ReaderNeeds(s.reader)
  {
    match s.reader
    case RIdle => true
    case RCalled(n, _) => n <= |Contents(AtStep(s, events, false, 0))|
    case RSawIn(n, _, pinSeen) => n <= UsedOf(pinSeen, s.pout, |s.buf|)
    case RSawOut(n, _, used) => n <= used
    case RCopying(_, _, _) => true
  }

  ghost predicate ReadDone(s: State, t: State, answers: seq<Response>, fits: bool) {
    && t.reader == RIdle
    && match s.reader
       case RIdle => t.delivered == s.delivered && answers == []
       case _ =>
         && |t.delivered| == |s.delivered| + (if fits then Count(s.reader.n) else 0)
         && answers == [Response(Take(s.reader.n), fits)]
  }

  lemma OwnRead(s: State)
    requires Inv(s)
    ensures var s' := Step(s, ReaderStep);
            && Inv(s') && |s'.buf| == |s.buf|
            && (s.reader.RIdle? ==> s' == s)
            && (!s'.reader.RIdle? ==>
                  && !s.reader.RIdle? && ReaderNeeds(s'.reader) == ReaderNeeds(s.reader) - 1
                  && s'.reader.n == s.reader.n && s'.delivered == s.delivered && s'.pout == s.pout)
            && (s.reader.RCalled? ==>
                  s'.reader.RSawIn? && UsedOf(s'.reader.pinSeen, s'.pout, |s.buf|) == |Contents(s)|)
            && (s.reader.RSawIn? ==>
                  s'.reader.RSawOut? && s'.reader.used == UsedOf(s.reader.pinSeen, s.pout, |s.buf|))
            && (s.reader.RSawOut? ==> s'.reader.RCopying? == (s.reader.n <= s.reader.used))
            && (s.reader.RSawOut? ==> s'.reader.RCopying? || s'.reader.RIdle?)
            && (s.reader.RCopying? && !s'.reader.RIdle? ==> s'.reader.RCopying?)
    ensures var s', answers := Step(s, ReaderStep), OfThread(Return(s, ReaderStep), false);
            if s'.reader.RIdle? && !s.reader.RIdle?
            then (s.reader.RSawOut? || s.reader.RCopying?) && ReadDone(s, s', answers, s.reader.RCopying?)
            else answers == []
  {
    hide Ring;
    hide UsedOf;
    StepKeepsInv(s, ReaderStep);
    OccupancyIsExactWhenLoaded(s);
    OfOne(Return(s, ReaderStep), false);
  }

  lemma WriterLeavesPout(s: State, e: Event)
    requires Inv(s) && !e.ReaderStep?
    ensures Step(s, e).pout == s.pout && s.committed <= Step(s, e).committed
  {
    hide Ring;
    hide UsedOf;
    if e.WriterStep? { WriterStepParts(s); }
  }

  lemma {:induction false} ReaderFinishes(s: State, events: seq<Event>)
    requires Inv(s) && NoCalls(events, false) && Steps(events, false) >= ReaderNeeds(s.reader)
    ensures Inv(Run(s, events))
    ensures ReadDone(s, Run(s, events), OfThread(Returns(s, events), false), ReadFits(s, events))
    decreases |events|
  {
    hide Inv;
    hide Step;
    hide Return;
    hide Contents;
    hide UsedOf;
    if |events| == 0 {
      OfOne([], false);
    } else {
      var e, rest, s1 := events[0], events[1..], Step(s, events[0]);
      StepKeepsInv(s, e);
      OfConcat(Return(s, e), Returns(s1, rest), false);
      if Own(e, false) {
        OwnRead(s);
      } else {
        OtherEvent(s, e, false);
        WriterLeavesPout(s, e);
      }
      ReaderFinishes(s1, rest);
      NothingAdded(OfThread(Return(s, e), false));
      NothingAdded(OfThread(Returns(s1, rest), false));
    }
  }

  /** A call of fifo_read is over after 4 + n of the reader's steps, whatever the writer does meanwhile:
      if n samples were there when pin was loaded it has delivered the oldest n not yet delivered and
      returned 0, and otherwise it has delivered nothing and returned -1. */
  lemma ReadCompletes(s: State, n: int, events: seq<Event>)
    requires Inv(s) && s.reader == RIdle
    requires NoCalls(events, false) && Steps(events, false) >= 4 + (if n > 0 then n else 0)
    ensures var all := [CallRead(n)] + events;
            && Steps(all, false) >= 4
            && var t, load, moved := Run(s, all), AtStep(s, all, false, 0), if n > 0 then n else 0;
            && t.reader == RIdle
            && s.committed <= t.committed
            && if n <= |load.committed| - |load.delivered|
               then && |s.delivered| + moved <= |t.committed|
                    && t.delivered == t.committed[..|s.delivered| + moved]
                    && OfThread(Returns(s, all), false) == [Response(Take(n), true)]
               else t.delivered == s.delivered && OfThread(Returns(s, all), false) == [Response(Take(n), false)]
  {
    hide UsedOf;
    hide Ring;
    var e := CallRead(n);
    var all, s1 := [e] + events, Step(s, e);
    assert all[0] == e && all[1..] == events;
    StepKeepsInv(s, e);
    OfOne(Return(s, e), false);
    OfConcat(Return(s, e), Returns(s1, events), false);
    ReaderFinishes(s1, events);
    assert AtStep(s, all, false, 0) == AtStep(s1, events, false, 0);
    CommittedGrows(s, all);
    var t := Run(s, all);
    assert t.delivered <= t.committed && s.delivered <= s.committed;
  }

  /** Nothing committed is ever taken back. */
  lemma {:induction false} CommittedGrows(s: State, events: seq<Event>)
    requires Inv(s)
    ensures Inv(Run(s, events)) && s.committed <= Run(s, events).committed
    decreases |events|
  {
    hide Inv;
    hide Step;
    RunKeepsInv(s, events);
    if |events| > 0 {
      StepKeepsInv(s, events[0]);
      StepCommits(s, events[0]);
      CommittedGrows(Step(s, events[0]), events[1..]);
    }
  }

  lemma StepCommits(s: State, e: Event)
    requires Inv(s)
    ensures s.committed <= Step(s, e).committed
  {
    hide Ring;
    hide UsedOf;
  }
}
