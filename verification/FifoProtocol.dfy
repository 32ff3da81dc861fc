/**
 The FIFO under concurrent use by one writer thread and one reader thread.  Every load of a
 shared pointer, every copy of one sample and every publication of a pointer is a step of its
 own, and the steps of the two threads interleave in any order.  Memory is sequentially
 consistent, and no third thread touches the object.
 */
module FifoProtocol {
  import opened FifoQueue

  /** Where the writer stands in fifo_write; p is its local pin. */
  datatype Writer =
    | WIdle
    | WCalled(data: seq<Sample>, n: int, p: nat)
    | WSawIn(data: seq<Sample>, n: int, p: nat, pinSeen: nat)      // in fifo_used, pin loaded
    | WSawOut(data: seq<Sample>, n: int, p: nat, used: int)        // fifo_used has returned
    | WCopying(data: seq<Sample>, n: int, p: nat, i: nat)

  /** Where the reader stands in fifo_read; p is its local pout, got the samples copied so far. */
  datatype Reader =
    | RIdle
    | RCalled(n: int, p: nat)
    | RSawIn(n: int, p: nat, pinSeen: nat)
    | RSawOut(n: int, p: nat, used: int)
    | RCopying(n: int, p: nat, got: seq<Sample>)

  /** committed and delivered record the samples of completed writes and reads. */
  datatype State = State(buf: seq<Sample>, pin: nat, pout: nat, writer: Writer, reader: Reader,
                         committed: seq<Sample>, delivered: seq<Sample>)

  datatype Event = CallWrite(data: seq<Sample>, n: int) | CallRead(n: int) | WriterStep | ReaderStep

  predicate Init(s: State) {
    && |s.buf| <= INT_MAX && s.pin == s.pout == 0
    && s.writer == WIdle && s.reader == RIdle && s.committed == s.delivered == []
  }

  predicate PointersInRing(s: State) {
    |s.buf| <= INT_MAX && InRing(s.pin, |s.buf|) && InRing(s.pout, |s.buf|)
  }

  ghost function Contents(s: State): seq<Sample>
    requires PointersInRing(s)
  {
    Ring(s.buf, s.pout, UsedOf(s.pin, s.pout, |s.buf|))
  }

  function Count(n: int): nat {
    if n > 0 then n else 0
  }

  // ---------------------------------------------------------------- invariant

  /** The writer's view: a stale pout only over-estimates the occupancy, and the slots it has
      been granted lie beyond the published samples with one slot kept free. */
  ghost predicate WriterInv(s: State)
    requires PointersInRing(s)
  {
    var N, used := |s.buf|, UsedOf(s.pin, s.pout, |s.buf|);
    match s.writer
    case WIdle => true
    case WCalled(data, n, p) => n <= |data| && p == s.pin
    case WSawIn(data, n, p, pinSeen) => n <= |data| && p == pinSeen == s.pin
    case WSawOut(data, n, p, seen) => n <= |data| && p == s.pin && used <= seen
    case WCopying(data, n, p, i) =>
      && n <= |data| && i <= Count(n)
      && used + n <= N - 1
      && p == Wrap(s.pin + i, N)
      && used + i <= N
      && Ring(s.buf, s.pout, used + i) == Contents(s) + data[..i]
  }

  /** The reader's view: a stale pin only under-estimates the occupancy, and the samples copied
      so far are the oldest published ones. */
  ghost predicate ReaderInv(s: State)
    requires PointersInRing(s)
  {
    var N, used := |s.buf|, UsedOf(s.pin, s.pout, |s.buf|);
    match s.reader
    case RIdle => true
    case RCalled(n, p) => p == s.pout
    case RSawIn(n, p, pinSeen) => p == s.pout && InRing(pinSeen, N) && UsedOf(pinSeen, s.pout, N) <= used
    case RSawOut(n, p, seen) => p == s.pout && seen <= used
    case RCopying(n, p, got) =>
      n <= used && |got| <= Count(n) && p == Wrap(s.pout + |got|, N) && got == Contents(s)[..|got|]
  }

  ghost predicate Inv(s: State) {
    && PointersInRing(s)
    && s.committed == s.delivered + Contents(s)
    && WriterInv(s)
    && ReaderInv(s)
  }

  // ---------------------------------------------------------------- steps

  function StepWriter(s: State): State
    requires Inv(s)
  {
    var N := |s.buf|;
    match s.writer
    case WIdle => s
    case WCalled(data, n, p) => s.(writer := WSawIn(data, n, p, s.pin))
    case WSawIn(data, n, p, pinSeen) => s.(writer := WSawOut(data, n, p, UsedOf(pinSeen, s.pout, N)))
    case WSawOut(data, n, p, used) =>
      if n > N - used - 1 then s.(writer := WIdle)                       // return -1
      else s.(writer := WCopying(data, n, p, 0))
    case WCopying(data, n, p, i) =>
      if i < n then s.(buf := s.buf[p := data[i]], writer := WCopying(data, n, Wrap(p + 1, N), i + 1))
      else s.(pin := p, writer := WIdle, committed := s.committed + data[..i])   // return 0
  }

  function StepReader(s: State): State
    requires Inv(s)
  {
    var N := |s.buf|;
    match s.reader
    case RIdle => s
    case RCalled(n, p) => s.(reader := RSawIn(n, p, s.pin))
    case RSawIn(n, p, pinSeen) => s.(reader := RSawOut(n, p, UsedOf(pinSeen, s.pout, N)))
    case RSawOut(n, p, used) =>
      if n > used then s.(reader := RIdle)                               // return -1
      else s.(reader := RCopying(n, p, []))
    case RCopying(n, p, got) =>
      if |got| < n then s.(reader := RCopying(n, Wrap(p + 1, N), got + [s.buf[p]]))
      else s.(pout := p, reader := RIdle, delivered := s.delivered + got)        // return 0
  }

  /** One event; a call made while the same thread is already inside a call is not an event. */
  function Step(s: State, e: Event): State
    requires Inv(s)
  {
    match e
    case CallWrite(data, n) =>
      if s.writer == WIdle && n <= |data| then s.(writer := WCalled(data, n, s.pin)) else s
    case CallRead(n) =>
      if s.reader == RIdle then s.(reader := RCalled(n, s.pout)) else s
    case WriterStep => StepWriter(s)
    case ReaderStep => StepReader(s)
  }

  // ---------------------------------------------------------------- preservation

  lemma WriterCopyKeepsInv(s: State)
    requires Inv(s) && s.writer.WCopying? && s.writer.i < s.writer.n
    ensures Inv(StepWriter(s)) && Contents(StepWriter(s)) == Contents(s)
  {
    hide UsedOf;
    var N, used, w := |s.buf|, UsedOf(s.pin, s.pout, |s.buf|), s.writer;
    var s' := StepWriter(s);
    assert w.p == Wrap(s.pout + (used + w.i), N);
    RingStore(s.buf, s.pout, used + w.i, w.data[w.i]);
    var longer := Ring(s'.buf, s.pout, used + w.i + 1);
    assert longer == Contents(s) + w.data[..w.i] + [w.data[w.i]];
    assert Contents(s') == longer[..used];
    assert w.data[..w.i + 1] == w.data[..w.i] + [w.data[w.i]];
  }

  lemma WriterPublishKeepsInv(s: State)
    requires Inv(s) && s.writer.WCopying? && s.writer.i >= s.writer.n
    ensures Inv(StepWriter(s)) && Contents(StepWriter(s)) == Contents(s) + s.writer.data[..s.writer.i]
  {
    hide UsedOf;
    var N, used, w := |s.buf|, UsedOf(s.pin, s.pout, |s.buf|), s.writer;
    var s' := StepWriter(s);
    assert UsedOf(s'.pin, s'.pout, N) == used + w.i;
    assert s'.committed == s.delivered + (Contents(s) + w.data[..w.i]);
    if s.reader.RCopying? {
      var g := |s.reader.got|;
      assert Contents(s')[..g] == Contents(s)[..g];
    }
  }

  lemma ReaderCopyKeepsInv(s: State)
    requires Inv(s) && s.reader.RCopying? && |s.reader.got| < s.reader.n
    ensures Inv(StepReader(s)) && Contents(StepReader(s)) == Contents(s)
  {
    var g := |s.reader.got|;
    assert Contents(s)[g] == s.buf[Wrap(s.pout + g, |s.buf|)];
    assert Contents(s)[..g + 1] == Contents(s)[..g] + [Contents(s)[g]];
  }

  lemma PublishedReadDrops(s: State)
    requires Inv(s) && s.reader.RCopying? && |s.reader.got| >= s.reader.n
    ensures var g, s' := |s.reader.got|, StepReader(s);
            && PointersInRing(s') && Contents(s') == Contents(s)[g..]
            && s'.delivered + Contents(s') == s.delivered + Contents(s)
  {
    hide UsedOf;
    hide Ring;
    var N, used, g := |s.buf|, UsedOf(s.pin, s.pout, |s.buf|), |s.reader.got|;
    var s' := StepReader(s);
    RingDrop(s.buf, s.pout, used, g);
    assert UsedOf(s'.pin, s'.pout, N) == used - g;
    assert Contents(s) == Contents(s)[..g] + Contents(s)[g..];
  }

  lemma PublishedReadKeepsWriter(s: State)
    requires Inv(s) && s.reader.RCopying? && |s.reader.got| >= s.reader.n
    requires var s' := StepReader(s); PointersInRing(s') && Contents(s') == Contents(s)[|s.reader.got|..]
    ensures WriterInv(StepReader(s))
  {
    hide UsedOf;
    hide Ring;
    var N, used, g := |s.buf|, UsedOf(s.pin, s.pout, |s.buf|), |s.reader.got|;
    var s' := StepReader(s);
    assert |Contents(s')| == UsedOf(s'.pin, s'.pout, N) == used - g;
    if s.writer.WCopying? {
      var i := s.writer.i;
      RingDrop(s.buf, s.pout, used + i, g);
      assert (Contents(s) + s.writer.data[..i])[g..] == Contents(s)[g..] + s.writer.data[..i];
    }
  }

  lemma ReaderPublishKeepsInv(s: State)
    requires Inv(s) && s.reader.RCopying? && |s.reader.got| >= s.reader.n
    ensures Inv(StepReader(s)) && Contents(StepReader(s)) == Contents(s)[|s.reader.got|..]
  {
    hide UsedOf;
    hide Ring;
    PublishedReadDrops(s);
    PublishedReadKeepsWriter(s);
  }

  lemma CallKeepsInv(s: State, e: Event)
    requires Inv(s) && (e.CallWrite? || e.CallRead?)
    ensures Inv(Step(s, e)) && Contents(Step(s, e)) == Contents(s)
  {
  }

  lemma WriterLoadKeepsInv(s: State)
    requires Inv(s) && !s.writer.WCopying?
    ensures Inv(StepWriter(s)) && Contents(StepWriter(s)) == Contents(s)
  {
    hide UsedOf;
    hide Ring;
    var N, used := |s.buf|, UsedOf(s.pin, s.pout, |s.buf|);
    if s.writer.WSawOut? {
      assert Ring(s.buf, s.pout, used + 0) == Contents(s) + s.writer.data[..0];
    }
  }

  lemma ReaderLoadKeepsInv(s: State)
    requires Inv(s) && !s.reader.RCopying?
    ensures Inv(StepReader(s)) && Contents(StepReader(s)) == Contents(s)
  {
    hide UsedOf;
    hide Ring;
  }

  lemma StepKeepsInv(s: State, e: Event)
    requires Inv(s)
    ensures Inv(Step(s, e)) && |Step(s, e).buf| == |s.buf|
  {
    match e
    case CallWrite(_, _) => CallKeepsInv(s, e);
    case CallRead(_) => CallKeepsInv(s, e);
    case WriterStep =>
      if !s.writer.WCopying? {
        WriterLoadKeepsInv(s);
      } else if s.writer.i < s.writer.n {
        WriterCopyKeepsInv(s);
      } else {
        WriterPublishKeepsInv(s);
      }
    case ReaderStep =>
      if !s.reader.RCopying? {
        ReaderLoadKeepsInv(s);
      } else if |s.reader.got| < s.reader.n {
        ReaderCopyKeepsInv(s);
      } else {
        ReaderPublishKeepsInv(s);
      }
  }

  ghost function Run(s: State, events: seq<Event>): State
    requires Inv(s)
    decreases |events|
  {
    if |events| == 0 then s
    else StepKeepsInv(s, events[0]); Run(Step(s, events[0]), events[1..])
  }

  lemma {:induction false} RunKeepsInv(s: State, events: seq<Event>)
    requires Inv(s)
    ensures Inv(Run(s, events)) && |Run(s, events).buf| == |s.buf|
    decreases |events|
  {
    hide Inv;
    hide Step;
    if |events| > 0 {
      StepKeepsInv(s, events[0]);
      RunKeepsInv(Step(s, events[0]), events[1..]);
    }
  }

  // ---------------------------------------------------------------- results

  /** The samples the reader holds: those of its finished reads and those copied so far. */
  function Received(s: State): seq<Sample> {
    s.delivered + if s.reader.RCopying? then s.reader.got else []
  }

  /** In every interleaving the reader has a prefix of what the writer has committed. */
  lemma ReaderSeesPrefixOfWrites(s: State, events: seq<Event>)
    requires Init(s)
    ensures Inv(s)
    ensures Received(Run(s, events)) <= Run(s, events).committed
  {
    assert Ring(s.buf, 0, 0) == [];
    RunKeepsInv(s, events);
    var t := Run(s, events);
    if t.reader.RCopying? {
      assert Contents(t)[..|t.reader.got|] <= Contents(t);
    }
  }

  /** Slot p holds a published sample that no completed read has released. */
  ghost predicate Unread(s: State, p: nat)
    requires PointersInRing(s)
  {
    p < |s.buf| && UsedOf(p, s.pout, |s.buf|) < |Contents(s)|
  }

  /** Slot p is one the writer stores into during its current call. */
  ghost predicate Granted(s: State, p: nat)
    requires PointersInRing(s)
  {
    s.writer.WCopying? && p < |s.buf| && UsedOf(p, s.pin, |s.buf|) < s.writer.n
  }

  /** In every reachable state one slot is free, and no slot granted to the writer holds an unread
      sample; the slot of its next store is a granted one. */
  lemma WriterNeverTouchesUnread(s: State, events: seq<Event>)
    requires Init(s)
    ensures Inv(s)
    ensures var t := Run(s, events);
            && PointersInRing(t)
            && (|t.buf| > 0 ==> |Contents(t)| <= |t.buf| - 1)
            && (t.writer.WCopying? && t.writer.i < t.writer.n ==> Granted(t, t.writer.p))
            && (forall p: nat :: Granted(t, p) ==> !Unread(t, p))
  {
    hide Step;
    assert Ring(s.buf, 0, 0) == [];
    RunKeepsInv(s, events);
  }

  /** Until it decides, the writer never believes there is more room, nor the reader more data,
      than there really is. */
  lemma StaleViewsAreConservative(s: State, events: seq<Event>)
    requires Init(s)
    ensures Inv(s)
    ensures var t := Run(s, events);
            && PointersInRing(t)
            && (t.writer.WSawOut? ==> |t.buf| - t.writer.used - 1 <= |t.buf| - |Contents(t)| - 1)
            && (t.reader.RSawOut? ==> t.reader.used <= |Contents(t)|)
  {
    assert Ring(s.buf, 0, 0) == [];
    RunKeepsInv(s, events);
  }

  // ---------------------------------------------------------------- linearisation

  /** A call on the queue with the answer it gets. */
  datatype Response = Response(call: Call, ok: bool)

  /** When the writer's call takes effect: an accepted one when it publishes pin, a refused one when it
      loads the pout that shows too little room. */
  ghost function WriterEffect(s: State): seq<Response>
    requires Inv(s)
  {
    match s.writer
    case WSawIn(data, n, p, pinSeen) =>
      if n > |s.buf| - UsedOf(pinSeen, s.pout, |s.buf|) - 1 then [Response(Put(data, n), false)] else []
    case WCopying(data, n, p, i) => if i >= n then [Response(Put(data, n), true)] else []
    case _ => []
  }

  /** When the reader's call takes effect: an accepted one when it publishes pout, a refused one when it
      loads the pin that shows too few samples. */
  ghost function ReaderEffect(s: State): seq<Response>
    requires Inv(s)
  {
    match s.reader
    case RCalled(n, p) => if n > UsedOf(s.pin, s.pout, |s.buf|) then [Response(Take(n), false)] else []
    case RCopying(n, p, got) => if |got| >= n then [Response(Take(n), true)] else []
    case _ => []
  }

  ghost function Effect(s: State, e: Event): seq<Response>
    requires Inv(s)
  {
    match e
    case WriterStep => WriterEffect(s)
    case ReaderStep => ReaderEffect(s)
    case _ => []
  }

  ghost function Effects(s: State, events: seq<Event>): seq<Response>
    requires Inv(s)
    decreases |events|
  {
    if |events| == 0 then []
    else StepKeepsInv(s, events[0]); Effect(s, events[0]) + Effects(Step(s, events[0]), events[1..])
  }

  ghost function Abstract(s: State): History
    requires Inv(s)
  {
    History(Contents(s), s.committed, s.delivered)
  }

  /** The queue, called one at a time, gives exactly these answers and ends as h'. */
  predicate Replays(capacity: int, h: History, rs: seq<Response>, h': History)
    decreases |rs|
  {
    if |rs| == 0 then h == h'
    else
      && rs[0].ok == Accepts(capacity, |h.queue|, rs[0].call)
      && Replays(capacity, Apply(capacity, h, rs[0].call), rs[1..], h')
  }

  lemma WriterPublishReplays(s: State)
    requires Inv(s) && s.writer.WCopying? && s.writer.i >= s.writer.n
    ensures Inv(StepWriter(s))
    ensures Accepts(|s.buf| - 1, |Contents(s)|, Put(s.writer.data, s.writer.n))
    ensures Abstract(StepWriter(s)) == Apply(|s.buf| - 1, Abstract(s), Put(s.writer.data, s.writer.n))
  {
    hide UsedOf;
    hide Ring;
    WriterPublishKeepsInv(s);
    assert Prefix(s.writer.data, s.writer.n) == s.writer.data[..s.writer.i];
  }

  lemma ReaderPublishReplays(s: State)
    requires Inv(s) && s.reader.RCopying? && |s.reader.got| >= s.reader.n
    ensures Inv(StepReader(s))
    ensures Accepts(|s.buf| - 1, |Contents(s)|, Take(s.reader.n))
    ensures Abstract(StepReader(s)) == Apply(|s.buf| - 1, Abstract(s), Take(s.reader.n))
  {
    hide UsedOf;
    hide Ring;
    ReaderPublishKeepsInv(s);
    assert s.reader.n <= 0 ==> Contents(s)[0..] == Contents(s) && s.delivered + [] == s.delivered;
  }

  /** What is loaded is the true occupancy at that moment: the writer's when it loads pout, the
      reader's when it loads pin. */
  lemma OccupancyIsExactWhenLoaded(s: State)
    requires Inv(s)
    ensures s.writer.WSawIn? ==> StepWriter(s).writer.used == |Contents(s)|
    ensures s.reader.RCalled? ==>
              var seen := StepReader(s).reader.pinSeen; UsedOf(seen, s.pout, |s.buf|) == |Contents(s)|
  {
    hide UsedOf;
    hide Ring;
  }

  lemma WriterStepReplays(s: State)
    requires Inv(s)
    ensures Inv(StepWriter(s)) && |StepWriter(s).buf| == |s.buf|
    ensures Replays(|s.buf| - 1, Abstract(s), WriterEffect(s), Abstract(StepWriter(s)))
  {
    hide UsedOf;
    hide Ring;
    if !s.writer.WCopying? {
      WriterLoadKeepsInv(s);
      OccupancyIsExactWhenLoaded(s);
      if s.writer.WSawIn? && |WriterEffect(s)| > 0 {
        ReplaysOne(|s.buf| - 1, Abstract(s), WriterEffect(s)[0], Abstract(StepWriter(s)));
      }
    } else if s.writer.i < s.writer.n {
      WriterCopyKeepsInv(s);
    } else {
      WriterPublishReplays(s);
      ReplaysOne(|s.buf| - 1, Abstract(s), WriterEffect(s)[0], Abstract(StepWriter(s)));
    }
  }

  lemma ReaderStepReplays(s: State)
    requires Inv(s)
    ensures Inv(StepReader(s)) && |StepReader(s).buf| == |s.buf|
    ensures Replays(|s.buf| - 1, Abstract(s), ReaderEffect(s), Abstract(StepReader(s)))
  {
    hide UsedOf;
    hide Ring;
    if !s.reader.RCopying? {
      ReaderLoadKeepsInv(s);
      OccupancyIsExactWhenLoaded(s);
      if s.reader.RCalled? && |ReaderEffect(s)| > 0 {
        ReplaysOne(|s.buf| - 1, Abstract(s), ReaderEffect(s)[0], Abstract(StepReader(s)));
      }
    } else if |s.reader.got| < s.reader.n {
      ReaderCopyKeepsInv(s);
    } else {
      ReaderPublishReplays(s);
      ReplaysOne(|s.buf| - 1, Abstract(s), ReaderEffect(s)[0], Abstract(StepReader(s)));
    }
  }

  lemma ReplaysOne(capacity: int, h: History, r: Response, h': History)
    requires r.ok == Accepts(capacity, |h.queue|, r.call) && h' == Apply(capacity, h, r.call)
    ensures Replays(capacity, h, [r], h')
  {
    assert [r][1..] == [];
  }

  /** Each step is one call on the queue with its answer, or invisible to it. */
  lemma StepRefinesQueue(s: State, e: Event)
    requires Inv(s)
    ensures Inv(Step(s, e)) && |Step(s, e).buf| == |s.buf| && |Effect(s, e)| <= 1
    ensures Replays(|s.buf| - 1, Abstract(s), Effect(s, e), Abstract(Step(s, e)))
  {
    hide UsedOf;
    hide Ring;
    hide StepWriter;
    hide StepReader;
    match e
    case CallWrite(_, _) => CallKeepsInv(s, e);
    case CallRead(_) => CallKeepsInv(s, e);
    case WriterStep => WriterStepReplays(s);
    case ReaderStep => ReaderStepReplays(s);
  }

  lemma {:induction false} ReplaysConcat(capacity: int, h: History, a: seq<Response>, h': History,
                                         b: seq<Response>, h'': History)
    requires Replays(capacity, h, a, h') && Replays(capacity, h', b, h'')
    ensures Replays(capacity, h, a + b, h'')
    decreases |a|
  {
    hide Apply;
    if |a| == 0 {
      assert a + b == b;
    } else {
      assert (a + b)[1..] == a[1..] + b;
      ReplaysConcat(capacity, Apply(capacity, h, a[0].call), a[1..], h', b, h'');
    }
  }

  /** Every concurrent run is a sequential run of the queue: its calls, accepted and refused, each at one
      moment between its start and its return, get the same answers and leave the same queue. */
  lemma {:induction false} RunsAreLinearisable(s: State, events: seq<Event>)
    requires Inv(s)
    ensures Inv(Run(s, events))
    ensures Replays(|s.buf| - 1, Abstract(s), Effects(s, events), Abstract(Run(s, events)))
    decreases |events|
  {
    hide Inv;
    hide Step;
    hide Abstract;
    hide Effect;
    hide Replays;
    if |events| == 0 {
      ReplaysNothing(|s.buf| - 1, Abstract(s));
    } else {
      var e, s1 := events[0], Step(s, events[0]);
      StepRefinesQueue(s, e);
      RunsAreLinearisable(s1, events[1..]);
      var t := Run(s1, events[1..]);
      ReplaysConcat(|s.buf| - 1, Abstract(s), Effect(s, e), Abstract(s1), Effects(s1, events[1..]), Abstract(t));
    }
  }

  lemma ReplaysNothing(capacity: int, h: History)
    ensures Replays(capacity, h, [], h)
  {
  }

  // ---------------------------------------------------------------- the answers are the ones returned

  /** What a step returns to the caller: 0 on publication, -1 when the decision goes against it. */
  ghost function Return(s: State, e: Event): seq<Response>
    requires Inv(s)
  {
    if e.WriterStep? && s.writer.WSawOut? && s.writer.n > |s.buf| - s.writer.used - 1
    then [Response(Put(s.writer.data, s.writer.n), false)]
    else if e.WriterStep? && s.writer.WCopying? && s.writer.i >= s.writer.n
    then [Response(Put(s.writer.data, s.writer.n), true)]
    else if e.ReaderStep? && s.reader.RSawOut? && s.reader.n > s.reader.used
    then [Response(Take(s.reader.n), false)]
    else if e.ReaderStep? && s.reader.RCopying? && |s.reader.got| >= s.reader.n
    then [Response(Take(s.reader.n), true)]
    else []
  }

  ghost function Returns(s: State, events: seq<Event>): seq<Response>
    requires Inv(s)
    decreases |events|
  {
    if |events| == 0 then []
    else StepKeepsInv(s, events[0]); Return(s, events[0]) + Returns(Step(s, events[0]), events[1..])
  }

  /** The responses of one thread: the writer's are puts, the reader's takes. */
  function OfThread(rs: seq<Response>, writer: bool): seq<Response> {
    if |rs| == 0 then []
    else (if rs[0].call.Put? == writer then [rs[0]] else []) + OfThread(rs[1..], writer)
  }

  /** The refusal a thread has met but not yet returned. */
  ghost function Pending(s: State, writer: bool): seq<Response>
    requires Inv(s)
  {
    if writer then
      if s.writer.WSawOut? && s.writer.n > |s.buf| - s.writer.used - 1
      then [Response(Put(s.writer.data, s.writer.n), false)] else []
    else
      match s.reader
      case RSawIn(n, p, pinSeen) => if n > UsedOf(pinSeen, s.pout, |s.buf|) then [Response(Take(n), false)] else []
      case RSawOut(n, p, used) => if n > used then [Response(Take(n), false)] else []
      case _ => []
  }

  /** A step of a thread adds to its answers what it returns or holds back. */
  lemma OwnStepAnswers(s: State, writer: bool)
    requires Inv(s)
    ensures var e := if writer then WriterStep else ReaderStep;
            Inv(Step(s, e)) && Pending(s, writer) + Effect(s, e) == Return(s, e) + Pending(Step(s, e), writer)
  {
    hide Ring;
    hide UsedOf;
    if writer {
      StepKeepsInv(s, WriterStep);
    } else {
      StepKeepsInv(s, ReaderStep);
    }
  }

  /** A step of the other thread, or a new call, changes nothing about them. */
  lemma OtherStepAnswers(s: State, e: Event, writer: bool)
    requires Inv(s) && e != if writer then WriterStep else ReaderStep
    ensures Inv(Step(s, e)) && Pending(Step(s, e), writer) == Pending(s, writer)
    ensures forall r :: r in Effect(s, e) || r in Return(s, e) ==> r.call.Put? == !writer
  {
    hide StepWriter;
    hide StepReader;
    hide Ring;
    hide UsedOf;
    StepKeepsInv(s, e);
    if e.WriterStep? {
      WriterStepAlone(s);
    } else if e.ReaderStep? {
      ReaderStepAlone(s);
    }
  }

  lemma WriterStepAlone(s: State)
    requires Inv(s)
    ensures Inv(StepWriter(s)) && Pending(StepWriter(s), false) == Pending(s, false)
    ensures forall r :: r in WriterEffect(s) || r in Return(s, WriterStep) ==> r.call.Put?
  {
    hide Ring;
    hide UsedOf;
    hide StepReader;
    StepKeepsInv(s, WriterStep);
    WriterStepParts(s);
  }

  lemma WriterStepParts(s: State)
    requires Inv(s)
    ensures StepWriter(s).reader == s.reader && StepWriter(s).pout == s.pout && |StepWriter(s).buf| == |s.buf|
  {
    hide Ring;
    hide UsedOf;
  }

  lemma ReaderStepAlone(s: State)
    requires Inv(s)
    ensures Inv(StepReader(s)) && Pending(StepReader(s), true) == Pending(s, true)
    ensures forall r :: r in ReaderEffect(s) || r in Return(s, ReaderStep) ==> r.call.Take?
  {
    hide Ring;
    hide UsedOf;
    hide StepWriter;
    StepKeepsInv(s, ReaderStep);
    ReaderStepParts(s);
  }

  lemma ReaderStepParts(s: State)
    requires Inv(s)
    ensures StepReader(s).writer == s.writer && |StepReader(s).buf| == |s.buf|
  {
    hide Ring;
    hide UsedOf;
  }

  lemma StepAnswers(s: State, e: Event, writer: bool)
    requires Inv(s)
    ensures Inv(Step(s, e))
    ensures Pending(s, writer) + OfThread(Effect(s, e), writer)
            == OfThread(Return(s, e), writer) + Pending(Step(s, e), writer)
  {
    hide Inv;
    hide Step;
    hide Pending;
    OfOne(Effect(s, e), writer);
    OfOne(Return(s, e), writer);
    if e == if writer then WriterStep else ReaderStep {
      OwnStepAnswers(s, writer);
    } else {
      OtherStepAnswers(s, e, writer);
      NothingAdded(Pending(s, writer));
    }
  }

  lemma NothingAdded(a: seq<Response>)
    ensures [] + a == a == a + []
  {
  }

  lemma OfOne(rs: seq<Response>, writer: bool)
    requires |rs| <= 1
    ensures OfThread(rs, writer) == if |rs| == 1 && rs[0].call.Put? == writer then rs else []
  {
    if |rs| == 1 {
      assert rs[1..] == [] && rs == [rs[0]];
    }
  }

  lemma {:induction false} OfConcat(a: seq<Response>, b: seq<Response>, writer: bool)
    ensures OfThread(a + b, writer) == OfThread(a, writer) + OfThread(b, writer)
  {
    if |a| == 0 {
      assert a + b == b;
    } else {
      assert (a + b)[1..] == a[1..] + b;
      OfConcat(a[1..], b, writer);
    }
  }

  /** In every run, each thread's calls return exactly the answers of the sequential run, in order; at
      most the last refusal is still on its way back. */
  lemma {:induction false} ReturnsMatchEffects(s: State, events: seq<Event>, writer: bool)
    requires Inv(s)
    ensures Inv(Run(s, events))
    ensures Pending(s, writer) + OfThread(Effects(s, events), writer)
            == OfThread(Returns(s, events), writer) + Pending(Run(s, events), writer)
    decreases |events|
  {
    hide Inv;
    hide Step;
    hide Effect;
    hide Return;
    hide Pending;
    if |events| == 0 {
      OfOne([], writer);
    } else {
      var e, rest := events[0], events[1..];
      StepAnswers(s, e, writer);
      var s1 := Step(s, e);
      ReturnsMatchEffects(s1, rest, writer);
      OfConcat(Effect(s, e), Effects(s1, rest), writer);
      OfConcat(Return(s, e), Returns(s1, rest), writer);
      Splice(Pending(s, writer), OfThread(Effect(s, e), writer), OfThread(Effects(s1, rest), writer),
             OfThread(Return(s, e), writer), Pending(s1, writer),
             OfThread(Returns(s1, rest), writer), Pending(Run(s1, rest), writer));
    }
  }

  lemma Splice(a: seq<Response>, b: seq<Response>, c: seq<Response>, d: seq<Response>, m: seq<Response>,
               x: seq<Response>, y: seq<Response>)
    requires a + b == d + m && m + c == x + y
    ensures a + (b + c) == (d + x) + y
  {
    assert a + (b + c) == (a + b) + c == d + (m + c) == (d + x) + y;
  }
}
