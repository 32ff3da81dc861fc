/**
 The one-writer, one-reader sample FIFO as an object whose buffer and pointers are
 updated in place, refining a bounded queue.
 */
module FifoQueue {
  import opened Bits

  newtype Sample = x: int | -32768 <= x < 32768   // a C short

  const INT_MAX := 0x7fff_ffff
  const UINT_RANGE := 0x1_0000_0000

  // ---------------------------------------------------------------- ring arithmetic

  /** A slot number counted past the end of an n-slot buffer, brought back into it. */
  function Wrap(k: nat, n: nat): nat {
    if k >= n then k - n else k
  }

  predicate InRing(p: nat, n: nat) {
    p < n || n == p == 0
  }

  /** Occupancy as the code computes it, in 32-bit unsigned arithmetic. */
  function UsedOf(pin: nat, pout: nat, n: nat): (r: int)
    requires n <= INT_MAX && InRing(pin, n) && InRing(pout, n)
    ensures 0 <= r && (n > 0 ==> r < n) && (n == 0 ==> r == 0)
    ensures pin == Wrap(pout + r, n)
  {
    if pin >= pout then pin - pout
    else (n + (pin - pout) % UINT_RANGE) % UINT_RANGE
  }

  /** The unsigned wrap-around computes the pointer distance modulo the buffer size. */
  lemma UsedIsDistanceModulo(pin: nat, pout: nat, n: nat)
    requires 0 < n <= INT_MAX && pin < n && pout < n
    ensures UsedOf(pin, pout, n) == (pin - pout) % n
  {
    if pin >= pout {
      QuotientUnique(pin - pout, n, 0, pin - pout);
    } else {
      QuotientUnique(pin - pout, n, -1, pin - pout + n);
    }
  }

  /** The len samples starting at slot start, in ring order. */
  ghost function Ring(buf: seq<Sample>, start: nat, len: nat): (s: seq<Sample>)
    requires InRing(start, |buf|) && len <= |buf|
    ensures |s| == len
  {
    seq(len, k requires 0 <= k < len => buf[Wrap(start + k, |buf|)])
  }

  /** Storing into the first free slot extends the ring by one sample. */
  lemma RingStore(buf: seq<Sample>, start: nat, len: nat, x: Sample)
    requires start < |buf| && len < |buf|
    ensures Ring(buf[Wrap(start + len, |buf|) := x], start, len + 1) == Ring(buf, start, len) + [x]
  {
    var before, after := Ring(buf, start, len), Ring(buf[Wrap(start + len, |buf|) := x], start, len + 1);
    forall k | 0 <= k < len ensures after[k] == before[k] {
      assert Wrap(start + k, |buf|) != Wrap(start + len, |buf|);
    }
    assert after[len] == x;
  }

  /** Moving the start past i samples drops them. */
  lemma RingDrop(buf: seq<Sample>, start: nat, len: nat, i: nat)
    requires InRing(start, |buf|) && i <= len <= |buf| && (len == |buf| ==> len == 0)
    ensures InRing(Wrap(start + i, |buf|), |buf|)
    ensures Ring(buf, Wrap(start + i, |buf|), len - i) == Ring(buf, start, len)[i..]
  {
    var before, after := Ring(buf, start, len), Ring(buf, Wrap(start + i, |buf|), len - i);
    forall k | 0 <= k < len - i ensures after[k] == before[i..][k] {
      assert Wrap(Wrap(start + i, |buf|) + k, |buf|) == Wrap(start + (i + k), |buf|);
    }
  }

  // ---------------------------------------------------------------- the object

  class Fifo {
    const buf: array<Sample>
    const nshort: nat
    var pin: nat
    var pout: nat

    ghost predicate Valid()
      reads this
    {
      buf.Length == nshort <= INT_MAX && InRing(pin, nshort) && InRing(pout, nshort)
    }

    /** The abstract queue held by the ring. */
    ghost function Contents(): (q: seq<Sample>)
      reads this, buf
      requires Valid()
      ensures |q| == UsedOf(pin, pout, nshort)
    {
      Ring(buf[..], pout, UsedOf(pin, pout, nshort))
    }

    constructor (nshort: nat)
      requires nshort <= INT_MAX
      ensures Valid() && fresh(buf) && this.nshort == nshort
      ensures Contents() == []
    {
      buf := new Sample[nshort];
      this.nshort := nshort;
      pin, pout := 0, 0;
    }

    method Used() returns (used: int)
      requires Valid()
      ensures used == |Contents()|
    {
      if pin >= pout {
        used := pin - pout;
      } else {
        used := (nshort + (pin - pout) % UINT_RANGE) % UINT_RANGE;
      }
    }

    /** All n samples are appended, or none when they do not fit in the nshort - 1 usable slots. */
    method Write(data: array<Sample>, n: int) returns (status: int)
      requires Valid() && data != buf && n <= data.Length
      modifies this`pin, buf
      ensures Valid()
      ensures status == if old(|Contents()|) + n <= nshort - 1 then 0 else -1
      ensures status == 0 ==> Contents() == old(Contents()) + data[..if n > 0 then n else 0]
      ensures status != 0 ==> Contents() == old(Contents()) && pin == old(pin) && buf[..] == old(buf[..])
    {
      var p := pin;
      ghost var q := Contents();
      var used := Used();
      var free := nshort - used - 1;
      if n > free {
        return -1;
      }
      var i := 0;
      while i < n
        invariant 0 <= i && (i <= n || i == 0)
        invariant used + i <= nshort && p == Wrap(pout + used + i, nshort)
        invariant Ring(buf[..], pout, used + i) == q + data[..i]
      {
        RingStore(buf[..], pout, used + i, data[i]);
        assert data[..i + 1] == data[..i] + [data[i]];
        buf[p] := data[i];
        p := p + 1;
        if p == nshort {
          p := 0;
        }
        i := i + 1;
      }
      pin := p;
      status := 0;
    }

    /** The n oldest samples are removed into data, or nothing moves when fewer are held. */
    method Read(data: array<Sample>, n: int) returns (status: int)
      requires Valid() && data != buf && n <= data.Length
      modifies this`pout, data
      ensures Valid()
      ensures status == if n <= old(|Contents()|) then 0 else -1
      ensures status == 0 ==>
                var m := if n > 0 then n else 0;
                && data[..m] == old(Contents())[..m]
                && data[m..] == old(data[m..])
                && Contents() == old(Contents())[m..]
      ensures status != 0 ==> Contents() == old(Contents()) && pout == old(pout) && data[..] == old(data[..])
    {
      var p := pout;
      ghost var q := Contents();
      var used := Used();
      if n > used {
        return -1;
      }
      var i := 0;
      while i < n
        invariant 0 <= i && (i <= n || i == 0)
        invariant pout == old(pout) && p == Wrap(pout + i, nshort)
        invariant buf[..] == old(buf[..])
        invariant data[..i] == q[..i] && data[i..] == old(data[i..])
      {
        data[i] := buf[p];
        assert data[i] == q[i];
        p := p + 1;
        if p == nshort {
          p := 0;
        }
        i := i + 1;
      }
      RingDrop(buf[..], pout, used, i);
      pout := p;
      status := 0;
    }
  }

  // ---------------------------------------------------------------- the bounded queue

  /** One call on the abstract queue: put the first n of xs, or take n; n <= 0 moves nothing. */
  datatype Call = Put(xs: seq<Sample>, n: int) | Take(n: int)

  datatype History = History(queue: seq<Sample>, accepted: seq<Sample>, delivered: seq<Sample>)

  /** Whether a queue that holds so many samples accepts the call. */
  predicate Accepts(capacity: int, held: nat, c: Call) {
    c.n <= if c.Put? then capacity - held else held
  }

  /** The first n of xs, none when n is not positive. */
  function Prefix(xs: seq<Sample>, n: int): seq<Sample> {
    if n <= 0 then [] else if n <= |xs| then xs[..n] else xs
  }

  function Apply(capacity: int, h: History, c: Call): History {
    if !Accepts(capacity, |h.queue|, c) then h
    else
      match c
      case Put(xs, n) => History(h.queue + Prefix(xs, n), h.accepted + Prefix(xs, n), h.delivered)
      case Take(n) =>
        if n <= 0 then h else History(h.queue[n..], h.accepted, h.delivered + h.queue[..n])
  }

  function ApplyAll(capacity: int, h: History, calls: seq<Call>): History
    decreases |calls|
  {
    if |calls| == 0 then h else ApplyAll(capacity, Apply(capacity, h, calls[0]), calls[1..])
  }

  lemma CallConserves(capacity: int, h: History, c: Call)
    requires h.accepted == h.delivered + h.queue
    ensures var h' := Apply(capacity, h, c);
            && h'.accepted == h'.delivered + h'.queue
            && h.accepted <= h'.accepted && h.delivered <= h'.delivered
            && (|h.queue| <= capacity ==> |h'.queue| <= capacity)
  {
    if c.Take? && 0 < c.n <= |h.queue| {
      assert h.queue == h.queue[..c.n] + h.queue[c.n..];
    }
  }

  /** Whatever the calls and however many are refused, nothing is lost, duplicated or reordered. */
  lemma {:induction false} QueueConserves(capacity: int, h: History, calls: seq<Call>)
    requires h.accepted == h.delivered + h.queue
    ensures var h' := ApplyAll(capacity, h, calls);
            && h'.accepted == h'.delivered + h'.queue
            && h.accepted <= h'.accepted && h.delivered <= h'.delivered
            && (|h.queue| <= capacity ==> |h'.queue| <= capacity)
    decreases |calls|
  {
    hide Apply;
    if calls != [] {
      CallConserves(capacity, h, calls[0]);
      QueueConserves(capacity, Apply(capacity, h, calls[0]), calls[1..]);
    }
  }

  /** Splitting an accepted write, or a successful read, into two calls changes nothing. */
  lemma ChunkingIrrelevant(capacity: int, h: History, xs: seq<Sample>, ys: seq<Sample>, m: nat, n: nat)
    ensures |h.queue| + |xs + ys| <= capacity ==>
              Apply(capacity, h, Put(xs + ys, |xs + ys|))
              == Apply(capacity, Apply(capacity, h, Put(xs, |xs|)), Put(ys, |ys|))
    ensures m + n <= |h.queue| ==>
              Apply(capacity, h, Take(m + n)) == Apply(capacity, Apply(capacity, h, Take(m)), Take(n))
  {
    if |h.queue| + |xs + ys| <= capacity {
      PrefixOfAll(xs); PrefixOfAll(ys); PrefixOfAll(xs + ys);
      assert h.queue + (xs + ys) == (h.queue + xs) + ys;
      assert h.accepted + (xs + ys) == (h.accepted + xs) + ys;
    }
    if m + n <= |h.queue| {
      assert h.queue[m + n..] == h.queue[m..][n..];
      assert h.queue[..m + n] == h.queue[..m] + h.queue[m..][..n];
      assert h.delivered + h.queue[..m + n] == (h.delivered + h.queue[..m]) + h.queue[m..][..n];
    }
  }

  lemma PrefixOfAll(xs: seq<Sample>)
    ensures Prefix(xs, |xs|) == xs
  {
  }
}
