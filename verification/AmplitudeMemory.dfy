/**
 The three-frame memory of ampexp.c: each call hands back the frame before, its amplitudes replaced on
 every other call by the midpoint of the quantised frames on either side.
 */
module AmplitudeMemory {
  import opened VectorQuantiser

  const MAX_AMP := 80

  datatype Model = Model(wo: real, harmonics: nat, amplitude: seq<real>, phi: seq<real>, voiced: bool)

  /** A frame with the magnitude and the codebook rows sparse_vq_amp chose for it. */
  datatype Frame = Frame(model: Model, mag: real, rows: seq<int>)

  /** The library functions the code calls: 20 log10, its inverse, and the bin of a harmonic. */
  datatype Maths = Maths(dB: real -> real, undB: real -> real, bin: (int, real) -> int)

  predicate Fits(books: seq<Codebook>, f: Frame) {
    && |books| == |f.rows| == 5
    && forall b :: 0 <= b < 5 ==> books[b].offset + books[b].k <= MAX_AMP && RowFits(books[b], f.rows[b])
  }

  predicate RowFits(book: Codebook, row: int) {
    0 <= row && 0 <= book.k * row && book.k * row + book.k <= |book.cb|
  }

  predicate Covers(book: Codebook, j: int) {
    book.offset <= j < book.offset + book.k
  }

  /** The level in dB that frame f was quantised to at position j, by book b. */
  function Quantised(books: seq<Codebook>, f: Frame, b: nat, j: int): real
    requires Fits(books, f) && b < 5 && Covers(books[b], j)
  {
    f.mag + books[b].cb[books[b].k * f.rows[b] + (j - books[b].offset)]
  }

  function Midpoint(x: real, y: real): real {
    0.5 * x + 0.5 * y
  }

  /** The interpolated level at j: the last of the first n books that covers j decides. */
  function Level(books: seq<Codebook>, before: Frame, after: Frame, n: nat, j: int): real
    requires Fits(books, before) && Fits(books, after) && n <= 5
  {
    if n == 0 then 0.0
    else if Covers(books[n - 1], j) then
      Midpoint(Quantised(books, before, n - 1, j), Quantised(books, after, n - 1, j))
    else Level(books, before, after, n - 1, j)
  }

  /** The last book that covers a position decides: half of the sum of what the two frames were quantised to. */
  lemma {:induction false} LevelIsMidpoint(books: seq<Codebook>, before: Frame, after: Frame, n: nat, b: nat, j: int)
    requires Fits(books, before) && Fits(books, after) && b < n <= 5 && Covers(books[b], j)
    requires forall c :: b < c < n ==> !Covers(books[c], j)
    ensures var i := j - books[b].offset;
            && 0 <= books[b].k * before.rows[b] + i < |books[b].cb|
            && 0 <= books[b].k * after.rows[b] + i < |books[b].cb|
            && 2.0 * Level(books, before, after, n, j) == before.mag + books[b].cb[books[b].k * before.rows[b] + i]
                                                          + after.mag + books[b].cb[books[b].k * after.rows[b] + i]
  {
    if b < n - 1 { LevelIsMidpoint(books, before, after, n - 1, b, j); }
  }

  lemma {:induction false} LevelUncovered(books: seq<Codebook>, before: Frame, after: Frame, n: nat, j: int)
    requires Fits(books, before) && Fits(books, after) && n <= 5 && forall b :: 0 <= b < n ==> !Covers(books[b], j)
    ensures Level(books, before, after, n, j) == 0.0
  {
    if n > 0 { LevelUncovered(books, before, after, n - 1, j); }
  }

  predicate Playable(m: Model, maths: Maths) {
    && m.harmonics <= MAX_AMP && |m.amplitude| == MAX_AMP + 1
    && forall h :: 1 <= h <= m.harmonics ==> m.amplitude[h] > 0.0 && 0 <= maths.bin(h, m.wo) < MAX_AMP
  }

  /** The last of harmonics 1 to n in bin j, or 0; it is the one whose input level stays there. */
  function Last(m: Model, maths: Maths, n: nat, j: int): (h: nat)
    ensures h <= n && (h > 0 ==> maths.bin(h, m.wo) == j)
  {
    if n == 0 then 0 else if maths.bin(n, m.wo) == j then n else Last(m, maths, n - 1, j)
  }

  lemma {:induction false} LastIsThere(m: Model, maths: Maths, n: nat, h: nat)
    requires 1 <= h <= n
    ensures var j := maths.bin(h, m.wo); h <= Last(m, maths, n, j) <= n && maths.bin(Last(m, maths, n, j), m.wo) == j
  {
    if maths.bin(n, m.wo) != maths.bin(h, m.wo) {
      LastIsThere(m, maths, n - 1, h);
    }
  }

  /** The amplitude given to harmonic h: nothing is interpolated in a bin whose input level is 0 dB. */
  function Smoothed(books: seq<Codebook>, before: Frame, m: Model, after: Frame, maths: Maths, h: nat): real
    requires Fits(books, before) && Fits(books, after) && Playable(m, maths) && 1 <= h <= m.harmonics
  {
    LastIsThere(m, maths, m.harmonics, h);
    var j := maths.bin(h, m.wo);
    var empty := maths.dB(m.amplitude[Last(m, maths, m.harmonics, j)]) == 0.0;
    maths.undB(if empty then 0.0 else Level(books, before, after, 5, j))
  }

  lemma {:induction false} LastIsGreatest(m: Model, maths: Maths, n: nat, l: nat)
    requires 1 <= l <= n && forall g: nat :: l < g <= n ==> maths.bin(g, m.wo) != maths.bin(l, m.wo)
    ensures Last(m, maths, n, maths.bin(l, m.wo)) == l
  {
    if l < n { LastIsGreatest(m, maths, n - 1, l); }
  }

  /** With l the highest harmonic in the bin of h, h is played at the interpolated level of that bin, or at
      0 dB when l itself is at 0 dB. */
  lemma SmoothedIs(books: seq<Codebook>, before: Frame, m: Model, after: Frame, maths: Maths, h: nat, l: nat)
    requires Fits(books, before) && Fits(books, after) && Playable(m, maths) && 1 <= h <= l <= m.harmonics
    requires maths.bin(l, m.wo) == maths.bin(h, m.wo)
    requires forall g: nat :: l < g <= m.harmonics ==> maths.bin(g, m.wo) != maths.bin(l, m.wo)
    ensures maths.dB(m.amplitude[l]) == 0.0 ==> Smoothed(books, before, m, after, maths, h) == maths.undB(0.0)
    ensures maths.dB(m.amplitude[l]) != 0.0 ==>
              Smoothed(books, before, m, after, maths, h)
              == maths.undB(Level(books, before, after, 5, maths.bin(h, m.wo)))
  {
    hide Level;
    LastIsGreatest(m, maths, m.harmonics, l);
  }

  /** What is promised of an interpolated frame. */
  ghost predicate Interpolated(books: seq<Codebook>, before: Frame, m: Model, after: Frame, maths: Maths, out: Model)
    requires Fits(books, before) && Fits(books, after) && Playable(m, maths)
  {
    && out.wo == m.wo && out.harmonics == m.harmonics && out.phi == m.phi && out.voiced == m.voiced
    && |out.amplitude| == |m.amplitude|
    && forall h :: 0 <= h <= MAX_AMP ==>
         out.amplitude[h] ==
         if 1 <= h <= m.harmonics then Smoothed(books, before, m, after, maths, h) else m.amplitude[h]
  }

  /** interp_split_vq */
  method InterpSplitVq(out: array<real>, books: seq<Codebook>, before: Frame, after: Frame, input: array<real>,
                       ind: nat)
    requires Fits(books, before) && Fits(books, after) && ind < 5
    requires out != input && out.Length == input.Length == MAX_AMP
    modifies out
    ensures var book := books[ind];
            forall j :: 0 <= j < MAX_AMP ==>
              2.0 * out[j] == if book.offset <= j < book.offset + book.k && input[j] != 0.0
                              then before.mag + book.cb[book.k * before.rows[ind] + (j - book.offset)]
                                   + after.mag + book.cb[book.k * after.rows[ind] + (j - book.offset)]
                              else 2.0 * old(out[j])
    ensures forall j :: 0 <= j < MAX_AMP ==>
              out[j] == if Covers(books[ind], j) && input[j] != 0.0
                        then Midpoint(Quantised(books, before, ind, j), Quantised(books, after, ind, j))
                        else old(out[j])
  {
    var book := books[ind];
    for i := 0 to book.k
      invariant forall j :: 0 <= j < MAX_AMP ==>
                  out[j] == if book.offset <= j < book.offset + i && input[j] != 0.0
                            then Midpoint(Quantised(books, before, ind, j), Quantised(books, after, ind, j))
                            else old(out[j])
    {
      var j := book.offset + i;
      if input[j] != 0.0 {
        var level := 0.5 * (before.mag + book.cb[book.k * before.rows[ind] + i]);
        level := level + 0.5 * (after.mag + book.cb[book.k * after.rows[ind] + i]);
        out[j] := level;
      }
    }
  }

  /** All five books in turn. */
  method InterpAll(out: array<real>, books: seq<Codebook>, before: Frame, after: Frame, input: array<real>)
    requires Fits(books, before) && Fits(books, after)
    requires out != input && out.Length == input.Length == MAX_AMP && forall j :: 0 <= j < MAX_AMP ==> out[j] == 0.0
    modifies out
    ensures forall j :: 0 <= j < MAX_AMP ==>
              out[j] == if input[j] == 0.0 then 0.0 else Level(books, before, after, 5, j)
  {
    for ind := 0 to 5
      invariant forall j :: 0 <= j < MAX_AMP ==>
                  out[j] == if input[j] == 0.0 then 0.0 else Level(books, before, after, ind, j)
    {
      InterpSplitVq(out, books, before, after, input, ind);
    }
  }

  /** Every bin with a harmonic holds the level of the last one in it. */
  method FillInput(m: Model, maths: Maths, input: array<real>)
    requires Playable(m, maths) && input.Length == MAX_AMP
    modifies input
    ensures forall j :: 0 <= j < MAX_AMP && Last(m, maths, m.harmonics, j) > 0 ==>
              input[j] == maths.dB(m.amplitude[Last(m, maths, m.harmonics, j)])
  {
    for h := 1 to m.harmonics + 1
      invariant forall j :: 0 <= j < MAX_AMP && Last(m, maths, h - 1, j) > 0 ==>
                  input[j] == maths.dB(m.amplitude[Last(m, maths, h - 1, j)])
    {
      var index := maths.bin(h, m.wo);
      input[index] := maths.dB(m.amplitude[h]);
    }
  }

  /** The amplitude replacement of vq_interp; input starts with whatever was on the stack. */
  method Interpolate(m: Model, books: seq<Codebook>, before: Frame, after: Frame, maths: Maths, input: array<real>)
    returns (out: Model)
    requires Fits(books, before) && Fits(books, after) && Playable(m, maths) && input.Length == MAX_AMP
    modifies input
    ensures Interpolated(books, before, m, after, maths, out)
  {
    hide Last;
    hide Level;
    hide Fits;
    FillInput(m, maths, input);
    var output := new real[MAX_AMP](_ => 0.0);
    InterpAll(output, books, before, after, input);
    forall h | 1 <= h <= m.harmonics
      ensures maths.undB(output[maths.bin(h, m.wo)]) == Smoothed(books, before, m, after, maths, h)
    {
      LastIsThere(m, maths, m.harmonics, h);
    }
    var amplitude := m.amplitude;
    for h := 1 to m.harmonics + 1
      invariant |amplitude| == MAX_AMP + 1
      invariant forall g :: 0 <= g <= MAX_AMP ==>
                  amplitude[g] == if 1 <= g < h then Smoothed(books, before, m, after, maths, g) else m.amplitude[g]
    {
      amplitude := amplitude[h := maths.undB(output[maths.bin(h, m.wo)])];
    }
    out := m.(amplitude := amplitude);
  }

  // ---------------------------------------------------------------- the memory over a run

  /** What one call hands back, from the two frames before it and its own. */
  ghost predicate Answer(books: seq<Codebook>, before: Frame, previous: Frame, now: Frame, maths: Maths,
                         on: bool, count: int, out: Model)
    requires Fits(books, before) && Fits(books, now) && Playable(previous.model, maths)
  {
    if on && count % 2 == 0 then Interpolated(books, before, previous.model, now, maths, out) else out == previous.model
  }

  /** Every other call with the interpolation on replaces the amplitudes of the harmonics, h among them, and
      nothing else; every other answer is the frame before, untouched. */
  lemma AnswerIs(books: seq<Codebook>, before: Frame, previous: Frame, now: Frame, maths: Maths,
                 on: bool, count: int, out: Model, h: nat)
    requires Fits(books, before) && Fits(books, now) && Playable(previous.model, maths) && h <= MAX_AMP
    requires Answer(books, before, previous, now, maths, on, count, out)
    ensures !on || count % 2 != 0 ==> out == previous.model
    ensures on && count % 2 == 0 ==>
              && out.wo == previous.model.wo && out.harmonics == previous.model.harmonics
              && out.phi == previous.model.phi && out.voiced == previous.model.voiced && |out.amplitude| == MAX_AMP + 1
              && out.amplitude[h] == if 1 <= h <= previous.model.harmonics
                                     then Smoothed(books, before, previous.model, now, maths, h)
                                     else previous.model.amplitude[h]
  {
    hide Smoothed;
  }

  class Aexp {
    const books: seq<Codebook>
    const maths: Maths
    var frames: int
    const model: array<Model>
    const mag: array<real>
    const indexes: array2<int>

    /** The memory as amp_experiment_create leaves it: the same frame, magnitude one and first rows in every slot. */
    constructor (books: seq<Codebook>, maths: Maths, start: Model)
      ensures Shaped() && frames == 0 && this.books == books && this.maths == maths
      ensures fresh(model) && fresh(mag) && fresh(indexes)
      ensures Slot(0) == Slot(1) == Frame(start, 1.0, [0, 0, 0, 0, 0])
    {
      this.books, this.maths, frames := books, maths, 0;
      model := new Model[3](_ => start);
      mag := new real[3](_ => 1.0);
      indexes := new int[5, 3]((_, _) => 0);
    }

    predicate Shaped() {
      model.Length == 3 && mag.Length == 3 && indexes.Length0 == 5 && indexes.Length1 == 3
    }

    function Slot(i: nat): Frame
      requires Shaped() && i < 3
      reads model, mag, indexes
    {
      Frame(model[i], mag[i], [indexes[0, i], indexes[1, i], indexes[2, i], indexes[3, i], indexes[4, i]])
    }

    method Store(f: Frame)
      requires Shaped() && |f.rows| == 5
      modifies mag, indexes
      ensures mag[0] == old(mag[0]) && mag[1] == old(mag[1]) && mag[2] == f.mag
      ensures forall b :: 0 <= b < 5 ==>
                indexes[b, 2] == f.rows[b] && indexes[b, 0] == old(indexes[b, 0]) && indexes[b, 1] == old(indexes[b, 1])
    {
      mag[2] := f.mag;
      indexes[0, 2], indexes[1, 2], indexes[2, 2] := f.rows[0], f.rows[1], f.rows[2];
      indexes[3, 2], indexes[4, 2] := f.rows[3], f.rows[4];
    }

    method MoveSlot(i: nat)
      requires Shaped() && i < 2
      modifies model, mag, indexes
      ensures Slot(i) == old(Slot(i + 1))
      ensures forall t: nat :: t < 3 && t != i ==> Slot(t) == old(Slot(t))
    {
      model[i] := model[i + 1];
      for j := 0 to 5
        invariant forall b :: 0 <= b < j ==> indexes[b, i] == old(indexes[b, i + 1])
        invariant forall b :: j <= b < 5 ==> indexes[b, i] == old(indexes[b, i])
        invariant forall b, t :: 0 <= b < 5 && 0 <= t < 3 && t != i ==> indexes[b, t] == old(indexes[b, t])
        invariant model[i] == old(model[i + 1]) && forall t :: 0 <= t < 3 && t != i ==> model[t] == old(model[t])
        invariant forall t :: 0 <= t < 3 ==> mag[t] == old(mag[t])
      {
        indexes[j, i] := indexes[j, i + 1];
      }
      mag[i] := mag[i + 1];
    }

    /** Slot 1 to slot 0, slot 2 to slot 1. */
    method Shift()
      requires Shaped()
      modifies model, mag, indexes
      ensures Slot(0) == old(Slot(1)) && Slot(1) == old(Slot(2))
    {
      for i := 0 to 2
        invariant i == 0 ==> Slot(0) == old(Slot(0)) && Slot(1) == old(Slot(1)) && Slot(2) == old(Slot(2))
        invariant i == 1 ==> Slot(0) == old(Slot(1)) && Slot(1) == old(Slot(1)) && Slot(2) == old(Slot(2))
        invariant i == 2 ==> Slot(0) == old(Slot(1)) && Slot(1) == old(Slot(2))
      {
        MoveSlot(i);
      }
    }

    /** vq_interp */
    method VqInterp(m: Model, on: bool, input: array<real>) returns (out: Model)
      requires Shaped() && input.Length == MAX_AMP && input != mag
      requires Fits(books, Slot(0)) && Fits(books, Slot(2)) && Playable(model[1], maths)
      modifies model, mag, indexes, input
      ensures Slot(0) == old(Slot(1)) && Slot(1) == Frame(m, old(mag[2]), old(Slot(2)).rows)
      ensures Answer(books, old(Slot(0)), old(Slot(1)), Slot(1), maths, on, frames, out)
    {
      model[2] := m;
      ghost var before, now := Slot(0), Slot(2);
      if on && frames % 2 == 0 {
        out := Interpolate(model[1], books, Slot(0), Slot(2), maths, input);
      } else {
        out := model[1];
      }
      Shift();
    }

    /** The part of amp_experiment around it: quantise, interpolate, count. */
    method Step(f: Frame, on: bool, input: array<real>) returns (out: Model)
      requires Shaped() && input.Length == MAX_AMP && input != mag
      requires Fits(books, Slot(0)) && Fits(books, f) && Playable(model[1], maths)
      modifies this`frames, model, mag, indexes, input
      ensures frames == old(frames) + 1 && Slot(0) == old(Slot(1)) && Slot(1) == f
      ensures Answer(books, old(Slot(0)), old(Slot(1)), f, maths, on, old(frames), out)
    {
      Store(f);
      out := VqInterp(f.model, on, input);
      frames := frames + 1;
    }
  }

  /** Over any run: call t answers for frame t - 1, from frames t - 2 and t; the first two frames of
      the history are the start of the memory. */
  method Play(books: seq<Codebook>, maths: Maths, start: Model, frames: seq<Frame>, on: seq<bool>)
    returns (outs: seq<Model>)
    requires |on| == |frames|
    requires Playable(start, maths) && Fits(books, Frame(start, 1.0, [0, 0, 0, 0, 0]))
    requires forall t :: 0 <= t < |frames| ==> Fits(books, frames[t]) && Playable(frames[t].model, maths)
    ensures |outs| == |frames|
    ensures var first := Frame(start, 1.0, [0, 0, 0, 0, 0]); var history := [first, first] + frames;
            forall t :: 0 <= t < |frames| ==>
              Answer(books, history[t], history[t + 1], history[t + 2], maths, on[t], t, outs[t])
  {
    hide Answer;
    hide Fits;
    hide Playable;
    ghost var first := Frame(start, 1.0, [0, 0, 0, 0, 0]);
    ghost var history := [first, first] + frames;
    var aexp := new Aexp(books, maths, start);
    var input := new real[MAX_AMP];
    outs := [];
    for t := 0 to |frames|
      invariant |outs| == t == aexp.frames && aexp.Shaped() && aexp.books == books && aexp.maths == maths
      invariant fresh(aexp) && fresh(aexp.model) && fresh(aexp.mag) && fresh(aexp.indexes) && fresh(input)
      invariant input.Length == MAX_AMP && input != aexp.mag
      invariant aexp.Slot(0) == history[t] && aexp.Slot(1) == history[t + 1]
      invariant forall i :: 0 <= i < t ==>
                  Answer(books, history[i], history[i + 1], history[i + 2], maths, on[i], i, outs[i])
    {
      assert history[t + 2] == frames[t];
      var out := aexp.Step(frames[t], on[t], input);
      outs := outs + [out];
    }
  }
}
