/**
 The differential QPSK mapping of the modem (bits_to_dqpsk_symbols and qpsk_to_bits in fdmdv.c).
 Each data carrier turns by a multiple of a quarter circle per symbol, chosen by two bits; an extra
 carrier flips sign on alternate symbols to carry the pilot bit.
 */
module Dqpsk {
  import opened Complex

  const J := Cpx(0.0, 1.0)

  /** The symbol sent after prev for one pair of bits. */
  function TxSymbol(prev: Cpx, msb: bool, lsb: bool, oldMapping: bool): Cpx {
    if !msb && !lsb then prev
    else if !msb && lsb then Mul(J, prev)
    else if msb && !lsb then (if oldMapping then Neg(prev) else Mul(Neg(J), prev))
    else (if oldMapping then Mul(Neg(J), prev) else Neg(prev))
  }

  function TxPilot(prev: Cpx, pilotBit: bool): Cpx {
    if pilotBit then Neg(prev) else prev
  }

  /** Phase turn since the previous symbol, rotated by an eighth of a circle; norm stands for the
      receiver's amplitude normalisation and h for cos(pi/4) = sin(pi/4). */
  function PhaseDifference(prev: Cpx, rx: Cpx, norm: real, h: real): Cpx {
    Mul(Mul(rx, Scale(norm, Conj(prev))), Cpx(h, h))
  }

  /** The quadrant decision. */
  function Decide(d: Cpx, oldMapping: bool): (bool, bool) {
    if d.re >= 0.0 && d.im >= 0.0 then (false, false)
    else if d.re < 0.0 && d.im >= 0.0 then (false, true)
    else if d.re < 0.0 && d.im < 0.0 then (true, !oldMapping)
    else (true, oldMapping)
  }

  function SyncBit(prev: Cpx, rx: Cpx, norm: real): bool {
    Mul(rx, Scale(norm, Conj(prev))).re < 0.0
  }

  /** The turn a pair of bits stands for. */
  function Turn(msb: bool, lsb: bool, oldMapping: bool): Cpx {
    if !msb && !lsb then One
    else if !msb && lsb then J
    else if msb == lsb == oldMapping || (msb && !lsb && !oldMapping) then Neg(J)
    else Neg(One)
  }

  lemma TxSymbolTurns(prev: Cpx, msb: bool, lsb: bool, oldMapping: bool)
    ensures TxSymbol(prev, msb, lsb, oldMapping) == Mul(Turn(msb, lsb, oldMapping), prev)
  {
  }

  /** Multiplying by the conjugate of the previous symbol removes the channel and leaves the turn. */
  lemma ChannelCancels(gain: Cpx, prev: Cpx, turn: Cpx, norm: real)
    requires gain != Zero && prev != Zero && norm > 0.0
    ensures var k := norm * (NormSq(gain) * NormSq(prev));
            k > 0.0 && Mul(Mul(gain, Mul(turn, prev)), Scale(norm, Conj(Mul(gain, prev)))) == Scale(k, turn)
  {
    var rx, p := Mul(gain, Mul(turn, prev)), Mul(gain, prev);
    NormSqPositive(gain);
    NormSqPositive(prev);
    ProductPositive(NormSq(gain), NormSq(prev));
    ProductPositive(norm, NormSq(gain) * NormSq(prev));
    MulScale(norm, rx, Conj(p));
    RxIsTurned(gain, prev, turn);
    MulAssoc(turn, p, Conj(p));
    MulConj(p);
    NormSqMul(gain, prev);
    MulReal(NormSq(p), turn);
    ScaleScale(norm, NormSq(p), turn);
  }

  lemma RxIsTurned(gain: Cpx, prev: Cpx, turn: Cpx)
    ensures Mul(gain, Mul(turn, prev)) == Mul(turn, Mul(gain, prev))
  {
    MulAssoc(gain, turn, prev);
    MulComm(gain, turn);
    MulAssoc(turn, gain, prev);
  }

  lemma ScaleScale(k: real, l: real, a: Cpx)
    ensures Scale(k, Scale(l, a)) == Scale(k * l, a)
  {
    Triple(k, l, a.re);
    Triple(k, l, a.im);
  }

  lemma NormSqMul(a: Cpx, b: Cpx)
    ensures NormSq(Mul(a, b)) == NormSq(a) * NormSq(b)
  {
    var p := Mul(a, b);
    MulConj(p);
    ConjMul(a, b);
    MulAssoc(a, b, Mul(Conj(a), Conj(b)));
    MulComm(Conj(a), Conj(b));
    MulAssoc(b, Conj(b), Conj(a));
    MulConj(b);
    MulReal(NormSq(b), Conj(a));
    MulScale(NormSq(b), a, Conj(a));
    MulConj(a);
  }

  /** Whatever the constant gain and phase of the channel, the receiver recovers both bits ... */
  lemma DibitRecovered(gain: Cpx, prev: Cpx, msb: bool, lsb: bool, oldMapping: bool, norm: real, h: real)
    requires gain != Zero && prev != Zero && norm > 0.0 && h > 0.0
    ensures Decide(PhaseDifference(Mul(gain, prev), Mul(gain, TxSymbol(prev, msb, lsb, oldMapping)), norm, h),
                   oldMapping) == (msb, lsb)
  {
    var turn := Turn(msb, lsb, oldMapping);
    TxSymbolTurns(prev, msb, lsb, oldMapping);
    ChannelCancels(gain, prev, turn, norm);
    QuadrantOfTurn(norm * (NormSq(gain) * NormSq(prev)), msb, lsb, oldMapping, h);
  }

  lemma QuadrantOfTurn(k: real, msb: bool, lsb: bool, oldMapping: bool, h: real)
    requires k > 0.0 && h > 0.0
    ensures Decide(Mul(Scale(k, Turn(msb, lsb, oldMapping)), Cpx(h, h)), oldMapping) == (msb, lsb)
  {
    ProductPositive(k, h);
    assert Mul(Scale(k, One), Cpx(h, h)) == Cpx(k * h, k * h);
    assert Mul(Scale(k, Neg(One)), Cpx(h, h)) == Cpx(-(k * h), -(k * h));
    assert Mul(Scale(k, J), Cpx(h, h)) == Cpx(-(k * h), k * h);
    assert Mul(Scale(k, Neg(J)), Cpx(h, h)) == Cpx(k * h, -(k * h));
  }

  /** ... and the pilot bit. */
  lemma PilotRecovered(gain: Cpx, prev: Cpx, pilotBit: bool, norm: real)
    requires gain != Zero && prev != Zero && norm > 0.0
    ensures SyncBit(Mul(gain, prev), Mul(gain, TxPilot(prev, pilotBit)), norm) == pilotBit
  {
    var turn := if pilotBit then Neg(One) else One;
    assert TxPilot(prev, pilotBit) == Mul(turn, prev);
    ChannelCancels(gain, prev, turn, norm);
  }

  /** A sent symbol is never zero, so the next difference is well defined. */
  lemma TurnsKeepNonZero(prev: Cpx, msb: bool, lsb: bool, oldMapping: bool, pilotBit: bool)
    requires prev != Zero
    ensures TxSymbol(prev, msb, lsb, oldMapping) != Zero && TxPilot(prev, pilotBit) != Zero
  {
  }
}
