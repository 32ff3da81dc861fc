/** What kiss_fft_alloc and kiss_fft promise their callers. */
module Fft {
  import opened Bits
  import opened Complex
  import opened RootsOfUnity
  import opened FourierTransform
  import opened FftStages
  import opened FftFactors
  import opened KissFft

  const MAX_FACTORS := 32

  /** kiss_fft_alloc; cexp(i) is what kf_cexp stores for entry i. */
  method Alloc(nfft: nat, inverse: bool, cexp: int -> Cpx, floorSqrt: nat, ghost r: Cpx) returns (st: Config)
    requires IsRoot(r, nfft, inverse) && forall i :: 0 <= i < nfft ==> cexp(i) == Power(r, i)
    requires floorSqrt * floorSqrt <= nfft < (floorSqrt + 1) * (floorSqrt + 1)
    ensures st.nfft == nfft && st.inverse == inverse && Ready(st, r) && Chain(st.factors, nfft)
    ensures nfft < 0x8000_0000 ==> |st.factors| <= MAX_FACTORS
  {
    hide Power;
    hide Chain;
    var twiddles: seq<Cpx> := [];
    for i := 0 to nfft
      invariant |twiddles| == i && forall k :: 0 <= k < i ==> twiddles[k] == cexp(k)
    {
      twiddles := twiddles + [cexp(i)];
    }
    var factors := Factor(nfft, floorSqrt);
    if nfft < 0x8000_0000 && |factors| > MAX_FACTORS {
      TooMany(|factors|);
    }
    st := Config(nfft, inverse, factors, twiddles);
  }

  lemma TooMany(k: nat)
    requires k > 32
    ensures Pow2(k) >= 0x8000_0000
  {
    Pow2Mono(31, k);
    Pow2At31(31);
  }

  lemma Pow2At31(k: nat)
    requires k == 31
    ensures Pow2(k) == 0x8000_0000
  {
    Pow2At15(15);
    Pow2Add(15, 15);
    assert Pow2(k) == 2 * Pow2(k - 1);
  }

  lemma Pow2At15(k: nat)
    requires k == 15
    ensures Pow2(k) == 0x8000
  {
    Pow2Add(7, 7);
    assert Pow2(7) == 128;
    assert Pow2(k) == 2 * Pow2(k - 1);
  }

  method OutOfPlace(st: Config, fin: array<Cpx>, fout: array<Cpx>, inStride: nat, ghost r: Cpx)
    requires Ready(st, r) && Chain(st.factors, st.nfft) && fin != fout
    requires fout.Length == st.nfft && (st.nfft - 1) * inStride < fin.Length
    modifies fout
    ensures forall k :: 0 <= k < st.nfft ==> fout[k] == Dft(old(fin[..]), 0, inStride, st.nfft, r, 1, k)
  {
    hide Dft;
    hide Chain;
    hide Ready;
    hide Transformed;
    RootLength(st, r);
    ghost var x := fin[..];
    assert 1 * inStride == inStride;
    Work(fout, 0, fin, 0, 1, inStride, st.factors, st, st.nfft, r, x);
    Entries(fout[..], st.nfft, x, inStride, r);
  }

  method Copy(from: array<Cpx>, to: array<Cpx>)
    requires from != to && from.Length == to.Length
    modifies to
    ensures to[..] == from[..]
  {
    for i := 0 to to.Length
      invariant forall k :: 0 <= k < i ==> to[k] == from[k]
    {
      to[i] := from[i];
    }
  }

  /** kiss_fft_stride: fout becomes the discrete Fourier transform of the samples of fin taken every
      inStride places, also when the two are the same buffer. */
  method FftStride(st: Config, fin: array<Cpx>, fout: array<Cpx>, inStride: nat, ghost r: Cpx)
    requires Ready(st, r) && Chain(st.factors, st.nfft)
    requires fout.Length == st.nfft && (st.nfft - 1) * inStride < fin.Length
    modifies fout
    ensures forall k :: 0 <= k < st.nfft ==> fout[k] == Dft(old(fin[..]), 0, inStride, st.nfft, r, 1, k)
  {
    hide Dft;
    hide Chain;
    hide Ready;
    if fin == fout {
      var tmpbuf := new Cpx[st.nfft](_ => Zero);
      OutOfPlace(st, fin, tmpbuf, inStride, r);
      ghost var done := tmpbuf[..];
      Copy(tmpbuf, fout);
      assert forall k :: 0 <= k < st.nfft ==> fout[k] == done[k];
    } else {
      OutOfPlace(st, fin, fout, inStride, r);
    }
  }

  lemma RootLength(st: Config, r: Cpx)
    requires Ready(st, r)
    ensures st.nfft >= 1
  {
    hide Power;
  }

  lemma Entries(now: seq<Cpx>, n: nat, x: seq<Cpx>, stride: int, r: Cpx)
    requires |now| == n && Transformed(now, 0, n, x, 0, stride, r, 1)
    ensures forall k :: 0 <= k < n ==> now[k] == Dft(x, 0, stride, n, r, 1, k)
  {
    hide Dft;
    forall k | 0 <= k < n ensures now[k] == Dft(x, 0, stride, n, r, 1, k) {
      assert Index(0, 1, 0, k) == k;
    }
  }

  /** kiss_fft */
  method Fft(st: Config, fin: array<Cpx>, fout: array<Cpx>, ghost r: Cpx)
    requires Ready(st, r) && Chain(st.factors, st.nfft) && fin.Length == fout.Length == st.nfft
    modifies fout
    ensures fout[..] == Spectrum(old(fin[..]), r)
  {
    hide Dft;
    hide Chain;
    hide Ready;
    RootLength(st, r);
    FftStride(st, fin, fout, 1, r);
  }

  /** A forward transform followed by an inverse one multiplies every sample by the length. */
  method RoundTrip(forward: Config, inverse: Config, buf: array<Cpx>, ghost r: Cpx)
    requires Ready(forward, r) && Ready(inverse, Conj(r)) && forward.nfft == inverse.nfft == buf.Length
    requires !forward.inverse && Chain(forward.factors, buf.Length) && Chain(inverse.factors, buf.Length)
    modifies buf
    ensures forall i :: 0 <= i < buf.Length ==> buf[i] == Scale(buf.Length as real, old(buf[i]))
  {
    hide Dft;
    hide Chain;
    hide Scale;
    hide Conj;
    hide Power;
    ghost var x := buf[..];
    Fft(forward, buf, buf, r);
    Fft(inverse, buf, buf, Conj(r));
    forall i | 0 <= i < |x| ensures buf[i] == Scale(|x| as real, x[i]) {
      InverseUndoesForward(x, r, i);
    }
  }
}
