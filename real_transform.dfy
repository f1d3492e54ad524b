/** The real-signal adapter: a transform of 2 * M real samples computed by
    the complex transform of M points, followed (forward) or preceded
    (inverse) by a combine pass over the mirrored bin pairs k and M - k,
    with a dedicated table of M twiddles. Fixed-point branches only. */
module RealFFT {

  import opened FixedPoint
  import opened Butterflies
  import opened ComplexFFT

  //==========================================================================
  // One turn of the combine loops

  /** Forward turn k, from s0 = F[k], the mirrored bin b = F[M - k] and
      the twiddle w = tw[k - 1]: with fk = s0 + conj(b) and
      t = cmul(s0 - conj(b), w), slot k receives half of fk + t and slot
      M - k half of conj(fk - t), each component rounded down. */
  function ForwardPair(s0: Complex, b: Complex, w: Complex): (r: (Complex, Complex))
    ensures var fk := s0.Add(b.Conj()); var t := CMul(s0.Sub(b.Conj()), w);
      && 2 * r.0.re <= fk.re + t.re <= 2 * r.0.re + 1
      && 2 * r.0.im <= fk.im + t.im <= 2 * r.0.im + 1
      && 2 * r.1.re <= fk.re - t.re <= 2 * r.1.re + 1
      && 2 * r.1.im <= t.im - fk.im <= 2 * r.1.im + 1
  {
    var fk := s0.Add(b.Conj());
    var t := CMul(s0.Sub(b.Conj()), w);
    (Complex(Halve(fk.re + t.re), Halve(fk.im + t.im)), Complex(Halve(fk.re - t.re), Halve(t.im - fk.im)))
  }

  /** Inverse turn k: with fk = s0 + conj(b) and t = cmul(s0 - conj(b),
      conj(w)), slot k receives fk + t and slot M - k conj(fk - t); so the
      first plus the conjugated second is 2 * fk, their difference 2 * t. */
  function InversePair(s0: Complex, b: Complex, w: Complex): (r: (Complex, Complex))
    ensures var fk := s0.Add(b.Conj()); var t := CMul(s0.Sub(b.Conj()), w.Conj());
      && r.0.Add(r.1.Conj()) == Complex(2 * fk.re, 2 * fk.im)
      && r.0.Sub(r.1.Conj()) == Complex(2 * t.re, 2 * t.im)
  {
    var fk := s0.Add(b.Conj());
    var t := CMul(s0.Sub(b.Conj()), w.Conj());
    (fk.Add(t), fk.Sub(t).Conj())
  }

  /** The formulas of one turn, from the bin, its mirror and the twiddle:
      `ForwardPair` or `InversePair`. */
  type TurnFormulas = (Complex, Complex, Complex) -> (Complex, Complex)

  //==========================================================================
  // The combine pass over the bins 1 .. M - 1

  /** Slot j (0 < j < M) after the combine pass: a bin below its mirror is
      the first output of turn j, any other the second output of turn
      M - j (so at j = M / 2 the second write of the turn wins). */
  function MirrorValue(s: seq<Complex>, tw: seq<Complex>, turn: TurnFormulas, j: nat): Complex
    requires 1 <= j < |s| && |tw| == |s|
  {
    var m := |s|;
    if j < m - j then turn(s[j], s[m - j], tw[j - 1]).0
    else turn(s[m - j], s[j], tw[m - j - 1]).1
  }

  /** The turns 1 .. k - 1 are done: they wrote slots 1 .. k - 1 and
      M - k + 1 .. M - 1. */
  predicate MirrorDone(j: nat, m: nat, k: nat)
  {
    (1 <= j < k) || (m - k < j < m)
  }

  /** The buffer after turns 1 .. k - 1 of the combine loop, as the loop
      runs them: turn i reads slots i and M - i, then writes slot i and
      then slot M - i. */
  function Mirrored(s: seq<Complex>, tw: seq<Complex>, turn: TurnFormulas, k: nat): (r: seq<Complex>)
    requires |tw| == |s| && 1 <= k <= |s| / 2 + 1
    ensures |r| == |s|
    decreases k
  {
    if k == 1 then s
    else
      var i := k - 1;
      var p := turn(s[i], s[|s| - i], tw[i - 1]);
      Mirrored(s, tw, turn, i)[i := p.0][|s| - i := p.1]
  }

  /** The whole combine pass, slot by slot: slot 0 untouched, every other
      slot combined. */
  function Unpack(s: seq<Complex>, tw: seq<Complex>, turn: TurnFormulas): (r: seq<Complex>)
    requires |tw| == |s|
    ensures |r| == |s|
  {
    seq(|s|, j requires 0 <= j < |s| => if j == 0 then s[0] else MirrorValue(s, tw, turn, j))
  }

  /** After turns 1 .. k - 1, a slot those turns wrote holds its final
      combined value and every other slot still holds its original bin. */
  lemma {:induction false} MirroredAt(s: seq<Complex>, tw: seq<Complex>, turn: TurnFormulas, k: nat, j: nat)
    requires |tw| == |s| && 1 <= k <= |s| / 2 + 1 && j < |s|
    ensures Mirrored(s, tw, turn, k)[j]
      == if MirrorDone(j, |s|, k) then MirrorValue(s, tw, turn, j) else s[j]
    decreases k
  {
    var m := |s|;
    if k > 1 {
      var i := k - 1;
      if j != i && j != m - i {
        MirroredAt(s, tw, turn, i, j);
      } else if j == m - i {
        assert !(j < m - j);
      } else {
        assert j < m - j;
      }
    }
  }

  /** After the last turn, k = M / 2 + 1, the buffer holds the whole
      combine pass. */
  lemma MirroredFull(s: seq<Complex>, tw: seq<Complex>, turn: TurnFormulas, k: nat)
    requires |tw| == |s| && k == |s| / 2 + 1
    ensures Mirrored(s, tw, turn, k) == Unpack(s, tw, turn)
  {
    var r := Mirrored(s, tw, turn, k);
    forall j | 0 <= j < |s|
      ensures r[j] == Unpack(s, tw, turn)[j]
    {
      MirroredAt(s, tw, turn, k, j);
    }
  }

  /** The two slots turn k reads still hold their original bins. */
  lemma MirroredReads(s: seq<Complex>, tw: seq<Complex>, turn: TurnFormulas, k: nat)
    requires |tw| == |s| && 1 <= k <= |s| / 2
    ensures Mirrored(s, tw, turn, k)[k] == s[k]
    ensures Mirrored(s, tw, turn, k)[|s| - k] == s[|s| - k]
  {
    MirroredAt(s, tw, turn, k, k);
    MirroredAt(s, tw, turn, k, |s| - k);
  }

  /** Turn k on a buffer whose front span holds the buffer after turns
      1 .. k - 1: its two writes, slot k then slot M - k, leave the buffer
      after turn k. */
  lemma MirrorTurn(b: seq<Complex>, s: seq<Complex>, tw: seq<Complex>, turn: TurnFormulas, k: nat, p: (Complex, Complex))
    requires |tw| == |s| <= |b| && 1 <= k <= |s| / 2
    requires p == turn(s[k], s[|s| - k], tw[k - 1])
    ensures Splice(b, 0, Mirrored(s, tw, turn, k))[k := p.0][|s| - k := p.1]
      == Splice(b, 0, Mirrored(s, tw, turn, k + 1))
  {
    var v := Mirrored(s, tw, turn, k);
    SpliceUpdate(b, 0, v, k, p.0);
    SpliceUpdate(b, 0, v[k := p.0], |s| - k, p.1);
  }

  /** Every turn reads the twiddle tw[k - 1] with k - 1 < M / 2, and the
      mirrored slot M - k lies in [M / 2, M). */
  lemma TwiddleRange(m: nat, k: nat)
    requires 1 <= k <= m / 2
    ensures k - 1 < m / 2 && m / 2 <= m - k < m && k <= m - k
  {
  }

  /** Turn k of the pass leaves its second output in slot M - k and,
      below the middle, its first output in slot k. */
  lemma UnpackedBins(s: seq<Complex>, tw: seq<Complex>, turn: TurnFormulas, k: nat)
    requires |tw| == |s| && 1 <= k <= |s| / 2
    ensures Unpack(s, tw, turn)[|s| - k] == turn(s[k], s[|s| - k], tw[k - 1]).1
    ensures k < |s| - k ==> Unpack(s, tw, turn)[k] == turn(s[k], s[|s| - k], tw[k - 1]).0
  {
    assert |s| - (|s| - k) == k;
  }

  /** At k = M / 2 both writes of the turn hit the same slot and the
      second one wins. */
  lemma MiddleBin(s: seq<Complex>, tw: seq<Complex>, turn: TurnFormulas)
    requires |tw| == |s| && |s| >= 2 && |s| % 2 == 0
    ensures var h := |s| / 2;
      Unpack(s, tw, turn)[h] == turn(s[h], s[h], tw[h - 1]).1
  {
  }

  //==========================================================================
  // Spans of the spectrum buffer

  function Zeros(n: nat): (r: seq<Complex>)
    ensures |r| == n && forall j :: 0 <= j < n ==> r[j] == Zero
  {
    seq(n, _ => Zero)
  }

  /** The halving pass over the bins below k. */
  function HalvedBelow(s: seq<Complex>, k: nat): (r: seq<Complex>)
    ensures |r| == |s|
  {
    seq(|s|, j requires 0 <= j < |s| => if j < k then CDiv(s[j], 2) else s[j])
  }

  /** A splice covering an earlier one at the same offset replaces it. */
  lemma SpliceCover<T>(b: seq<T>, off: nat, v: seq<T>, w: seq<T>)
    requires |v| <= |w| && off + |w| <= |b|
    ensures Splice(Splice(b, off, v), off, w) == Splice(b, off, w)
  {
  }

  /** A splice over the front of an earlier one keeps the earlier tail. */
  lemma SpliceFront<T>(b: seq<T>, off: nat, v: seq<T>, w: seq<T>, v2: seq<T>)
    requires |v2| == |v| && off + |v| + |w| <= |b|
    ensures Splice(Splice(b, off, v + w), off, v2) == Splice(b, off, v2 + w)
  {
  }

  //==========================================================================
  // What the real transform computes

  /** Bin 0 packed for the real spectrum: (re + im, 0) of the halved bin 0. */
  function PackDC(h: seq<Complex>): (r: seq<Complex>)
    requires |h| >= 1
    ensures |r| == |h| && r[0].im == 0 && r[1..] == h[1..]
  {
    h[0 := Complex(h[0].re + h[0].im, 0)]
  }

  /** The Nyquist bin derived from the halved bin 0: (re - im, 0). */
  function Nyquist(h: seq<Complex>): (r: Complex)
    requires |h| >= 1
    ensures r.im == 0
  {
    Complex(h[0].re - h[0].im, 0)
  }

  /** The clear of [M, 2M) after the packed spectrum of M + 1 slots:
      bins 0 .. M - 1 survive, the Nyquist bin at M does not. */
  lemma ClearOverNyquist(b: seq<Complex>, p: seq<Complex>, m: nat)
    requires |p| == m + 1 && 2 * m <= |b| && 1 <= m
    ensures Splice(Splice(b, 0, p), m, Zeros(m)) == Splice(b, 0, p[..m] + Zeros(m))
  {
    assert p == p[..m] + [p[m]];
    SpliceAppend(b, 0, p[..m], [p[m]]);
    SpliceCover(Splice(b, 0, p[..m]), m, [p[m]], Zeros(m));
    SpliceAppend(b, 0, p[..m], Zeros(m));
  }

  /** Packing in place: bin 0 of the halved span becomes (re + im, 0) and
      the slot just past the span receives the Nyquist bin. */
  lemma PackSlots(b: seq<Complex>, h: seq<Complex>)
    requires 1 <= |h| < |b|
    ensures Splice(b, 0, h)[0 := PackDC(h)[0]][|h| := Nyquist(h)] == Splice(b, 0, PackDC(h) + [Nyquist(h)])
  {
  }

  /** The complex transform of the M pairs of real samples, every bin
      halved by `cdiv`. */
  function HalvedSpectrum(x: seq<Complex>, m: nat, fwd: seq<Complex>): (h: seq<Complex>)
    requires 1 <= m <= Int32Max && |fwd| == m && m <= |x|
    ensures |h| == m
  {
    Scaled(Transform(x, m, fwd, false), 2)
  }

  /** The M + 1 slots `forward` fills from the halved spectrum h before it
      clears the upper half: the combined bins 0 .. M - 1, then the Nyquist
      bin at M. */
  function Packed(h: seq<Complex>, tw: seq<Complex>): (r: seq<Complex>)
    requires 1 <= |h| && |tw| == |h|
    ensures |r| == |h| + 1
  {
    Unpack(PackDC(h), tw, ForwardPair) + [Nyquist(h)]
  }

  /** `forward` as written: the 2 * M slots after the clear of [M, 2M),
      which also wipes the Nyquist bin stored at M. */
  function AsWritten(h: seq<Complex>, tw: seq<Complex>): (r: seq<Complex>)
    requires 1 <= |h| && |tw| == |h|
    ensures |r| == 2 * |h|
  {
    Packed(h, tw)[..|h|] + Zeros(|h|)
  }

  /** `forward` as intended: bins 0 .. M with the Nyquist bin kept, only
      the mirrored bins M + 1 .. 2M - 1 cleared. */
  function Intended(h: seq<Complex>, tw: seq<Complex>): (r: seq<Complex>)
    requires 1 <= |h| && |tw| == |h|
    ensures |r| == 2 * |h|
  {
    Packed(h, tw) + Zeros(|h| - 1)
  }

  function PackedSpectrum(x: seq<Complex>, m: nat, fwd: seq<Complex>, tw: seq<Complex>): (r: seq<Complex>)
    requires 1 <= m <= Int32Max && |fwd| == m && m <= |x| && |tw| == m
    ensures |r| == m + 1
  {
    Packed(HalvedSpectrum(x, m, fwd), tw)
  }

  /** What `forward` as written leaves in the 2 * M spectrum slots. */
  function ForwardAsWritten(x: seq<Complex>, m: nat, fwd: seq<Complex>, tw: seq<Complex>): (r: seq<Complex>)
    requires 1 <= m <= Int32Max && |fwd| == m && m <= |x| && |tw| == m
    ensures |r| == 2 * m
  {
    AsWritten(HalvedSpectrum(x, m, fwd), tw)
  }

  /** What `forward` with the Nyquist bin kept leaves there. */
  function ForwardIntended(x: seq<Complex>, m: nat, fwd: seq<Complex>, tw: seq<Complex>): (r: seq<Complex>)
    requires 1 <= m <= Int32Max && |fwd| == m && m <= |x| && |tw| == m
    ensures |r| == 2 * m
  {
    Intended(HalvedSpectrum(x, m, fwd), tw)
  }

  /** Bin 0 of the copy that the non-destructive `inverse` builds:
      (F[0].re + F[M].re, F[0].re - F[M].re), followed by F[1 .. M). */
  function CopyStart(f: seq<Complex>, m: nat): (r: seq<Complex>)
    requires 1 <= m < |f|
    ensures |r| == m && r[1..] == f[1..m]
  {
    [Complex(f[0].re + f[m].re, f[0].re - f[m].re)] + f[1..m]
  }

  /** The M bins `inverse` hands to the complex inverse transform: every
      bin halved by `cdiv`, then the inverse combine pass. */
  function InversePrepared(s: seq<Complex>, tw: seq<Complex>): (r: seq<Complex>)
    requires |tw| == |s|
    ensures |r| == |s|
  {
    Unpack(Scaled(s, 2), tw, InversePair)
  }

  //==========================================================================
  // Properties of the packed spectrum

  /** After `forward` as written, bins 0 .. M - 1 hold the combined
      spectrum, bin 0 is (re + im, 0) of the halved bin 0, and every slot
      of [M, 2M) is zero, bin M included. */
  lemma ForwardShape(h: seq<Complex>, tw: seq<Complex>)
    requires 1 <= |h| && |tw| == |h|
    ensures var r := AsWritten(h, tw); var m := |h|;
      && r[0] == Complex(h[0].re + h[0].im, 0)
      && r[..m] == Unpack(PackDC(h), tw, ForwardPair)
      && (forall j :: m <= j < 2 * m ==> r[j] == Zero)
  {
    var r := AsWritten(h, tw);
    assert r[..|h|] == Packed(h, tw)[..|h|];
  }

  /** The Nyquist value the code stores at bin M never survives: the
      as-written spectrum differs from the intended one exactly there, and
      only when the halved bin 0 has re != im. */
  lemma NyquistLost(h: seq<Complex>, tw: seq<Complex>)
    requires 1 <= |h| && |tw| == |h|
    ensures var m := |h|;
      && AsWritten(h, tw)[m] == Zero
      && Intended(h, tw)[m] == Nyquist(h)
      && AsWritten(h, tw) == Intended(h, tw)[m := Zero]
      && (AsWritten(h, tw) == Intended(h, tw) <==> h[0].re == h[0].im)
  {
    var m := |h|;
    var a := AsWritten(h, tw);
    var i := Intended(h, tw);
    var p := Packed(h, tw);
    assert a[m] == Zero;
    assert i[m] == p[m];
    assert a == i[m := Zero] by {
      forall j | 0 <= j < 2 * m
        ensures a[j] == i[m := Zero][j]
      {
        if j < m {
          assert a[j] == p[j] == i[j];
        }
      }
    }
    if a == i {
      assert a[m] == i[m];
    }
  }

  /** The intended spectrum round-trips bin 0 through the non-destructive
      `inverse`: the copy starts with twice the halved bin 0, so both of
      its components come back. The as-written spectrum, whose bin M is
      zero, gives (re + im, re + im) instead. */
  lemma DCRoundTrip(h: seq<Complex>, tw: seq<Complex>)
    requires 2 <= |h| && |tw| == |h|
    ensures var m := |h|;
      && CopyStart(Intended(h, tw), m)[0] == Complex(2 * h[0].re, 2 * h[0].im)
      && CopyStart(AsWritten(h, tw), m)[0] == Complex(h[0].re + h[0].im, h[0].re + h[0].im)
  {
    var p := Packed(h, tw);
    assert p[0] == Unpack(PackDC(h), tw, ForwardPair)[0];
    assert Intended(h, tw)[0] == p[0];
    assert AsWritten(h, tw)[0] == p[0];
    NyquistLost(h, tw);
  }

  /** Slot M - k of the forward pass is half of conj(fk - t), slot k half of
      fk + t, for every turn below the middle; at the middle the slot holds
      the second half. */
  lemma ForwardBins(h: seq<Complex>, tw: seq<Complex>, k: nat)
    requires 1 <= |h| && |tw| == |h| && 1 <= k <= |h| / 2
    ensures var s := PackDC(h); var r := AsWritten(h, tw); var m := |h|;
      && r[m - k] == ForwardPair(s[k], s[m - k], tw[k - 1]).1
      && (k < m - k ==> r[k] == ForwardPair(s[k], s[m - k], tw[k - 1]).0)
  {
    var m := |h|;
    var s := PackDC(h);
    var r := AsWritten(h, tw);
    var u := Unpack(s, tw, ForwardPair);
    assert r[..m] == u;
    UnpackedBins(s, tw, ForwardPair, k);
  }

  /** The size the adapter reports is the requested size rounded down to
      an even number; the construction precondition (M even) holds exactly
      for requested sizes 4q and 4q + 1. */
  lemma ReportedSize(n: nat)
    ensures 2 * Halve(n) == n - n % 2
    ensures Halve(n) % 2 == 0 <==> n % 4 == 0 || n % 4 == 1
  {
  }

  //==========================================================================
  // The adapter object

  class RealTransform {
    /** M: half the real length, the size of the inner complex transform. */
    const size: nat
    const fft: ComplexTransform
    /** The M twiddles of the combine passes. */
    const twiddles: seq<Complex>

    predicate Valid()
      reads this, fft, fft.factors
    {
      && fft.Valid() && fft.size == size
      && 2 <= size && size % 2 == 0
      && |twiddles| == size
    }

    /** The constructor: M = halve(fftSize), which must be even; the inner
        transform of M points gets the given forward and inverse tables. */
    constructor (fftSize: nat, fwd: seq<Complex>, inv: seq<Complex>, tw: seq<Complex>)
      requires Halve(fftSize) % 2 == 0 && 1 <= Halve(fftSize) <= Int32Max
      requires |fwd| == Halve(fftSize) && |inv| == Halve(fftSize) && |tw| == Halve(fftSize)
      ensures Valid() && size == Halve(fftSize) && GetSize() == fftSize - fftSize % 2
      ensures fft.twiddlesFwd == fwd && fft.twiddlesInv == inv && twiddles == tw
    {
      size := Halve(fftSize);
      fft := new ComplexTransform(Halve(fftSize), fwd, inv);
      twiddles := tw;
      ReportedSize(fftSize);
    }

    /** `getSize`: the real length 2 * M. */
    function GetSize(): (n: nat)
      reads this
      ensures n % 2 == 0 && n / 2 == size
    {
      2 * size
    }

    /** `forward` as written: the complex transform of the M pairs of real
        samples, halving, packing, the combine pass, then the clear of
        [M, 2M); slots from 2M on are untouched. */
    method Forward(time: array<Complex>, freq: array<Complex>)
      requires Valid() && time != freq && size <= time.Length && 2 * size <= freq.Length
      modifies freq
      ensures freq[..] == Splice(old(freq[..]), 0, ForwardAsWritten(time[..], size, fft.twiddlesFwd, twiddles))
    {
      ghost var b := freq[..];
      ghost var p := PackedSpectrum(time[..], size, fft.twiddlesFwd, twiddles);
      ghost var x := time[..];
      ForwardPacked(time, freq);
      ClearSlots(freq, size, size);
      ClearOverNyquist(b, p, size);
      assert time[..] == x;
    }

    /** `forward` with the clear started one slot later, at M + 1: the
        Nyquist bin stored at M survives. */
    method ForwardKeepingNyquist(time: array<Complex>, freq: array<Complex>)
      requires Valid() && time != freq && size <= time.Length && 2 * size <= freq.Length
      modifies freq
      ensures freq[..] == Splice(old(freq[..]), 0, ForwardIntended(time[..], size, fft.twiddlesFwd, twiddles))
    {
      ghost var b := freq[..];
      ghost var p := PackedSpectrum(time[..], size, fft.twiddlesFwd, twiddles);
      ghost var x := time[..];
      ForwardPacked(time, freq);
      ClearSlots(freq, size + 1, size - 1);
      SpliceAppend(b, 0, p, Zeros(size - 1));
      assert time[..] == x;
    }

    /** The `memset` of n slots from slot off to zero. */
    method ClearSlots(buf: array<Complex>, off: nat, n: nat)
      requires off + n <= buf.Length
      modifies buf
      ensures buf[..] == Splice(old(buf[..]), off, Zeros(n))
    {
      forall j | off <= j < off + n {
        buf[j] := Zero;
      }
      assert buf[..] == Splice(old(buf[..]), off, Zeros(n));
    }

    /** The first four steps of `forward`: bins 0 .. M - 1 transformed,
        halved, packed and combined, the Nyquist bin stored at M. */
    method ForwardPacked(time: array<Complex>, freq: array<Complex>)
      requires Valid() && time != freq && size <= time.Length && 2 * size <= freq.Length
      modifies freq
      ensures freq[..] == Splice(old(freq[..]), 0, PackedSpectrum(time[..], size, fft.twiddlesFwd, twiddles))
    {
      ghost var b := freq[..];
      ghost var t := Transform(time[..], size, fft.twiddlesFwd, false);
      ghost var h := Scaled(t, 2);
      fft.Forward(time, freq);
      SpliceSlice(b, 0, t);
      HalveBins(freq);
      SpliceTwice(b, 0, t, h);
      var tdc := freq[0];
      SpliceAt(b, 0, h, 0);
      ghost var packed := PackDC(h);
      ghost var nyq := Nyquist(h);
      PackSlots(b, h);
      ghost var c0 := freq[..][0 := packed[0]];
      freq[0] := Complex(tdc.re + tdc.im, 0);
      assert freq[..] == c0;
      ghost var c1 := freq[..][size := nyq];
      freq[size] := Complex(tdc.re - tdc.im, 0);
      assert freq[..] == c1;
      ghost var c := freq[..];
      SpliceSlice(b, 0, packed + [nyq]);
      assert c[..size] == packed;
      CombineMirrored(freq, ForwardPair);
      SpliceFront(b, 0, packed, [nyq], Unpack(packed, twiddles, ForwardPair));
    }

    /** `inverse`: in place (inPlace true) the caller's bins 0 .. M - 1 are
        rewritten through the aliased buffer and bin 0 is used as it is;
        otherwise a scratch copy starts from (F[0].re + F[M].re,
        F[0].re - F[M].re) and F[1 .. M), and the caller's buffer is only
        read. The copy is halved and combined, then its M bins go to the
        complex inverse. */
    method Inverse(freq: array<Complex>, time: array<Complex>, inPlace: bool)
      requires Valid() && freq != time && size <= time.Length
      requires if inPlace then size <= freq.Length else size < freq.Length
      modifies freq, time
      ensures inPlace ==> freq[..] == Splice(old(freq[..]), 0, InversePrepared(old(freq[..size]), twiddles))
      ensures !inPlace ==> freq[..] == old(freq[..])
      ensures time[..] == Splice(old(time[..]), 0,
        Transform(InversePrepared(if inPlace then old(freq[..size]) else CopyStart(old(freq[..]), size), twiddles),
                  size, fft.twiddlesInv, true))
    {
      var temp: array<Complex>;
      if inPlace {
        temp := freq;
      } else {
        temp := CopyBins(freq);
        assert temp[..size] == temp[..];
      }
      ghost var before := temp[..];
      ghost var start := temp[..size];
      PrepareBins(temp);
      ghost var prepared := InversePrepared(start, twiddles);
      SpliceSlice(before, 0, prepared);
      assert temp[..][..size] == prepared[..size];
      TransformPrefix(temp[..], prepared, size, fft.twiddlesInv, true);
      ghost var t0 := time[..];
      fft.Inverse(temp, time);
      assert old(time[..]) == t0;
    }

    /** The scratch copy of the non-destructive `inverse`. */
    method CopyBins(freq: array<Complex>) returns (temp: array<Complex>)
      requires 1 <= size < freq.Length
      ensures fresh(temp) && temp[..] == CopyStart(freq[..], size)
    {
      temp := new Complex[size];
      temp[0] := Complex(freq[0].re + freq[size].re, freq[0].re - freq[size].re);
      forall j | 1 <= j < size {
        temp[j] := freq[j];
      }
      assert temp[..] == CopyStart(freq[..], size);
    }

    /** The passes of `inverse` before the complex inverse: every bin halved
        by `cdiv`, then the inverse combine loop. */
    method PrepareBins(buf: array<Complex>)
      requires |twiddles| == size <= buf.Length
      modifies buf
      ensures buf[..] == Splice(old(buf[..]), 0, InversePrepared(old(buf[..size]), twiddles))
    {
      ghost var b := buf[..];
      ghost var s := buf[..size];
      ghost var h := Scaled(s, 2);
      SpliceSame(b, 0, size);
      HalveBins(buf);
      SpliceCover(b, 0, s, h);
      ghost var c := buf[..];
      assert c == Splice(b, 0, h);
      SpliceSlice(b, 0, h);
      assert c[..size] == h;
      CombineMirrored(buf, InversePair);
      SpliceTwice(b, 0, h, InversePrepared(s, twiddles));
    }

    /** `cdiv (F[k], 2)` for k < M. */
    method HalveBins(buf: array<Complex>)
      requires size <= buf.Length
      modifies buf
      ensures buf[..] == Splice(old(buf[..]), 0, Scaled(old(buf[..size]), 2))
    {
      ghost var b := buf[..];
      ghost var s := buf[..size];
      var k := 0;
      while k < size
        invariant k <= size
        invariant buf[..] == Splice(b, 0, HalvedBelow(s, k))
      {
        SpliceUpdate(b, 0, HalvedBelow(s, k), k, CDiv(buf[k], 2));
        buf[k] := CDiv(buf[k], 2);
        assert HalvedBelow(s, k)[k := CDiv(s[k], 2)] == HalvedBelow(s, k + 1);
        k := k + 1;
      }
      assert HalvedBelow(s, size) == Scaled(s, 2);
    }

    /** The combine loop of `forward` (turn = ForwardPair) or `inverse`
        (turn = InversePair): turn
        k = 1 .. M / 2 reads slots k and M - k and writes slot k, then slot
        M - k. */
    method CombineMirrored(buf: array<Complex>, turn: TurnFormulas)
      requires |twiddles| == size <= buf.Length
      modifies buf
      ensures buf[..] == Splice(old(buf[..]), 0, Unpack(old(buf[..size]), twiddles, turn))
    {
      ghost var b := buf[..];
      ghost var s := buf[..size];
      SpliceSame(b, 0, size);
      var k := 1;
      while k <= size / 2
        invariant 1 <= k <= size / 2 + 1
        invariant buf[..] == Splice(b, 0, Mirrored(s, twiddles, turn, k))
      {
        CombineTurn(buf, turn, k, b, s);
        k := k + 1;
      }
      MirroredFull(s, twiddles, turn, k);
    }

    /** Turn k of the combine loop: read slots k and M - k, write slot k,
        then slot M - k. */
    method CombineTurn(buf: array<Complex>, turn: TurnFormulas, k: nat, ghost b: seq<Complex>, ghost s: seq<Complex>)
      requires |twiddles| == size == |s| <= buf.Length == |b| && 1 <= k <= size / 2
      requires buf[..] == Splice(b, 0, Mirrored(s, twiddles, turn, k))
      modifies buf
      ensures buf[..] == Splice(b, 0, Mirrored(s, twiddles, turn, k + 1))
    {
      ghost var v := Mirrored(s, twiddles, turn, k);
      TwiddleRange(size, k);
      SpliceAt(b, 0, v, k);
      SpliceAt(b, 0, v, size - k);
      MirroredReads(s, twiddles, turn, k);
      var p := turn(buf[k], buf[size - k], twiddles[k - 1]);
      MirrorTurn(b, s, twiddles, turn, k, p);
      ghost var v1 := buf[..][k := p.0];
      buf[k] := p.0;
      assert buf[..] == v1;
      ghost var v2 := buf[..][size - k := p.1];
      buf[size - k] := p.1;
      assert buf[..] == v2;
    }
  }
}
