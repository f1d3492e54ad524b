# fftpp transform engine, fixed-point (Q31) model

This project models the transform engine of the fftpp header library, used
with 32-bit fixed-point samples (Q31). The model covers five parts:

- the radix factoriser run by the `FFTComplex` constructor;
- the Q31 scalar and complex helpers `sround`, `smul`, `sdiv`, `halve`,
  `cmul` and `cdiv`;
- the recursive mixed-radix decomposition `perform`;
- the three combine kernels `butterfly2`, `butterfly4` and
  `butterflyGeneric`, and the `forward`/`inverse` entry points;
- the real-signal adapter `FFTReal`: its constructor, `getSize`, and the
  `forward`/`inverse` combine passes around the half-size complex transform.

In the fixed-point branches every step is exact integer arithmetic and index
work, so each operation is stated exactly. The twiddle tables come from
floating-point `cos`/`sin`, so they are opaque input sequences of integer
pairs. Nothing here claims that the output is a DFT.

Files and modules:

- `arithmetic.dfy` (`Arith`): remainder and quotient by repeated subtraction,
  plus small product lemmas. They keep the divisibility and index reasoning
  linear.
- `fixed_point.dfy` (`FixedPoint`): the Q31 helpers. The source's casts are
  written out: `(int64_t)` products, and the final `(T)` narrowing to 32 bits
  as two's-complement wrap-around (`Narrow32`). Division is C++ truncating
  division (`TruncDiv`). `halve` is an arithmetic shift, i.e. floor.
- `factorization.dfy` (`Factorization`):
  - the chain of `(radix, length)` entries as a function of the size
    (`TrialRadix`, `ChainFrom`, `FactorChain`);
  - the constructor's do/while loop as the method `Factorize`, which writes
    into the fixed 32-slot table.
- `butterflies.dfy` (`Butterflies`): each kernel as a pure function of the
  span of `radix * length` slots it rewrites. Also the buffer-level step
  lemmas that the in-place methods use.
- `complex_transform.dfy` (`ComplexFFT`):
  - the recursive specification `PerformSpec` of `perform` and the
    whole-transform function `Transform`;
  - the class `ComplexTransform`, whose methods rewrite an `array<Complex>`
    in place exactly as the source does: leaf copies, one sub-call per
    block, then the kernel selected by the radix.
- `real_transform.dfy` (`RealFFT`): the class `RealTransform`, with the
  combine passes over the mirrored bins `k` and `M - k`. The packed spectra
  produced by `forward` and consumed by `inverse` are stated as functions
  of the half-size transform.

Every in-place method states its whole new buffer. Each is written as
`buf[..] == Splice(old(buf[..]), off, v)`: the slots `[off, off + |v|)` now
hold `v`, and every other slot is unchanged. Here `v` is a specification
function of the old contents.

Two places where the code does something other than what its own text
suggests; the model follows the code:

- `forward` stores the Nyquist value `(re - im, 0)` at bin `M`
  (`FFTReal.h:89`), and the comment at `FFTReal.h:105` says only the
  negative frequencies are to be cleared. The `memset` at `FFTReal.h:106`
  nevertheless clears `[M, 2M)`, which erases bin `M` (see Findings).
- The assertion message at `FFTReal.h:63` says the real FFT size must be
  even, but the condition checks that `M = floor(N / 2)` is even, i.e.
  `N % 4` is 0 or 1. `getSize` then reports `2 * M`, which for an odd `N` is
  `N - 1` (`RealFFT.ReportedSize`).

## Model

| member | source | states |
|---|---|---|
| FixedPoint.Narrow32 | FFTComplex.h:110 | the `(T)` cast to 32 bits: the result is in int32 range, differs from the argument by a multiple of 2^32, and equals it when it already fits |
| FixedPoint.SRound | FFTComplex.h:78-84 | `sround(x)` is the unique r with `r * 2^31 <= x + 2^30 < (r + 1) * 2^31`: round half up, 31 fractional bits |
| FixedPoint.SMul | FFTComplex.h:104-111 | `smul` always yields an int32 value |
| FixedPoint.ProductRange | FFTComplex.h:110 | the 64-bit product of two int32 operands lies in `[-2^62 + 2^31, 2^62]`; only `INT_MIN * INT_MIN` reaches the top |
| FixedPoint.SMulRounding | FFTComplex.h:104-111 | the product and the rounding offset fit in int64; apart from `INT_MIN * INT_MIN`, `smul(a, b)` is the rounded Q31 product, with no wrap-around |
| FixedPoint.SMulMinMin | FFTComplex.h:104-111 | `smul(INT_MIN, INT_MIN)` rounds to 2^31, which the cast wraps to `INT_MIN` (-1.0 times -1.0 gives -1.0) |
| FixedPoint.SMulNegation | FFTComplex.h:104-111 | `smul(a, b) + smul(a, -b)` is 0 or 1: negating a factor negates the result up to the half-up rounding |
| FixedPoint.TruncDivBounds | FFTComplex.h:119 | C++ integer division truncates toward zero: `|q| * |d| <= |n| < (|q| + 1) * |d|`, and a non-zero `q` has the sign of `n * d` |
| FixedPoint.SDiv | FFTComplex.h:113-120 | `sdiv(a, d) = smul(a, INT_MAX / d)` is an int32 for every non-zero d |
| FixedPoint.SDivShrinks | FFTComplex.h:113-120 | for a positive divisor, `sdiv` keeps the sign of `a` and never grows its magnitude |
| FixedPoint.Halve | FFTComplex.h:122-129 | `halve(x)` is `floor(x / 2)` (`2r <= x < 2r + 2`), and stays in int32 range |
| FixedPoint.RoundedBelow | FFTComplex.h:78-84 | rounding a product in `[0, INT_MAX * a]` lands in `[0, a]` |
| FixedPoint.RoundedAbove | FFTComplex.h:78-84 | rounding a product in `[INT_MAX * a, 0]` lands in `[a, 0]` |
| FixedPoint.RoundedDifference | FFTComplex.h:135 | the difference of two rounded products is within one unit of the exact difference |
| FixedPoint.RoundedSum | FFTComplex.h:136 | the sum of two rounded products is within one unit of the exact sum |
| FixedPoint.CMulRounding | FFTComplex.h:132-137 | each component of `cmul(a, b)` is within one Q31 unit of the exact complex product, when no `INT_MIN * INT_MIN` term occurs |
| FixedPoint.CDiv | FFTComplex.h:139-144 | `cdiv` yields int32 components |
| FixedPoint.CDivShrinks | FFTComplex.h:139-144 | for a positive divisor, `cdiv` keeps each component's sign and never grows its magnitude |
| Arith.RemIsMod | FFTComplex.h:179 | the subtraction-based remainder and quotient are C++'s `%` and `/` on naturals |
| Arith.QuotRem | FFTComplex.h:192 | `t * Quot(m, t) + Rem(m, t) == m` |
| Arith.ModAddOnce | FFTComplex.h:373-376 | adding `s < n` to a value reduced mod n needs at most one subtraction of n |
| Factorization.FloorSqrt | FFTComplex.h:174 | `root` is the integer square root of the original size: `r * r <= n < (r + 1) * (r + 1)` |
| Factorization.NextTrialOrder | FFTComplex.h:181-186 | the trial sequence 4, 2, 3, 5, 7, ... strictly increases in rank, and no trial value is skipped between two consecutive steps |
| Factorization.TrialRadix | FFTComplex.h:179-190 | the inner search ends at a radix >= 1 that is the remaining length itself, 4 (the starting trial, never compared with the root), or a trial value not above the root; for a length >= 2 it is >= 2 |
| Factorization.SearchRadix | FFTComplex.h:179-190 | the `while (fftSize % p)` loop, which mutates `p`, ends at `TrialRadix` of the remaining length and the current trial |
| Factorization.TrialRadixDivides | FFTComplex.h:179-190 | the radix the search stops at divides the remaining length |
| Factorization.TrialRadixStep | FFTComplex.h:179-190 | one step of the search: a trial that does not divide passes on to the next trial, or to the whole length once the next trial exceeds the root |
| Factorization.TrialRadixGreedy | FFTComplex.h:179-190 | the chosen radix is the first divisor in trial order from the current trial, or the whole length when no trial up to the root divides |
| Factorization.ChainFromStep | FFTComplex.h:192-198 | each entry is `(radix, length / radix)`; the loop continues on the quotient with the trial kept, and stops after the first entry whose length is <= 1 |
| Factorization.ChainFromShape | FFTComplex.h:177-198 | the chain for a positive length is well linked: each length is the previous one divided by its radix, and only the last length is 1 |
| Factorization.ChainFromProduct | FFTComplex.h:177-198 | the radices of the chain multiply to the length |
| Factorization.ChainFromRadices | FFTComplex.h:177-198 | for a length >= 2, every radix is >= 2 |
| Factorization.ChainFromGreedy | FFTComplex.h:177-198 | every entry is the greedy pick from the previous entry's length and radix |
| Factorization.GreedyChainAt | FFTComplex.h:177-198 | the greedy property read at an arbitrary entry |
| Factorization.ChainLinks | FFTComplex.h:173-198 | for size >= 1: the chain is well linked, its radices multiply to size, and each length is the length before it divided by its radix |
| Factorization.ChainGreedy | FFTComplex.h:173-190 | entry i is the first divisor in trial order of the length before it, starting from the previous radix, with the root of the original size as the cutoff |
| Factorization.ChainTakesFourFirst | FFTComplex.h:173-183 | while the trial is 4 and 4 divides the remaining length, the radix taken is 4 |
| Factorization.ChainFitsArray | FFTComplex.h:177-198 | for size >= 2 every radix is >= 2, `2^entries <= size`, and below 2^33 the chain fits the 32-slot `factors` table declared at line 56 |
| Factorization.SmallChains | FFTComplex.h:177-198 | size 1 gives the single entry (1, 1); size 0 gives (4, 0) |
| Factorization.Factorize | FFTComplex.h:173-198 | the do/while loop writes exactly the chain into `factors[0..count)`, returns its length, and leaves the other slots untouched |
| Butterflies.Scaled | FFTComplex.h:139-144 | the integer-mode `cdiv` pre-pass of each kernel (lines 264-268, 288-300, 347-357) keeps the span length and yields int32 slots |
| Butterflies.TwiddleOffsets | FFTComplex.h:302-335 | the twiddle indices `i * stride` (radix 2, lines 270-271) and `i * stride`, `2 i * stride`, `3 i * stride` (radix 4) stay below `size` |
| Butterflies.Radix2Pair | FFTComplex.h:264-274 | with `a = cdiv(x0, 2)` and `t = cmul(cdiv(x1, 2), w)`: the two outputs sum to `2a` and differ by `2t`, i.e. they are `a + t` and `a - t` |
| Butterflies.Butterfly2Advance | FFTComplex.h:262-275 | iteration i reads the two untouched slots i and i + length, and its two writes advance the buffer to the next partial state |
| Butterflies.Butterfly2Ends | FFTComplex.h:256-276 | the partial state starts as the old span and, after `length` iterations, is the radix-2 kernel's result |
| Butterflies.Radix4Group | FFTComplex.h:305-331 | outputs 0 and 2 are `a0 + a2w2 +- (a1w1 + a3w3)`; outputs 1 and 3 are `a0 - a2w2 -+ i(a1w1 - a3w3)`, signs swapped for the inverse; the four outputs sum to `4 a0` |
| Butterflies.Radix4Direction | FFTComplex.h:318-331 | the inverse group equals the forward group with outputs 1 and 3 exchanged |
| Butterflies.GroupOf | FFTComplex.h:305-337 | every slot of a radix-4 span belongs to a group below `length` |
| Butterflies.GroupOfIs | FFTComplex.h:305-337 | slot j belongs to group u exactly when it is one of u, u + length, u + 2 length, u + 3 length |
| Butterflies.Scale4Step | FFTComplex.h:290-297 | pass u reads four untouched slots and divides them by 4 |
| Butterflies.Scale4Advance | FFTComplex.h:290-297 | the same step read on the buffer: the four writes advance the splice state |
| Butterflies.Scale4Ends | FFTComplex.h:288-300 | the radix-4 pre-pass starts at the old span and ends with every slot divided by 4 |
| Butterflies.Groups4At | FFTComplex.h:302-335 | group i uses twiddles `i * stride`, `2 i * stride`, `3 i * stride`, all below `size` |
| Butterflies.Spread4Step | FFTComplex.h:305-337 | group i reads its four untouched slots and writes its four outputs to them |
| Butterflies.Spread4Advance | FFTComplex.h:305-337 | the same step read on the buffer |
| Butterflies.Spread4Ends | FFTComplex.h:305-337 | before the first group the span is unchanged |
| Butterflies.Butterfly4Ends | FFTComplex.h:278-338 | pre-pass then all groups give exactly the radix-4 kernel's result |
| Butterflies.TwIndex | FFTComplex.h:371-377 | the running twiddle index always stays below `size` |
| Butterflies.TwIndexIsMod | FFTComplex.h:371-377 | after q additions of `stride * k` (< size), each with at most one subtraction, the index equals `(q * stride * k) mod size` |
| Butterflies.ColumnIndex | FFTComplex.h:361-365 | the column slots `u + q * length` stay inside the span |
| Butterflies.StepBound | FFTComplex.h:373 | `stride * k < size` for every slot k of the span |
| Butterflies.ScaleColumnsAdvance | FFTComplex.h:349-356 | one `cdiv` of the column pre-pass reads an untouched slot and advances the splice state |
| Butterflies.ScaleColumnsRow | FFTComplex.h:349-356 | finishing column u is starting column u + 1 |
| Butterflies.ScaleColumnsEnds | FFTComplex.h:347-357 | the generic pre-pass starts at the old span and ends with every slot divided by radix |
| Butterflies.CombineColumnsRead | FFTComplex.h:361-365 | before column u is rewritten, the scratch copy reads the column of the pre-divided span |
| Butterflies.CombineColumnsAdvance | FFTComplex.h:367-382 | writing slot k = u + q1 length with the accumulated sum of the scratch column advances the state |
| Butterflies.CombineColumnsRow | FFTComplex.h:359-383 | finishing column u is starting column u + 1 |
| Butterflies.CombineColumnsStart | FFTComplex.h:359 | before the first column the span is unchanged |
| Butterflies.GenericEnds | FFTComplex.h:340-384 | pre-pass then all columns give exactly the generic kernel's result |
| Butterflies.AccumulateIsReference | FFTComplex.h:369-379 | the incremental twiddle walk computes `scratch[0] + sum over q >= 1 of cmul(scratch[q], tw[(q * stride * k) mod size])` |
| Butterflies.GenericSlot | FFTComplex.h:359-384 | slot `u + q1 * length` of the generic result is that reference sum over column u of the pre-divided span |
| ComplexFFT.ChainedFrom | FFTComplex.h:218 | walking the factor table from slot i sees the chain's entries from i on, each linked to the next |
| ComplexFFT.RadixFits | FFTComplex.h:218-223 | at every call `1 <= radix <= INT_MAX`, `length >= 1`, and the call's span fits the twiddle table |
| ComplexFFT.ChildOk | FFTComplex.h:234-241 | sub-call j runs on the next factor with stride `stride * radix` and input offset `j * stride`; its span is `length` and the invariant `stride * radix * length == size` carries over |
| ComplexFFT.GatherIndex | FFTComplex.h:229-230 | the leaf input positions `inOff + j * stride` stay below `stride * radix` |
| ComplexFFT.Gather | FFTComplex.h:225-233 | a leaf copies `radix` inputs taken every `stride` slots |
| ComplexFFT.PerformSpecAgree | FFTComplex.h:218 | the result depends only on the factor entries, not on the table slots past them |
| ComplexFFT.PerformSpecPrefix | FFTComplex.h:225-242 | the result reads only the first `size` input slots |
| ComplexFFT.SubTransformsPrefix | FFTComplex.h:234-242 | the same for the concatenated sub-results |
| ComplexFFT.SubTransformsAgree | FFTComplex.h:234-242 | the concatenated sub-results depend only on the factor entries |
| ComplexFFT.SubTransformsBlock | FFTComplex.h:236-241 | sub-call i fills exactly the block `[i * length, (i + 1) * length)`, and the blocks are disjoint |
| ComplexFFT.TopOk | FFTComplex.h:201-211 | the entry call (stride 1, the whole chain) meets every call invariant, and its span is `size` |
| ComplexFFT.TransformPrefix | FFTComplex.h:201-211 | the whole transform reads only the first `size` input slots |
| ComplexFFT.ComplexTransform.constructor | FFTComplex.h:154-199 | the factor table holds the chain for `size`, and the two twiddle tables are the ones given |
| ComplexFFT.ComplexTransform.Forward | FFTComplex.h:201-205 | `freq[0, size)` becomes the forward transform of `time`, computed with the forward table; the rest of `freq` is unchanged |
| ComplexFFT.ComplexTransform.Inverse | FFTComplex.h:207-211 | `time[0, size)` becomes the inverse transform of `freq`, computed with the inverse table; the rest of `time` is unchanged |
| ComplexFFT.ComplexTransform.Run | FFTComplex.h:246 | the direction selects the table: inverse table for the inverse, forward table otherwise |
| ComplexFFT.ComplexTransform.Perform | FFTComplex.h:213-254 | `perform` writes exactly `output[outOff, outOff + radix * length)`, with the recursive specification of the call |
| ComplexFFT.ComplexTransform.PerformLeaf | FFTComplex.h:225-233 | a leaf writes `output[outOff + j] = input[inOff + j * stride]` for j < radix, and nothing else |
| ComplexFFT.ComplexTransform.PerformBlocks | FFTComplex.h:234-242 | the sub-call loop leaves the span holding the concatenation of the `radix` sub-results |
| ComplexFFT.ComplexTransform.PerformBlock | FFTComplex.h:236-240 | sub-call j appends its block to the span and leaves every other slot as it was |
| ComplexFFT.ComplexTransform.Butterfly2 | FFTComplex.h:256-276 | the span becomes the radix-2 kernel's result; slots outside it are unchanged |
| ComplexFFT.ComplexTransform.Butterfly4 | FFTComplex.h:278-338 | the span becomes the radix-4 kernel's result; slots outside it are unchanged |
| ComplexFFT.ComplexTransform.Scale4 | FFTComplex.h:288-300 | every slot of the span is divided by 4 |
| ComplexFFT.ComplexTransform.Combine4 | FFTComplex.h:302-337 | the group loop replaces each group of four slots with its radix-4 outputs |
| ComplexFFT.ComplexTransform.Combine4Group | FFTComplex.h:305-336 | one group iteration writes its four slots and nothing else |
| ComplexFFT.ComplexTransform.ButterflyGeneric | FFTComplex.h:340-384 | the span becomes the generic kernel's result; slots outside it are unchanged |
| ComplexFFT.ComplexTransform.ScaleGeneric | FFTComplex.h:347-357 | every slot of the span is divided by radix |
| ComplexFFT.ComplexTransform.CombineGeneric | FFTComplex.h:359-383 | every column of the pre-divided span is replaced by its accumulated sums |
| ComplexFFT.ComplexTransform.GenericColumn | FFTComplex.h:360-382 | one column iteration rewrites exactly the slots of column u |
| ComplexFFT.ComplexTransform.FillScratch | FFTComplex.h:361-365 | the scratch buffer holds column u of the span, read before any slot of the column is overwritten |
| ComplexFFT.ComplexTransform.WriteColumn | FFTComplex.h:367-382 | each slot of column u gets the accumulated sum of the scratch column |
| ComplexFFT.ComplexTransform.GenericSlotWrite | FFTComplex.h:369-379 | one slot gets `scratch[0] + sum of cmul(scratch[q], tw[twIndex])`; no other slot changes |
| RealFFT.ForwardPair | FFTReal.h:93-102 | with `fk = s0 + conj(b)` and `t = cmul(s0 - conj(b), w)`: slot k is `floor((fk + t) / 2)` per component, slot M - k is `floor((fk.re - t.re) / 2)` and `floor((t.im - fk.im) / 2)` |
| RealFFT.InversePair | FFTReal.h:131-138 | with `fk = s0 + conj(b)` and `t = cmul(s0 - conj(b), conj(w))`: `r.0 + conj(r.1) == 2 fk` and `r.0 - conj(r.1) == 2 t`, i.e. the outputs are `fk + t` and `conj(fk - t)` |
| RealFFT.MirroredAt | FFTReal.h:91-103 | in either combine loop (forward lines 91-103, inverse lines 129-139), after turns 1 .. k - 1, a slot j that a turn has written holds its combined value; every other slot still holds its input |
| RealFFT.MirroredFull | FFTReal.h:91-103 | in either combine loop (also lines 129-139), after all turns k = 1 .. M/2 the buffer is the unpacked spectrum: slot 0 kept, slot j < M - j the first output of turn j, the others the second output of turn M - j |
| RealFFT.MirroredReads | FFTReal.h:93-94 | turn k (also lines 131-132 of the inverse) reads slots k and M - k before any turn has overwritten them |
| RealFFT.MirrorTurn | FFTReal.h:99-102 | the two writes of turn k (also lines 137-138 of the inverse) advance the buffer to the state after k turns |
| RealFFT.UnpackedBins | FFTReal.h:91-103 | after either combine loop (also lines 129-139), bin M - k holds turn k's second output, and bin k its first output when k < M - k |
| RealFFT.MiddleBin | FFTReal.h:99-102 | at k = M/2 both writes hit the same slot, and the second one wins |
| RealFFT.TwiddleRange | FFTReal.h:91-97 | for k in 1 .. M/2 the twiddle index k - 1 is below M/2, and M - k lies in `[M/2, M)` |
| RealFFT.Zeros | FFTReal.h:105-106 | the cleared region: n pairs (0, 0) |
| RealFFT.PackDC | FFTReal.h:87-88 | bin 0 becomes `(re + im, 0)` of the halved bin 0, and bins 1 .. M - 1 are kept |
| RealFFT.Nyquist | FFTReal.h:89 | the Nyquist value written at bin M has a zero imaginary part |
| RealFFT.PackSlots | FFTReal.h:87-89 | the two writes at bins 0 and M give the packed DC/Nyquist prefix |
| RealFFT.ClearOverNyquist | FFTReal.h:105-106 | clearing `[M, 2M)` after the packed prefix keeps bins 0 .. M - 1 and erases bin M, written at line 89 |
| RealFFT.HalvedSpectrum | FFTReal.h:79-84 | the half-size transform of the samples, each bin halved by `cdiv` |
| RealFFT.CopyStart | FFTReal.h:114-121 | the copy-mode scratch: M bins, with bins 1 .. M - 1 copied from the caller's spectrum |
| RealFFT.ForwardShape | FFTReal.h:87-106 | as written, bin 0 is `(re + im, 0)`, bins 0 .. M - 1 are the unpacked spectrum, and `[M, 2M)` is zero |
| RealFFT.ForwardBins | FFTReal.h:91-103 | `freq[M - k]` and (for k < M - k) `freq[k]` are the halving formulas applied to `F[k]`, `F[M - k]` and twiddle k - 1 |
| RealFFT.NyquistLost | FFTReal.h:87-106 | as written, bin M is (0, 0); as intended it is `(re - im, 0)`; the two spectra differ only there, and agree exactly when `re == im` |
| RealFFT.DCRoundTrip | FFTReal.h:118-119 | copy-mode `inverse` rebuilds bin 0 from bins 0 and M that `forward` packed at lines 87-89: as `2 * F[0]` from the intended spectrum, but as `(re + im, re + im)` from the spectrum `forward` leaves |
| RealFFT.ReportedSize | FFTReal.h:59-63 | `getSize` (line 44) is `N - N % 2`; the assertion accepts exactly `N % 4` in {0, 1} |
| RealFFT.RealTransform.constructor | FFTReal.h:59-74 | M is `floor(N / 2)`, the half-size engine and both tables are the ones given, and `getSize` reports `N - N % 2` |
| RealFFT.RealTransform.GetSize | FFTReal.h:44 | the reported size is even and twice M |
| RealFFT.RealTransform.Forward | FFTReal.h:76-107 | `freq[0, 2M)` becomes the as-written spectrum of `time`; the rest of `freq` is unchanged |
| RealFFT.RealTransform.ForwardKeepingNyquist | FFTReal.h:76-107 | the corrected `forward`: the same, but bin M keeps `(re - im, 0)` and only `[M + 1, 2M)` is cleared |
| RealFFT.RealTransform.ForwardPacked | FFTReal.h:79-103 | after the transform, halving, DC/Nyquist writes and combine loop, `freq[0 .. M]` is the packed spectrum |
| RealFFT.RealTransform.ClearSlots | FFTReal.h:105-106 | the `memset` sets exactly `[off, off + n)` to (0, 0) |
| RealFFT.RealTransform.HalveBins | FFTReal.h:83-84 | bins 0 .. M - 1 are each divided by 2 (also lines 125-126 of the inverse); nothing else changes |
| RealFFT.RealTransform.CombineMirrored | FFTReal.h:91-103 | either combine loop over k = 1 .. M/2 (also lines 129-139) leaves bins 0 .. M - 1 holding the unpacked spectrum of their old values |
| RealFFT.RealTransform.CombineTurn | FFTReal.h:93-102 | turn k (also lines 131-138) writes bins k and M - k from their untouched values and twiddle k - 1 |
| RealFFT.RealTransform.CopyBins | FFTReal.h:114-121 | copy mode fills a fresh M-bin buffer: bin 0 from `F[0]` and `F[M]`, bins 1 .. M - 1 copied |
| RealFFT.RealTransform.PrepareBins | FFTReal.h:123-139 | bins 0 .. M - 1 are halved and then combined with the conjugated twiddles |
| RealFFT.RealTransform.Inverse | FFTReal.h:109-142 | in place, the caller's bins 0 .. M - 1 become the prepared bins, bin 0 used as-is; in copy mode `freq` is unchanged; `time[0, M)` is the half-size inverse of the prepared bins |

## Left out

- Floating-point instantiations (the `is_floating_point` branches) are not modelled; their arithmetic is inexact.
- Twiddle contents (`scos`, `ssin`, `cexp`, the table loops of both constructors) come from `std::cos`/`std::sin`. Every table is an input sequence of integer pairs of the right length.
- No proof that the output equals the DFT, or that forward then inverse scales by N. The Q31 path and the tables only approximate it.
- `alloca` scratch buffers become fresh Dafny arrays of `radix` or `M` pairs.
- `reinterpret_cast` views of flat `T` buffers as complex are not modelled: real sample buffers are arrays of `Complex` pairs, so a buffer of 2M samples is an array of M pairs.
- The `Alloc` parameter, vector resizing and the feature-detection macros are storage plumbing and are left out.
- The `+` and `-` of complex values use unbounded integers. The signed-overflow behaviour of those operations is not modelled; only `smul`'s narrowing cast is.
- `inStride` is always 1 at both entry points, so `perform` has no `inStride` parameter.
- Factorization.FloorSqrt: `std::sqrt` on a double is modelled as the exact integer square root. The two agree for sizes below 2^52.
- ComplexFFT.ComplexTransform.constructor requires `1 <= size <= INT_MAX`. Size 0 factorises to `(4, 0)` (proved in `Factorization.SmallChains`), but `perform` would then read a factor entry the constructor never wrote. A radix is passed to `cdiv` as a 32-bit value.
- ComplexFFT.ComplexTransform.Forward, ComplexFFT.ComplexTransform.Inverse, RealFFT.RealTransform.Forward and RealFFT.RealTransform.Inverse require distinct time and frequency arrays. With aliased buffers the source overwrites its own input, and that case is not modelled.
- Butterflies.TwIndex: the running index is an unbounded natural. In the source it is an `int`, and `twIndex += stride * k` is computed in `size_t`; before the subtraction the sum can reach `2 * size - 2`, which exceeds INT_MAX when size > 2^30. Converting that sum back to `int` wraps, but the `>= size` comparison is done unsigned and the subtraction brings the value back into `[0, size)`, so the index the source uses is still `(twIndex + stride * k) mod size`, which is what the model computes. The intermediate wrapped `int` value is not modelled.
- RealFFT.RealTransform.CombineMirrored: the forward loop (FFTReal.h:91-103) and the inverse loop (FFTReal.h:129-139) share one method, parameterised by the per-turn formulas `ForwardPair` or `InversePair`.
- RealFFT.RealTransform.Inverse requires `M < freq.Length` in copy mode, because the copy reads `freq[M]`.
- RealFFT.RealTransform.constructor requires M >= 1, because the half-size engine needs a positive size.

## Findings

| source | as written | input that shows it | evidently intended | confidence | as-written member | corrected member |
|---|---|---|---|---|---|---|
| FFTReal.h:89-106 | `forward` stores the Nyquist value `(re - im, 0)` at bin M. It then clears `size` pairs starting at `freqData + size`, which erases that value, so bin M is always (0, 0). Copy-mode `inverse` then rebuilds bin 0 from bin M. | any signal whose halved bin 0 has `re != im`, e.g. N = 8 with `x[0] = 2^30` (0.5 in Q31) and every other sample 0: the halved bin 0 is (2^27, 0), so bin 4 should be (2^27, 0) but ends as (0, 0) | keep bin M and clear only `[M + 1, 2M)`: the store at line 89 is otherwise dead, and the comment at line 105 asks to clear only negative frequencies, which bin M is not; the round trip through copy-mode `inverse` then rebuilds bin 0 as `2 F[0]` | not executed | RealFFT.NyquistLost, RealFFT.RealTransform.Forward | RealFFT.RealTransform.ForwardKeepingNyquist, RealFFT.DCRoundTrip |
