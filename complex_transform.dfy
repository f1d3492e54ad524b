/** The fixed-point complex transform: the factor chain recorded by the
    constructor, the recursive mixed-radix decomposition `perform`, and the
    three combine kernels, all working in place on an output buffer of
    integer pairs. */
module ComplexFFT {

  import opened Arith
  import opened FixedPoint
  import opened Factorization
  import opened Butterflies

  //==========================================================================
  // What one call of `perform` computes

  /** The factor entries from the one a `perform` call reads onward: each
      entry has a positive radix and length, and unless its length is 1 (a
      leaf) the next entry splits that length into radix * length. */
  predicate Chained(c: seq<Factor>)
    decreases |c|
  {
    && |c| >= 1
    && 1 <= c[0].radix && 1 <= c[0].length
    && (c[0].length != 1 ==>
          |c| >= 2 && c[1].radix * c[1].length == c[0].length && Chained(c[1..]))
  }

  /** Two factor sequences agree up to the first leaf entry. */
  predicate Agree(c: seq<Factor>, d: seq<Factor>)
    decreases |c|
  {
    && |c| >= 1 && |d| >= 1 && c[0] == d[0]
    && (c[0].length != 1 ==> |c| >= 2 && |d| >= 2 && Agree(c[1..], d[1..]))
  }

  /** An array that starts with a well formed chain is chained from every
      entry of the chain, and agrees with the chain from there to the leaf. */
  lemma {:induction false} ChainedFrom(c: seq<Factor>, n: nat, d: seq<Factor>, i: nat)
    requires ChainOk(c, n) && |c| <= |d| && d[..|c|] == c && i < |c|
    ensures Chained(d[i..]) && Agree(c[i..], d[i..]) && d[i] == c[i]
    decreases |c| - i
  {
    assert d[i] == d[..|c|][i];
    if c[i].length != 1 {
      assert i + 1 < |c|;
      assert Splits(c, n, i + 1);
      assert d[i + 1] == d[..|c|][i + 1];
      ChainedFrom(c, n, d, i + 1);
      assert d[i..][1..] == d[i + 1..];
      assert c[i..][1..] == c[i + 1..];
    }
  }

  /** The arguments of a `perform` call are consistent: the factor entries
      from the call's own onward are chained, the input offset is below the
      stride, stride * radix * length == size, and the input holds size
      pairs. The radix is converted to the 32-bit sample type by `cdiv`, so
      the size must fit it. */
  predicate PerformOk(x: seq<Complex>, c: seq<Factor>, inOff: nat, stride: nat, tw: seq<Complex>)
  {
    && Chained(c)
    && inOff < stride
    && stride * c[0].radix * c[0].length == |tw|
    && |tw| <= |x|
    && |tw| <= Int32Max
  }

  /** Radix and length of a consistent call are positive and the radix fits
      the sample type. */
  lemma RadixFits(x: seq<Complex>, c: seq<Factor>, inOff: nat, stride: nat, tw: seq<Complex>)
    requires PerformOk(x, c, inOff, stride, tw)
    ensures 1 <= c[0].radix <= Int32Max && 1 <= c[0].length
    ensures c[0].radix * c[0].length <= |tw|
  {
    var f := c[0];
    MulLeft(1, stride, f.radix * f.length);
    assert stride * f.radix * f.length == stride * (f.radix * f.length);
    MulLeft(1, f.length, f.radix);
  }

  /** The invariant `stride * radix * length == size` passes from a call to
      each of its sub-calls: sub-call j takes the next entry, the stride
      multiplied by the radix and the input advanced by j * stride. */
  lemma ChildOk(x: seq<Complex>, c: seq<Factor>, inOff: nat, stride: nat, tw: seq<Complex>, j: nat)
    requires PerformOk(x, c, inOff, stride, tw)
    requires c[0].length != 1 && j < c[0].radix
    ensures |c| >= 2 && c[1].radix * c[1].length == c[0].length
    ensures PerformOk(x, c[1..], inOff + j * stride, stride * c[0].radix, tw)
  {
    var f, g := c[0], c[1];
    assert c[1..][0] == g;
    assert stride * f.radix * g.radix * g.length == stride * f.radix * (g.radix * g.length);
    MulLeft(j + 1, f.radix, stride);
  }

  lemma GatherIndex(j: nat, inOff: nat, stride: nat, radix: nat)
    requires j < radix && inOff < stride
    ensures inOff + j * stride < stride * radix
  {
    MulLeft(j + 1, radix, stride);
  }

  /** The leaf of the recursion: `output[j] = input[j * stride]`, j < radix. */
  function Gather(x: seq<Complex>, inOff: nat, stride: nat, radix: nat): (r: seq<Complex>)
    requires inOff < stride && stride * radix <= |x|
    ensures |r| == radix
  {
    seq(radix, j requires 0 <= j < radix => GatherIndex(j, inOff, stride, radix); x[inOff + j * stride])
  }

  /** The `switch (radix)` that picks the combine kernel. */
  function Combine(s: seq<Complex>, radix: nat, length: nat, stride: nat, tw: seq<Complex>, inverse: bool): (r: seq<Complex>)
    requires 1 <= radix <= Int32Max && 1 <= length && 1 <= stride
    requires |s| == radix * length && stride * radix * length == |tw|
    ensures |r| == |s|
  {
    if radix == 2 then Butterfly2Spec(s, length, stride, tw)
    else if radix == 4 then Butterfly4Spec(s, length, stride, tw, inverse)
    else GenericSpec(s, radix, length, stride, tw)
  }

  /** The radix * length pairs a `perform` call leaves in its output span. */
  function PerformSpec(x: seq<Complex>, c: seq<Factor>, inOff: nat, stride: nat,
                       tw: seq<Complex>, inverse: bool): (r: seq<Complex>)
    requires PerformOk(x, c, inOff, stride, tw)
    ensures |r| == c[0].radix * c[0].length
    decreases |c|, 3
  {
    Combined(x, c, inOff, stride, tw, inverse)
  }

  /** The kernel the radix selects, applied to the prepared span. */
  function Combined(x: seq<Complex>, c: seq<Factor>, inOff: nat, stride: nat,
                    tw: seq<Complex>, inverse: bool): (r: seq<Complex>)
    requires PerformOk(x, c, inOff, stride, tw)
    ensures |r| == c[0].radix * c[0].length
    decreases |c|, 2
  {
    RadixFits(x, c, inOff, stride, tw);
    var f := c[0];
    Combine(Prepared(x, c, inOff, stride, tw, inverse), f.radix, f.length, stride, tw, inverse)
  }

  /** The span of a call before its kernel runs: the gathered inputs at a
      leaf, the sub-transforms side by side otherwise. */
  function Prepared(x: seq<Complex>, c: seq<Factor>, inOff: nat, stride: nat,
                    tw: seq<Complex>, inverse: bool): (r: seq<Complex>)
    requires PerformOk(x, c, inOff, stride, tw)
    ensures |r| == c[0].radix * c[0].length
    decreases |c|, 1
  {
    RadixFits(x, c, inOff, stride, tw);
    var f := c[0];
    if f.length == 1 then Gather(x, inOff, stride, f.radix)
    else SubTransforms(x, c, inOff, stride, tw, inverse, f.radix)
  }

  /** The first j sub-transforms of a call, side by side: sub-transform j
      fills the block [j * length, (j + 1) * length) of the span. */
  function SubTransforms(x: seq<Complex>, c: seq<Factor>, inOff: nat, stride: nat,
                         tw: seq<Complex>, inverse: bool, j: nat): (r: seq<Complex>)
    requires PerformOk(x, c, inOff, stride, tw)
    requires c[0].length != 1 && j <= c[0].radix
    ensures |r| == j * c[0].length <= c[0].radix * c[0].length
    decreases |c|, 0, j
  {
    MulLeft(j, c[0].radix, c[0].length);
    if j == 0 then []
    else
      ChildOk(x, c, inOff, stride, tw, j - 1);
      SubTransforms(x, c, inOff, stride, tw, inverse, j - 1)
        + PerformSpec(x, c[1..], inOff + (j - 1) * stride, stride * c[0].radix, tw, inverse)
  }

  /** `perform` reads the factor entries only down to the leaf: two
      sequences that agree that far give the same span. */
  lemma {:induction false} PerformSpecAgree(x: seq<Complex>, c: seq<Factor>, d: seq<Factor>, inOff: nat,
                                            stride: nat, tw: seq<Complex>, inverse: bool)
    requires PerformOk(x, c, inOff, stride, tw) && PerformOk(x, d, inOff, stride, tw) && Agree(c, d)
    ensures PerformSpec(x, c, inOff, stride, tw, inverse) == PerformSpec(x, d, inOff, stride, tw, inverse)
    decreases |c|, 1
  {
    if c[0].length != 1 {
      SubTransformsAgree(x, c, d, inOff, stride, tw, inverse, c[0].radix);
    }
    assert Prepared(x, c, inOff, stride, tw, inverse) == Prepared(x, d, inOff, stride, tw, inverse);
    assert Combined(x, c, inOff, stride, tw, inverse) == Combined(x, d, inOff, stride, tw, inverse);
  }

  lemma {:induction false} SubTransformsAgree(x: seq<Complex>, c: seq<Factor>, d: seq<Factor>, inOff: nat,
                                              stride: nat, tw: seq<Complex>, inverse: bool, j: nat)
    requires PerformOk(x, c, inOff, stride, tw) && PerformOk(x, d, inOff, stride, tw) && Agree(c, d)
    requires c[0].length != 1 && j <= c[0].radix
    ensures SubTransforms(x, c, inOff, stride, tw, inverse, j) == SubTransforms(x, d, inOff, stride, tw, inverse, j)
    decreases |c|, 0, j
  {
    if j > 0 {
      SubTransformsAgree(x, c, d, inOff, stride, tw, inverse, j - 1);
      ChildOk(x, c, inOff, stride, tw, j - 1);
      ChildOk(x, d, inOff, stride, tw, j - 1);
      PerformSpecAgree(x, c[1..], d[1..], inOff + (j - 1) * stride, stride * c[0].radix, tw, inverse);
    }
  }

  /** `perform` reads only the first |tw| = size input slots: two inputs
      that agree there give the same span. */
  lemma {:induction false} PerformSpecPrefix(x: seq<Complex>, y: seq<Complex>, c: seq<Factor>, inOff: nat,
                                             stride: nat, tw: seq<Complex>, inverse: bool)
    requires PerformOk(x, c, inOff, stride, tw) && PerformOk(y, c, inOff, stride, tw)
    requires x[..|tw|] == y[..|tw|]
    ensures PerformSpec(x, c, inOff, stride, tw, inverse) == PerformSpec(y, c, inOff, stride, tw, inverse)
    decreases |c|, 1
  {
    RadixFits(x, c, inOff, stride, tw);
    var f := c[0];
    if f.length != 1 {
      SubTransformsPrefix(x, y, c, inOff, stride, tw, inverse, f.radix);
    } else {
      forall j | 0 <= j < f.radix
        ensures Gather(x, inOff, stride, f.radix)[j] == Gather(y, inOff, stride, f.radix)[j]
      {
        GatherIndex(j, inOff, stride, f.radix);
        assert x[..|tw|][inOff + j * stride] == y[..|tw|][inOff + j * stride];
      }
    }
    assert Prepared(x, c, inOff, stride, tw, inverse) == Prepared(y, c, inOff, stride, tw, inverse);
    assert Combined(x, c, inOff, stride, tw, inverse) == Combined(y, c, inOff, stride, tw, inverse);
  }

  lemma {:induction false} SubTransformsPrefix(x: seq<Complex>, y: seq<Complex>, c: seq<Factor>, inOff: nat,
                                               stride: nat, tw: seq<Complex>, inverse: bool, j: nat)
    requires PerformOk(x, c, inOff, stride, tw) && PerformOk(y, c, inOff, stride, tw)
    requires x[..|tw|] == y[..|tw|]
    requires c[0].length != 1 && j <= c[0].radix
    ensures SubTransforms(x, c, inOff, stride, tw, inverse, j) == SubTransforms(y, c, inOff, stride, tw, inverse, j)
    decreases |c|, 0, j
  {
    if j > 0 {
      SubTransformsPrefix(x, y, c, inOff, stride, tw, inverse, j - 1);
      ChildOk(x, c, inOff, stride, tw, j - 1);
      ChildOk(y, c, inOff, stride, tw, j - 1);
      PerformSpecPrefix(x, y, c[1..], inOff + (j - 1) * stride, stride * c[0].radix, tw, inverse);
    }
  }

  /** Sub-transform i sits in block i of the span: the sub-calls fill the
      disjoint blocks [i * length, (i + 1) * length), one each. */
  lemma {:induction false} SubTransformsBlock(x: seq<Complex>, c: seq<Factor>, inOff: nat, stride: nat,
                                              tw: seq<Complex>, inverse: bool, j: nat, i: nat)
    requires PerformOk(x, c, inOff, stride, tw)
    requires c[0].length != 1 && i < j <= c[0].radix
    ensures (i + 1) * c[0].length <= j * c[0].length
    ensures PerformOk(x, c[1..], inOff + i * stride, stride * c[0].radix, tw)
    ensures SubTransforms(x, c, inOff, stride, tw, inverse, j)[i * c[0].length..(i + 1) * c[0].length]
      == PerformSpec(x, c[1..], inOff + i * stride, stride * c[0].radix, tw, inverse)
    decreases j
  {
    var n := c[0].length;
    ChildOk(x, c, inOff, stride, tw, i);
    var prev := SubTransforms(x, c, inOff, stride, tw, inverse, j - 1);
    ChildOk(x, c, inOff, stride, tw, j - 1);
    var last := PerformSpec(x, c[1..], inOff + (j - 1) * stride, stride * c[0].radix, tw, inverse);
    assert SubTransforms(x, c, inOff, stride, tw, inverse, j) == prev + last;
    if i < j - 1 {
      SubTransformsBlock(x, c, inOff, stride, tw, inverse, j - 1, i);
    }
    BlockOfConcat(prev, last, n, i, j);
  }

  /** The top-level call of a transform of n points: entry 0 of the factor
      chain of n, stride 1, input offset 0. */
  lemma TopOk(x: seq<Complex>, n: nat, tw: seq<Complex>)
    requires 1 <= n <= Int32Max && |tw| == n && n <= |x|
    ensures PerformOk(x, FactorChain(n), 0, 1, tw)
    ensures FactorChain(n)[0].radix * FactorChain(n)[0].length == n
  {
    var c := FactorChain(n);
    ChainLinks(n);
    assert c[..|c|] == c;
    ChainedFrom(c, n, c, 0);
    assert c[0..] == c;
    assert Splits(c, n, 0);
  }

  /** The transform of n points: what `forward` (inverse false) and
      `inverse` (inverse true) leave in their first n output slots. */
  function Transform(x: seq<Complex>, n: nat, tw: seq<Complex>, inverse: bool): (r: seq<Complex>)
    requires 1 <= n <= Int32Max && |tw| == n && n <= |x|
    ensures |r| == n
  {
    TopOk(x, n, tw);
    PerformSpec(x, FactorChain(n), 0, 1, tw, inverse)
  }
  /** The transform of n points depends on the first n input slots only. */
  lemma TransformPrefix(x: seq<Complex>, y: seq<Complex>, n: nat, tw: seq<Complex>, inverse: bool)
    requires 1 <= n <= Int32Max && |tw| == n && n <= |x| && n <= |y| && x[..n] == y[..n]
    ensures Transform(x, n, tw, inverse) == Transform(y, n, tw, inverse)
  {
    TopOk(x, n, tw);
    TopOk(y, n, tw);
    PerformSpecPrefix(x, y, FactorChain(n), 0, 1, tw, inverse);
  }


  //==========================================================================
  // The transform object

  class ComplexTransform {
    const size: nat
    /** The fixed 32-entry factor array; the first |FactorChain(size)|
        entries hold the chain. */
    const factors: array<Factor>
    const twiddlesFwd: seq<Complex>
    const twiddlesInv: seq<Complex>

    predicate Valid()
      reads this, factors
    {
      && 1 <= size <= Int32Max
      && factors.Length == MaxFactors
      && Chained(factors[..])
      && Agree(FactorChain(size), factors[..])
      && |twiddlesFwd| == size && |twiddlesInv| == size
    }

    /** The table `perform` reads: forward or inverse. */
    function Table(inverse: bool): (tw: seq<Complex>)
    {
      if inverse then twiddlesInv else twiddlesFwd
    }

    /** The constructor: the twiddle tables are given, the factor chain of
        the size is written into a fresh 32-entry array. */
    constructor (n: nat, fwd: seq<Complex>, inv: seq<Complex>)
      requires 1 <= n <= Int32Max && |fwd| == n && |inv| == n
      ensures Valid() && fresh(factors)
      ensures size == n && twiddlesFwd == fwd && twiddlesInv == inv
    {
      size := n;
      twiddlesFwd := fwd;
      twiddlesInv := inv;
      var f := new Factor[MaxFactors](_ => Factor(0, 0));
      if n == 1 {
        SmallChains();
      } else {
        ChainFitsArray(n);
      }
      ChainLinks(n);
      var count := Factorize(n, f);
      ChainedFrom(FactorChain(n), n, f[..], 0);
      assert f[..][0..] == f[..] && FactorChain(n)[0..] == FactorChain(n);
      factors := f;
    }

    /** `forward`: the whole transform of the input into the first size
        slots of the output, with the forward table; nothing else changes. */
    method Forward(time: array<Complex>, freq: array<Complex>)
      requires Valid() && time != freq && size <= time.Length && size <= freq.Length
      modifies freq
      ensures freq[..] == Splice(old(freq[..]), 0, Transform(time[..], size, twiddlesFwd, false))
    {
      Run(time, freq, false);
    }

    /** `inverse`: the same with the inverse table and the inverse radix-4
        kernel. */
    method Inverse(freq: array<Complex>, time: array<Complex>)
      requires Valid() && time != freq && size <= time.Length && size <= freq.Length
      modifies time
      ensures time[..] == Splice(old(time[..]), 0, Transform(freq[..], size, twiddlesInv, true))
    {
      Run(freq, time, true);
    }

    /** `perform (input, output, 1, 1, factors, inverse)`. */
    method Run(input: array<Complex>, output: array<Complex>, inverse: bool)
      requires Valid() && input != output && size <= input.Length && size <= output.Length
      modifies output
      ensures output[..] == Splice(old(output[..]), 0, Transform(input[..], size, Table(inverse), inverse))
    {
      ghost var c := FactorChain(size);
      ghost var x := input[..];
      ghost var tw := Table(inverse);
      TopOk(x, size, tw);
      assert factors[0..] == factors[..];
      PerformSpecAgree(x, c, factors[..], 0, 1, tw, inverse);
      Perform(input, 0, output, 0, 1, 0, inverse, factors[..], x);
    }

    /** `perform`: the call for factor entry fi writes the radix * length
        pairs of PerformSpec at outOff and changes nothing else. A leaf
        (length 1) gathers every stride-th input, otherwise the sub-calls
        fill the span block by block; then the radix picks the combine
        kernel. */
    method Perform(input: array<Complex>, inOff: nat, output: array<Complex>, outOff: nat,
                   stride: nat, fi: nat, inverse: bool, ghost c: seq<Factor>, ghost x: seq<Complex>)
      requires input != output && input[..] == x && fi <= factors.Length && factors[fi..] == c
      requires |Table(inverse)| == size && PerformOk(x, c, inOff, stride, Table(inverse))
      requires outOff + c[0].radix * c[0].length <= output.Length
      modifies output
      ensures output[..] == Splice(old(output[..]), outOff,
        PerformSpec(x, c, inOff, stride, Table(inverse), inverse))
      decreases |c|, 2
    {
      ghost var tw := Table(inverse);
      ghost var b := output[..];
      RadixFits(x, c, inOff, stride, tw);
      var factor := factors[fi];
      assert factor == c[0];
      var radix := factor.radix;
      var length := factor.length;
      ghost var pre := Prepared(x, c, inOff, stride, tw, inverse);
      if length == 1 {
        PerformLeaf(input, inOff, output, outOff, stride, radix);
      } else {
        PerformBlocks(input, inOff, output, outOff, stride, fi, inverse, c, x);
      }
      SpliceSlice(b, outOff, pre);
      ghost var post := Combine(pre, radix, length, stride, tw, inverse);
      var twiddles := if inverse then twiddlesInv else twiddlesFwd;
      if radix == 2 {
        Butterfly2(output, outOff, stride, length, twiddles);
      } else if radix == 4 {
        Butterfly4(output, outOff, stride, length, twiddles, inverse);
      } else {
        ButterflyGeneric(output, outOff, stride, radix, length, twiddles);
      }
      assert PerformSpec(x, c, inOff, stride, tw, inverse) == post;
      SpliceTwice(b, outOff, pre, post);
    }

    /** The leaf of `perform`: output[outOff + j] = input[inOff + j * stride]
        for j < radix, the input index advancing by the stride. */
    method PerformLeaf(input: array<Complex>, inOff: nat, output: array<Complex>, outOff: nat,
                       stride: nat, radix: nat)
      requires input != output && inOff < stride
      requires stride * radix <= input.Length && outOff + radix <= output.Length
      modifies output
      ensures output[..] == Splice(old(output[..]), outOff, Gather(input[..], inOff, stride, radix))
    {
      ghost var b := output[..];
      ghost var g := Gather(input[..], inOff, stride, radix);
      var j := 0;
      var idx := inOff;
      while j < radix
        invariant j <= radix && idx == inOff + j * stride
        invariant output[..] == Splice(b, outOff, g[..j])
      {
        GatherIndex(j, inOff, stride, radix);
        SplicePrefix(b, outOff, g, j);
        output[outOff + j] := input[idx];
        MulSucc(j, stride);
        idx := idx + stride;
        j := j + 1;
      }
      assert g[..radix] == g;
    }

    /** The inner nodes of `perform`: sub-call j writes block j of the span,
        reading the input from inOff + j * stride with stride * radix. */
    method PerformBlocks(input: array<Complex>, inOff: nat, output: array<Complex>, outOff: nat,
                         stride: nat, fi: nat, inverse: bool, ghost c: seq<Factor>, ghost x: seq<Complex>)
      requires input != output && input[..] == x && fi <= factors.Length && factors[fi..] == c
      requires |Table(inverse)| == size && PerformOk(x, c, inOff, stride, Table(inverse))
      requires c[0].length != 1
      requires outOff + c[0].radix * c[0].length <= output.Length
      modifies output
      ensures output[..] == Splice(old(output[..]), outOff,
        SubTransforms(x, c, inOff, stride, Table(inverse), inverse, c[0].radix))
      decreases |c|, 1
    {
      ghost var tw := Table(inverse);
      ghost var b := output[..];
      var radix := factors[fi].radix;
      assert factors[fi] == c[0];
      var j := 0;
      while j < radix
        invariant j <= radix
        invariant output[..] == Splice(b, outOff, SubTransforms(x, c, inOff, stride, tw, inverse, j))
      {
        PerformBlock(input, inOff, output, outOff, stride, fi, inverse, c, x, j, b);
        j := j + 1;
      }
    }

    /** Sub-call j of `perform`: block j of the span, after blocks 0 .. j - 1. */
    method PerformBlock(input: array<Complex>, inOff: nat, output: array<Complex>, outOff: nat,
                        stride: nat, fi: nat, inverse: bool, ghost c: seq<Factor>, ghost x: seq<Complex>,
                        j: nat, ghost b: seq<Complex>)
      requires input != output && input[..] == x && fi <= factors.Length && factors[fi..] == c
      requires |Table(inverse)| == size && PerformOk(x, c, inOff, stride, Table(inverse))
      requires c[0].length != 1 && j < c[0].radix
      requires outOff + c[0].radix * c[0].length <= output.Length == |b|
      requires output[..] == Splice(b, outOff, SubTransforms(x, c, inOff, stride, Table(inverse), inverse, j))
      modifies output
      ensures output[..] == Splice(b, outOff, SubTransforms(x, c, inOff, stride, Table(inverse), inverse, j + 1))
      decreases |c|, 0
    {
      ghost var tw := Table(inverse);
      var radix := factors[fi].radix;
      var length := factors[fi].length;
      assert factors[fi] == c[0];
      ChildOk(x, c, inOff, stride, tw, j);
      assert factors[fi + 1..] == c[1..];
      MulLeft(j + 1, radix, length);
      MulSucc(j, length);
      var childIn, childOut, childStride := inOff + j * stride, outOff + j * length, stride * radix;
      ghost var done := SubTransforms(x, c, inOff, stride, tw, inverse, j);
      ghost var child := PerformSpec(x, c[1..], childIn, childStride, tw, inverse);
      assert |done| == j * length && |child| == length;
      assert SubTransforms(x, c, inOff, stride, tw, inverse, j + 1) == done + child;
      Perform(input, childIn, output, childOut, childStride, fi + 1, inverse, c[1..], x);
      SpliceAppend(b, outOff, done, child);
    }

    /** `butterfly2` on the span [off, off + 2 * length) of the output. */
    method Butterfly2(output: array<Complex>, off: nat, stride: nat, length: nat, tw: seq<Complex>)
      requires off + 2 * length <= output.Length && 1 <= stride && stride * 2 * length == |tw|
      modifies output
      ensures output[..] == Splice(old(output[..]), off,
        Butterfly2Spec(old(output[off..off + 2 * length]), length, stride, tw))
    {
      ghost var b := output[..];
      ghost var s := output[off..off + 2 * length];
      SpliceSame(b, off, 2 * length);
      Butterfly2Ends(s, length, stride, tw);
      var i := 0;
      var w := 0;
      while i < length
        invariant i <= length && w == i * stride
        invariant output[..] == Splice(b, off, Butterfly2Partial(s, length, stride, tw, i))
      {
        Butterfly2Advance(b, off, s, length, stride, tw, i);
        var p := Radix2Pair(output[off + i], output[off + length + i], tw[w]);
        MulSucc(i, stride);
        w := w + stride;
        ghost var before := output[..];
        output[off + length + i] := p.1;
        output[off + i] := p.0;
        assert output[..] == before[off + length + i := p.1][off + i := p.0];
        i := i + 1;
      }
    }

    /** `butterfly4` on the span [off, off + 4 * length) of the output: a
        first pass divides every slot by 4, a second writes each group. */
    method Butterfly4(output: array<Complex>, off: nat, stride: nat, length: nat, tw: seq<Complex>, inverse: bool)
      requires 1 <= length && off + 4 * length <= output.Length && 1 <= stride && stride * 4 * length == |tw|
      modifies output
      ensures output[..] == Splice(old(output[..]), off,
        Butterfly4Spec(old(output[off..off + 4 * length]), length, stride, tw, inverse))
    {
      ghost var b := output[..];
      ghost var s := output[off..off + 4 * length];
      Butterfly4Ends(s, length, stride, tw, inverse);
      Scale4(output, off, length);
      ghost var d := Scaled(s, 4);
      SpliceSlice(b, off, d);
      assert output[off..off + 4 * length] == d;
      Combine4(output, off, stride, length, tw, inverse, d);
      SpliceTwice(b, off, d, Spread4(d, Groups4(d, length, stride, tw, inverse), length));
    }

    /** The first pass of `butterfly4`: the four slots of each group divided
        by 4. */
    method Scale4(output: array<Complex>, off: nat, length: nat)
      requires off + 4 * length <= output.Length
      modifies output
      ensures output[..] == Splice(old(output[..]), off, Scaled(old(output[off..off + 4 * length]), 4))
    {
      ghost var b := output[..];
      ghost var s := output[off..off + 4 * length];
      SpliceSame(b, off, 4 * length);
      Scale4Ends(s, length);
      var u := 0;
      while u < length
        invariant u <= length
        invariant output[..] == Splice(b, off, Scale4Partial(s, length, u))
      {
        Scale4Advance(b, off, s, length, u);
        var x0, x1, x2, x3 := output[off + u], output[off + u + length],
                              output[off + u + 2 * length], output[off + u + 3 * length];
        ghost var v1 := output[..][off + u + length := CDiv(x1, 4)];
        ghost var v2 := v1[off + u + 2 * length := CDiv(x2, 4)];
        ghost var v3 := v2[off + u + 3 * length := CDiv(x3, 4)];
        output[off + u + length] := CDiv(x1, 4);
        assert output[..] == v1;
        output[off + u + 2 * length] := CDiv(x2, 4);
        assert output[..] == v2;
        output[off + u + 3 * length] := CDiv(x3, 4);
        assert output[..] == v3;
        output[off + u] := CDiv(x0, 4);
        assert output[..] == v3[off + u := CDiv(x0, 4)];
        u := u + 1;
      }
    }

    /** The second pass of `butterfly4`: each group of the divided span d
        rotated by its twiddles and combined. */
    method Combine4(output: array<Complex>, off: nat, stride: nat, length: nat, tw: seq<Complex>, inverse: bool,
                    ghost d: seq<Complex>)
      requires off + 4 * length <= output.Length && 1 <= stride && stride * 4 * length == |tw|
      requires |d| == 4 * length && output[off..off + 4 * length] == d
      modifies output
      ensures output[..] == Splice(old(output[..]), off, Spread4(d, Groups4(d, length, stride, tw, inverse), length))
    {
      ghost var b := output[..];
      SpliceSame(b, off, 4 * length);
      ghost var g := Groups4(d, length, stride, tw, inverse);
      Spread4Ends(d, g);
      var i := 0;
      var w1, w2, w3 := 0, 0, 0;
      while i < length
        invariant i <= length && w1 == i * stride && w2 == 2 * w1 && w3 == 3 * w1
        invariant output[..] == Splice(b, off, Spread4(d, g, i))
      {
        Combine4Group(output, off, stride, length, tw, inverse, i, w1, w2, w3, b, d, g);
        MulSucc(i, stride);
        w1, w2, w3 := w1 + stride, w2 + stride * 2, w3 + stride * 3;
        i := i + 1;
      }
    }

    /** One turn of the second pass of `butterfly4`: group i read from its
        four slots, rotated by the twiddles at w1, w2, w3 and written back. */
    method Combine4Group(output: array<Complex>, off: nat, stride: nat, length: nat, tw: seq<Complex>,
                         inverse: bool, i: nat, w1: nat, w2: nat, w3: nat,
                         ghost b: seq<Complex>, ghost d: seq<Complex>, ghost g: seq<Quad>)
      requires off + 4 * length <= output.Length && 1 <= stride && stride * 4 * length == |tw|
      requires |d| == 4 * length && i < length && off + 4 * length <= |b|
      requires g == Groups4(d, length, stride, tw, inverse)
      requires w1 == i * stride && w2 == 2 * w1 && w3 == 3 * w1
      requires output[..] == Splice(b, off, Spread4(d, g, i))
      modifies output
      ensures output[..] == Splice(b, off, Spread4(d, g, i + 1))
    {
      Spread4Advance(b, off, d, g, length, i);
      Groups4At(d, length, stride, tw, inverse, i);
      var x0, x1, x2, x3 := output[off + i], output[off + i + length],
                            output[off + i + 2 * length], output[off + i + 3 * length];
      assert x0 == d[i] && x1 == d[i + length] && x2 == d[i + 2 * length] && x3 == d[i + 3 * length];
      var q := Radix4Group(x0, x1, x2, x3, tw[w1], tw[w2], tw[w3], inverse);
      assert q == g[i];
      ghost var v1 := output[..][off + i := q.o0];
      ghost var v2 := v1[off + i + length := q.o1];
      ghost var v3 := v2[off + i + 2 * length := q.o2];
      output[off + i] := q.o0;
      assert output[..] == v1;
      output[off + i + length] := q.o1;
      assert output[..] == v2;
      output[off + i + 2 * length] := q.o2;
      assert output[..] == v3;
      output[off + i + 3 * length] := q.o3;
      assert output[..] == v3[off + i + 3 * length := q.o3];
    }

    /** `butterflyGeneric` on the span [off, off + radix * length) of the
        output, for any radix: a first pass divides every slot by the radix;
        then each column u is copied to a scratch array of radix pairs and
        each of its slots rewritten as a twiddled sum over the column. */
    method ButterflyGeneric(output: array<Complex>, off: nat, stride: nat, radix: nat, length: nat, tw: seq<Complex>)
      requires 1 <= radix <= Int32Max && 1 <= length && 1 <= stride
      requires off + radix * length <= output.Length && stride * radix * length == |tw| && |tw| == size
      modifies output
      ensures output[..] == Splice(old(output[..]), off,
        GenericSpec(old(output[off..off + radix * length]), radix, length, stride, tw))
    {
      ghost var b0 := output[..];
      ghost var s := output[off..off + radix * length];
      GenericEnds(s, radix, length, stride, tw);
      ScaleGeneric(output, off, radix, length);
      ghost var d := Scaled(s, radix);
      SpliceSlice(b0, off, d);
      CombineGeneric(output, off, stride, radix, length, tw);
      SpliceTwice(b0, off, d, GenericSpec(s, radix, length, stride, tw));
    }

    /** The second pass of `butterflyGeneric`: column u by column u, every
        slot of the column rewritten from a scratch copy of the column. */
    method CombineGeneric(output: array<Complex>, off: nat, stride: nat, radix: nat, length: nat, tw: seq<Complex>)
      requires 1 <= radix <= Int32Max && 1 <= length && 1 <= stride
      requires off + radix * length <= output.Length && stride * radix * length == |tw| && |tw| == size
      modifies output
      ensures output[..] == Splice(old(output[..]), off,
        CombineColumns(old(output[off..off + radix * length]), radix, length, stride, tw, length, 0))
    {
      var scratch := new Complex[radix];
      ghost var b := output[..];
      ghost var d := output[off..off + radix * length];
      SpliceSame(b, off, radix * length);
      CombineColumnsStart(d, radix, length, stride, tw);
      var u := 0;
      while u < length
        invariant u <= length
        invariant output[..] == Splice(b, off, CombineColumns(d, radix, length, stride, tw, u, 0))
      {
        GenericColumn(output, scratch, off, stride, radix, length, tw, u, b, d);
        CombineColumnsRow(d, radix, length, stride, tw, u);
        u := u + 1;
      }
    }

    /** The first pass of `butterflyGeneric`: column by column, slot
        k = u + q1 * length divided by the radix. */
    method ScaleGeneric(output: array<Complex>, off: nat, radix: nat, length: nat)
      requires 1 <= radix <= Int32Max && 1 <= length && off + radix * length <= output.Length
      modifies output
      ensures output[..] == Splice(old(output[..]), off, Scaled(old(output[off..off + radix * length]), radix))
    {
      ghost var b := output[..];
      ghost var s := output[off..off + radix * length];
      SpliceSame(b, off, radix * length);
      ScaleColumnsEnds(s, radix, length);
      var u := 0;
      while u < length
        invariant u <= length
        invariant output[..] == Splice(b, off, ScaleColumns(s, radix, length, u, 0))
      {
        var k := u;
        var q1 := 0;
        while q1 < radix
          invariant q1 <= radix && k == u + q1 * length
          invariant output[..] == Splice(b, off, ScaleColumns(s, radix, length, u, q1))
        {
          ScaleColumnsAdvance(b, off, s, radix, length, u, q1);
          ghost var v := output[..][off + k := CDiv(output[off + k], radix)];
          output[off + k] := CDiv(output[off + k], radix);
          assert output[..] == v;
          MulSucc(q1, length);
          k := k + length;
          q1 := q1 + 1;
        }
        ScaleColumnsRow(s, radix, length, u);
        u := u + 1;
      }
    }

    /** Column u of the second pass of `butterflyGeneric`: the column copied
        into the scratch array, then each of its slots rewritten. */
    method GenericColumn(output: array<Complex>, scratch: array<Complex>, off: nat, stride: nat, radix: nat,
                         length: nat, tw: seq<Complex>, u: nat, ghost b: seq<Complex>, ghost d: seq<Complex>)
      requires 1 <= radix && 1 <= length && 1 <= stride && u < length
      requires scratch != output && scratch.Length == radix
      requires |d| == radix * length && stride * radix * length == |tw| && |tw| == size
      requires off + |d| <= output.Length && |b| == output.Length
      requires output[..] == Splice(b, off, CombineColumns(d, radix, length, stride, tw, u, 0))
      modifies output, scratch
      ensures output[..] == Splice(b, off, CombineColumns(d, radix, length, stride, tw, u, radix))
    {
      FillScratch(output, scratch, off, stride, radix, length, tw, u, b, d);
      WriteColumn(output, scratch, off, stride, radix, length, tw, u, b, d);
    }

    /** `scratch[q1] = Fout[u + q1 * length]` for q1 < radix: column u, which
        no earlier column has touched. */
    method FillScratch(output: array<Complex>, scratch: array<Complex>, off: nat, stride: nat, radix: nat,
                       length: nat, tw: seq<Complex>, u: nat, ghost b: seq<Complex>, ghost d: seq<Complex>)
      requires 1 <= radix && 1 <= length && 1 <= stride && u < length
      requires scratch != output && scratch.Length == radix
      requires |d| == radix * length && stride * radix * length == |tw|
      requires off + |d| <= output.Length && |b| == output.Length
      requires output[..] == Splice(b, off, CombineColumns(d, radix, length, stride, tw, u, 0))
      modifies scratch
      ensures scratch[..] == Column(d, length, radix, u)
    {
      ghost var column := Column(d, length, radix, u);
      var k := u;
      var q1 := 0;
      while q1 < radix
        invariant q1 <= radix && k == u + q1 * length
        invariant scratch[..q1] == column[..q1]
      {
        CombineColumnsRead(b, off, d, radix, length, stride, tw, u, q1);
        scratch[q1] := output[off + k];
        MulSucc(q1, length);
        k := k + length;
        q1 := q1 + 1;
      }
      assert scratch[..] == scratch[..radix];
    }

    /** Each slot k = u + q1 * length of column u rewritten as the twiddled
        sum over the scratch copy of the column. */
    method WriteColumn(output: array<Complex>, scratch: array<Complex>, off: nat, stride: nat, radix: nat,
                       length: nat, tw: seq<Complex>, u: nat, ghost b: seq<Complex>, ghost d: seq<Complex>)
      requires 1 <= radix && 1 <= length && 1 <= stride && u < length
      requires |d| == radix * length && stride * radix * length == |tw| && |tw| == size
      requires scratch != output && scratch.Length == radix && scratch[..] == Column(d, length, radix, u)
      requires off + |d| <= output.Length && |b| == output.Length
      requires output[..] == Splice(b, off, CombineColumns(d, radix, length, stride, tw, u, 0))
      modifies output
      ensures output[..] == Splice(b, off, CombineColumns(d, radix, length, stride, tw, u, radix))
    {
      var k := u;
      var q1 := 0;
      while q1 < radix
        invariant q1 <= radix && k == u + q1 * length
        invariant output[..] == Splice(b, off, CombineColumns(d, radix, length, stride, tw, u, q1))
      {
        CombineColumnsAdvance(b, off, d, radix, length, stride, tw, u, q1);
        GenericSlotWrite(output, scratch, off, stride, radix, k, tw);
        MulSucc(q1, length);
        k := k + length;
        q1 := q1 + 1;
      }
    }

    /** Slot k of the second pass of `butterflyGeneric`: scratch[0] plus, for
        q = 1 .. radix - 1, the twiddled scratch[q], the twiddle index
        advancing by stride * k and wrapping once past the size. */
    method GenericSlotWrite(output: array<Complex>, scratch: array<Complex>, off: nat, stride: nat, radix: nat,
                            k: nat, tw: seq<Complex>)
      requires scratch != output && scratch.Length == radix && 1 <= radix
      requires off + k < output.Length && stride * k < |tw| && |tw| == size
      modifies output
      ensures output[..] == old(output[..])[off + k := Accumulate(scratch[..], tw, stride * k, radix)]
    {
      ghost var b := output[..];
      output[off + k] := scratch[0];
      var twIndex := 0;
      var q := 1;
      while q < radix
        invariant 1 <= q <= radix && twIndex == TwIndex(stride * k, size, q - 1)
        invariant output[..] == b[off + k := Accumulate(scratch[..], tw, stride * k, q)]
      {
        twIndex := twIndex + stride * k;
        if twIndex >= size {
          twIndex := twIndex - size;
        }
        output[off + k] := output[off + k].Add(CMul(scratch[q], tw[twIndex]));
        q := q + 1;
      }
    }
  }
}
