/** The combine kernels of the complex transform (`butterfly2`, `butterfly4`,
    `butterflyGeneric`), integer branches, as pure functions of the span of
    radix * length slots they rewrite in place. Slot j of a span holds
    element j of the span before the call; the twiddle table holds `size`
    pairs and `stride * radix * length == size`. */
module Butterflies {

  import opened Arith
  import opened FixedPoint

  /** The integer-mode `cdiv` pre-pass: every slot of a span divided by d. */
  function Scaled(s: seq<Complex>, d: int): (r: seq<Complex>)
    requires d != 0 && IsInt32(d)
    ensures |r| == |s|
    ensures forall j :: 0 <= j < |r| ==> IsInt32Complex(r[j])
  {
    seq(|s|, j requires 0 <= j < |s| => CDiv(s[j], d))
  }

  /** Multiplication by the imaginary unit, written independently of `cmul`. */
  function TimesI(c: Complex): Complex
  {
    Complex(-c.im, c.re)
  }

  //==========================================================================
  // Spans of a buffer

  /** The buffer b with the span starting at off replaced by v. */
  function Splice<T>(b: seq<T>, off: nat, v: seq<T>): (r: seq<T>)
    requires off + |v| <= |b|
    ensures |r| == |b|
  {
    b[..off] + v + b[off + |v|..]
  }

  /** Inside the span a splice reads v, outside it reads b. */
  lemma SpliceAt<T>(b: seq<T>, off: nat, v: seq<T>, j: nat)
    requires off + |v| <= |b| && j < |b|
    ensures Splice(b, off, v)[j] == if off <= j < off + |v| then v[j - off] else b[j]
  {
  }

  /** Writing one slot inside a spliced span writes that slot of the span. */
  lemma SpliceUpdate<T>(b: seq<T>, off: nat, v: seq<T>, k: nat, x: T)
    requires off + |v| <= |b| && k < |v|
    ensures Splice(b, off, v)[off + k := x] == Splice(b, off, v[k := x])
  {
  }

  /** Splicing in what the span already holds changes nothing. */
  lemma SpliceSame<T>(b: seq<T>, off: nat, n: nat)
    requires off + n <= |b|
    ensures Splice(b, off, b[off..off + n]) == b
  {
  }

  /** The span of a splice reads back what was spliced in. */
  lemma SpliceSlice<T>(b: seq<T>, off: nat, v: seq<T>)
    requires off + |v| <= |b|
    ensures Splice(b, off, v)[off..off + |v|] == v
  {
  }

  /** A slice inside the left operand of a concatenation. */
  lemma SliceLeft<T>(a: seq<T>, b: seq<T>, lo: nat, hi: nat)
    requires lo <= hi <= |a|
    ensures (a + b)[lo..hi] == a[lo..hi]
  {
  }

  /** The right operand of a concatenation, sliced back out. */
  lemma SliceRight<T>(a: seq<T>, b: seq<T>)
    ensures (a + b)[|a|..|a| + |b|] == b
  {
  }

  /** Block i of j blocks of n slots, the last of them appended: an earlier
      block comes from the first j - 1, block j - 1 is the appended one. */
  lemma BlockOfConcat<T>(prev: seq<T>, last: seq<T>, n: nat, i: nat, j: nat)
    requires i < j && |prev| == (j - 1) * n && |last| == n
    ensures (i + 1) * n <= j * n
    ensures i < j - 1 ==> (i + 1) * n <= (j - 1) * n
    ensures i < j - 1 ==> (prev + last)[i * n..(i + 1) * n] == prev[i * n..(i + 1) * n]
    ensures i == j - 1 ==> (prev + last)[i * n..(i + 1) * n] == last
  {
    MulLeft(i + 1, j, n);
    MulSucc(i, n);
    if i < j - 1 {
      MulLeft(i + 1, j - 1, n);
      SliceLeft(prev, last, i * n, (i + 1) * n);
    } else {
      SliceRight(prev, last);
    }
  }

  /** A second splice over the same span replaces the first. */
  lemma SpliceTwice<T>(b: seq<T>, off: nat, v: seq<T>, w: seq<T>)
    requires off + |v| <= |b| && |w| == |v|
    ensures Splice(Splice(b, off, v), off, w) == Splice(b, off, w)
  {
  }

  /** Splicing w right after v is splicing v + w. */
  lemma SpliceAppend<T>(b: seq<T>, off: nat, v: seq<T>, w: seq<T>)
    requires off + |v| + |w| <= |b|
    ensures Splice(Splice(b, off, v), off + |v|, w) == Splice(b, off, v + w)
  {
  }

  /** Writing element j of v after its first j elements were spliced in. */
  lemma SplicePrefix<T>(b: seq<T>, off: nat, v: seq<T>, j: nat)
    requires off + |v| <= |b| && j < |v|
    ensures Splice(b, off, v[..j])[off + j := v[j]] == Splice(b, off, v[..j + 1])
  {
    assert v[..j + 1] == v[..j] + [v[j]];
  }

  //==========================================================================
  // Twiddle offsets of the radix-2 and radix-4 kernels

  /** The pointer walk `twiddles += stride` (and `tw2 += 2 * stride`,
      `tw3 += 3 * stride`) reads offsets i * stride, 2 * (i * stride) and
      3 * (i * stride) for i < length: all of them below the table size,
      for radix 2 and for radix 4. */
  lemma TwiddleOffsets(i: nat, stride: nat, radix: nat, length: nat)
    requires i < length && 1 <= stride && 2 <= radix
    ensures 0 <= i * stride < stride * length
    ensures radix == 4 ==> 3 * (i * stride) < stride * radix * length
    ensures radix == 2 ==> i * stride < stride * radix * length
  {
    MulLeft(i + 1, length, stride);
    assert stride * radix * length == radix * (stride * length);
  }

  //==========================================================================
  // Radix 2

  /** One pair of the radix-2 kernel: both operands halved by `cdiv`, the
      second rotated by the twiddle, then their sum and difference. The sum
      and the difference of the two outputs give back twice the halved
      first operand and twice the rotated second. */
  function Radix2Pair(x0: Complex, x1: Complex, w: Complex): (r: (Complex, Complex))
    ensures var a := CDiv(x0, 2);
      r.0.Add(r.1) == Complex(2 * a.re, 2 * a.im)
    ensures var t := CMul(CDiv(x1, 2), w);
      r.0.Sub(r.1) == Complex(2 * t.re, 2 * t.im)
  {
    var a := CDiv(x0, 2);
    var t := CMul(CDiv(x1, 2), w);
    (a.Add(t), a.Sub(t))
  }

  /** Pair i of a span of 2 * length slots: (s[i], s[i + length]) with the
      twiddle at offset i * stride. */
  function Pair2(s: seq<Complex>, length: nat, stride: nat, tw: seq<Complex>, i: nat): (Complex, Complex)
    requires |s| == 2 * length && i < length && 1 <= stride && stride * 2 * length == |tw|
  {
    TwiddleOffsets(i, stride, 2, length);
    Radix2Pair(s[i], s[length + i], tw[i * stride])
  }

  /** `butterfly2` on a span of 2 * length slots: slot i becomes a + t and
      slot i + length becomes a - t, for the pair (s[i], s[i + length]) and
      the twiddle at offset i * stride. */
  function Butterfly2Spec(s: seq<Complex>, length: nat, stride: nat, tw: seq<Complex>): (r: seq<Complex>)
    requires |s| == 2 * length && 1 <= stride && stride * 2 * length == |tw|
    ensures |r| == |s|
  {
    seq(2 * length, j requires 0 <= j < 2 * length =>
      if j < length then Pair2(s, length, stride, tw, j).0
      else Pair2(s, length, stride, tw, j - length).1)
  }

  /** The span after the first i pairs of `butterfly2` have been written. */
  function Butterfly2Partial(s: seq<Complex>, length: nat, stride: nat, tw: seq<Complex>, i: nat): (r: seq<Complex>)
    requires |s| == 2 * length && i <= length && 1 <= stride && stride * 2 * length == |tw|
    ensures |r| == |s|
  {
    seq(2 * length, j requires 0 <= j < 2 * length =>
      if j < i then Pair2(s, length, stride, tw, j).0
      else if length <= j < length + i then Pair2(s, length, stride, tw, j - length).1
      else s[j])
  }

  /** One turn of the `butterfly2` loop on a buffer b whose span at off
      holds the first i pairs written: it reads s[i] and s[length + i],
      writes pair i and nothing else. */
  lemma Butterfly2Advance(b: seq<Complex>, off: nat, s: seq<Complex>, length: nat, stride: nat, tw: seq<Complex>, i: nat)
    requires |s| == 2 * length && i < length && 1 <= stride && stride * 2 * length == |tw|
    requires off + 2 * length <= |b|
    ensures i * stride < |tw|
    ensures var v := Splice(b, off, Butterfly2Partial(s, length, stride, tw, i));
      && v[off + i] == s[i] && v[off + length + i] == s[length + i]
      && var p := Radix2Pair(s[i], s[length + i], tw[i * stride]);
         v[off + length + i := p.1][off + i := p.0]
           == Splice(b, off, Butterfly2Partial(s, length, stride, tw, i + 1))
  {
    TwiddleOffsets(i, stride, 2, length);
    var v := Butterfly2Partial(s, length, stride, tw, i);
    var p := Radix2Pair(s[i], s[length + i], tw[i * stride]);
    assert Butterfly2Partial(s, length, stride, tw, i + 1) == v[length + i := p.1][i := p.0];
    SpliceUpdate(b, off, v, length + i, p.1);
    SpliceUpdate(b, off, v[length + i := p.1], i, p.0);
  }

  lemma Butterfly2Ends(s: seq<Complex>, length: nat, stride: nat, tw: seq<Complex>)
    requires |s| == 2 * length && 1 <= stride && stride * 2 * length == |tw|
    ensures Butterfly2Partial(s, length, stride, tw, 0) == s
    ensures Butterfly2Partial(s, length, stride, tw, length) == Butterfly2Spec(s, length, stride, tw)
  {
  }

  //==========================================================================
  // Radix 4

  /** The four outputs of one radix-4 group. */
  datatype Quad = Quad(o0: Complex, o1: Complex, o2: Complex, o3: Complex)

  /** One group of the radix-4 kernel on operands already divided by 4 and
      twiddles w1, w2, w3. Outputs 0 and 2 are (a0 + s1) +- s3; in the
      forward direction output 1 is s5 - i * s4 and output 3 is s5 + i * s4,
      the inverse direction swapping the two. Whatever the twiddles, the four
      outputs add up to 4 * a0. */
  function Radix4Group(a0: Complex, a1: Complex, a2: Complex, a3: Complex,
                       w1: Complex, w2: Complex, w3: Complex, inverse: bool): (r: Quad)
    ensures var s1 := CMul(a2, w2); var s3 := CMul(a1, w1).Add(CMul(a3, w3));
      r.o0 == a0.Add(s1).Add(s3) && r.o2 == a0.Add(s1).Sub(s3)
    ensures var s4 := CMul(a1, w1).Sub(CMul(a3, w3)); var s5 := a0.Sub(CMul(a2, w2));
      && r.o1 == (if inverse then s5.Add(TimesI(s4)) else s5.Sub(TimesI(s4)))
      && r.o3 == (if inverse then s5.Sub(TimesI(s4)) else s5.Add(TimesI(s4)))
    ensures r.o0.Add(r.o1).Add(r.o2).Add(r.o3) == Complex(4 * a0.re, 4 * a0.im)
  {
    var s0 := CMul(a1, w1);
    var s1 := CMul(a2, w2);
    var s2 := CMul(a3, w3);
    var s3 := s0.Add(s2);
    var s4 := s0.Sub(s2);
    var s5 := a0.Sub(s1);
    var e := a0.Add(s1);
    if inverse then
      Quad(e.Add(s3), Complex(s5.re - s4.im, s5.im + s4.re), e.Sub(s3), Complex(s5.re + s4.im, s5.im - s4.re))
    else
      Quad(e.Add(s3), Complex(s5.re + s4.im, s5.im - s4.re), e.Sub(s3), Complex(s5.re - s4.im, s5.im + s4.re))
  }

  /** Group i of a span already divided by 4: the slots i, i + length,
      i + 2 * length, i + 3 * length and the twiddles at offsets i * stride,
      2 * (i * stride) and 3 * (i * stride). */
  function Group4(d: seq<Complex>, length: nat, stride: nat, tw: seq<Complex>, inverse: bool, i: nat): Quad
    requires |d| == 4 * length && i < length && 1 <= stride && stride * 4 * length == |tw|
  {
    TwiddleOffsets(i, stride, 4, length);
    var o := i * stride;
    Radix4Group(d[i], d[i + length], d[i + 2 * length], d[i + 3 * length],
                tw[o], tw[2 * o], tw[3 * o], inverse)
  }

  /** The group of slot j of a span of 4 * length slots. */
  function GroupOf(j: nat, length: nat): (g: nat)
    requires j < 4 * length
    ensures g < length
  {
    if j < length then j
    else if j < 2 * length then j - length
    else if j < 3 * length then j - 2 * length
    else j - 3 * length
  }

  /** The output of a group that lands in slot j: output 0 in the first
      quarter of the span, output 1 in the second, and so on. */
  function Pick(q: Quad, j: nat, length: nat): Complex
  {
    if j < length then q.o0
    else if j < 2 * length then q.o1
    else if j < 3 * length then q.o2
    else q.o3
  }

  /** `butterfly4` on a span of 4 * length slots: every slot divided by 4,
      then group i writes its outputs 0..3 to slots i, i + length,
      i + 2 * length and i + 3 * length. */
  function Butterfly4Spec(s: seq<Complex>, length: nat, stride: nat, tw: seq<Complex>, inverse: bool): (r: seq<Complex>)
    requires |s| == 4 * length && 1 <= stride && stride * 4 * length == |tw|
    ensures |r| == |s|
  {
    var d := Scaled(s, 4);
    seq(4 * length, j requires 0 <= j < 4 * length =>
      Pick(Group4(d, length, stride, tw, inverse, GroupOf(j, length)), j, length))
  }

  /** The span after the first loop of `butterfly4` has divided the slots of
      groups 0 .. u - 1 by 4. */
  function Scale4Partial(s: seq<Complex>, length: nat, u: nat): (r: seq<Complex>)
    requires |s| == 4 * length && u <= length
    ensures |r| == |s|
  {
    seq(4 * length, j requires 0 <= j < 4 * length =>
      if GroupOf(j, length) < u then CDiv(s[j], 4) else s[j])
  }

  /** Four writes inside a spliced span write those slots of the span. */
  lemma SpliceUpdate4<T>(b: seq<T>, off: nat, v: seq<T>, k1: nat, x1: T, k2: nat, x2: T, k3: nat, x3: T, k4: nat, x4: T)
    requires off + |v| <= |b| && k1 < |v| && k2 < |v| && k3 < |v| && k4 < |v|
    ensures Splice(b, off, v)[off + k1 := x1][off + k2 := x2][off + k3 := x3][off + k4 := x4]
      == Splice(b, off, v[k1 := x1][k2 := x2][k3 := x3][k4 := x4])
  {
    SpliceUpdate(b, off, v, k1, x1);
    SpliceUpdate(b, off, v[k1 := x1], k2, x2);
    SpliceUpdate(b, off, v[k1 := x1][k2 := x2], k3, x3);
    SpliceUpdate(b, off, v[k1 := x1][k2 := x2][k3 := x3], k4, x4);
  }

  /** The slots of group u are u, u + length, u + 2 * length, u + 3 * length. */
  lemma GroupOfIs(j: nat, length: nat, u: nat)
    requires j < 4 * length && u < length
    ensures GroupOf(j, length) == u <==>
      (j == u || j == u + length || j == u + 2 * length || j == u + 3 * length)
  {
  }

  /** Group u of the first `butterfly4` loop rewrites its four slots. */
  lemma Scale4Step(s: seq<Complex>, length: nat, u: nat)
    requires |s| == 4 * length && u < length
    ensures var v := Scale4Partial(s, length, u);
      && v[u + length] == s[u + length] && v[u + 2 * length] == s[u + 2 * length]
      && v[u + 3 * length] == s[u + 3 * length] && v[u] == s[u]
      && Scale4Partial(s, length, u + 1)
        == v[u + length := CDiv(s[u + length], 4)][u + 2 * length := CDiv(s[u + 2 * length], 4)]
            [u + 3 * length := CDiv(s[u + 3 * length], 4)][u := CDiv(s[u], 4)]
  {
    var v := Scale4Partial(s, length, u);
    var w := v[u + length := CDiv(s[u + length], 4)][u + 2 * length := CDiv(s[u + 2 * length], 4)]
               [u + 3 * length := CDiv(s[u + 3 * length], 4)][u := CDiv(s[u], 4)];
    forall j | 0 <= j < 4 * length
      ensures Scale4Partial(s, length, u + 1)[j] == w[j]
    {
      GroupOfIs(j, length, u);
    }
  }

  /** One turn of the first `butterfly4` loop: it reads the four slots of
      group u, still undivided, and writes them divided by 4. */
  lemma Scale4Advance(b: seq<Complex>, off: nat, s: seq<Complex>, length: nat, u: nat)
    requires |s| == 4 * length && u < length && off + 4 * length <= |b|
    ensures var v := Splice(b, off, Scale4Partial(s, length, u));
      && v[off + u + length] == s[u + length]
      && v[off + u + 2 * length] == s[u + 2 * length]
      && v[off + u + 3 * length] == s[u + 3 * length]
      && v[off + u] == s[u]
      && v[off + u + length := CDiv(s[u + length], 4)]
          [off + u + 2 * length := CDiv(s[u + 2 * length], 4)]
          [off + u + 3 * length := CDiv(s[u + 3 * length], 4)]
          [off + u := CDiv(s[u], 4)]
        == Splice(b, off, Scale4Partial(s, length, u + 1))
  {
    Scale4Step(s, length, u);
    SpliceUpdate4(b, off, Scale4Partial(s, length, u),
      u + length, CDiv(s[u + length], 4), u + 2 * length, CDiv(s[u + 2 * length], 4),
      u + 3 * length, CDiv(s[u + 3 * length], 4), u, CDiv(s[u], 4));
  }

  /** The outputs of all groups of a divided span. */
  function Groups4(d: seq<Complex>, length: nat, stride: nat, tw: seq<Complex>, inverse: bool): (g: seq<Quad>)
    requires |d| == 4 * length && 1 <= stride && stride * 4 * length == |tw|
    ensures |g| == length
  {
    seq(length, i requires 0 <= i < length => Group4(d, length, stride, tw, inverse, i))
  }

  /** The span d after the outputs of groups 0 .. i - 1 of g have been
      written to their slots, as the second loop of `butterfly4` does. */
  function Spread4(d: seq<Complex>, g: seq<Quad>, i: nat): (r: seq<Complex>)
    requires |d| == 4 * |g| && i <= |g|
    ensures |r| == |d|
  {
    seq(|d|, j requires 0 <= j < |d| =>
      if GroupOf(j, |g|) < i then Pick(g[GroupOf(j, |g|)], j, |g|) else d[j])
  }

  /** Writing group i rewrites its four slots and nothing else. */
  lemma Spread4Step(d: seq<Complex>, g: seq<Quad>, i: nat)
    requires |d| == 4 * |g| && i < |g|
    ensures var v := Spread4(d, g, i); var n := |g|;
      && v[i] == d[i] && v[i + n] == d[i + n]
      && v[i + 2 * n] == d[i + 2 * n] && v[i + 3 * n] == d[i + 3 * n]
      && Spread4(d, g, i + 1) == v[i := g[i].o0][i + n := g[i].o1][i + 2 * n := g[i].o2][i + 3 * n := g[i].o3]
  {
    var n := |g|;
    var v := Spread4(d, g, i);
    var w := v[i := g[i].o0][i + n := g[i].o1][i + 2 * n := g[i].o2][i + 3 * n := g[i].o3];
    forall j | 0 <= j < 4 * n
      ensures Spread4(d, g, i + 1)[j] == w[j]
    {
      GroupOfIs(j, n, i);
    }
  }

  /** One turn of the second `butterfly4` loop on a buffer: it reads the four
      slots of group i, still as divided, and writes the group's outputs. */
  lemma Spread4Advance(b: seq<Complex>, off: nat, d: seq<Complex>, g: seq<Quad>, length: nat, i: nat)
    requires |g| == length && |d| == 4 * length && i < length && off + |d| <= |b|
    ensures var v := Splice(b, off, Spread4(d, g, i));
      && v[off + i] == d[i]
      && v[off + i + length] == d[i + length]
      && v[off + i + 2 * length] == d[i + 2 * length]
      && v[off + i + 3 * length] == d[i + 3 * length]
      && v[off + i := g[i].o0][off + i + length := g[i].o1][off + i + 2 * length := g[i].o2]
          [off + i + 3 * length := g[i].o3]
           == Splice(b, off, Spread4(d, g, i + 1))
  {
    Spread4Step(d, g, i);
    SpliceUpdate4(b, off, Spread4(d, g, i),
      i, g[i].o0, i + length, g[i].o1, i + 2 * length, g[i].o2, i + 3 * length, g[i].o3);
  }

  /** Group i reads the slots i + q * length and the twiddles at offsets
      i * stride, 2 * (i * stride) and 3 * (i * stride), all in range. */
  lemma Groups4At(d: seq<Complex>, length: nat, stride: nat, tw: seq<Complex>, inverse: bool, i: nat)
    requires |d| == 4 * length && i < length && 1 <= stride && stride * 4 * length == |tw|
    ensures 3 * (i * stride) < |tw|
    ensures Groups4(d, length, stride, tw, inverse)[i]
      == Radix4Group(d[i], d[i + length], d[i + 2 * length], d[i + 3 * length],
                     tw[i * stride], tw[2 * (i * stride)], tw[3 * (i * stride)], inverse)
  {
    TwiddleOffsets(i, stride, 4, length);
  }

  lemma Scale4Ends(s: seq<Complex>, length: nat)
    requires |s| == 4 * length
    ensures Scale4Partial(s, length, 0) == s
    ensures Scale4Partial(s, length, length) == Scaled(s, 4)
  {
  }

  lemma Spread4Ends(d: seq<Complex>, g: seq<Quad>)
    requires |d| == 4 * |g|
    ensures Spread4(d, g, 0) == d
  {
  }

  /** Dividing every slot and then writing every group is `butterfly4`. */
  lemma Butterfly4Ends(s: seq<Complex>, length: nat, stride: nat, tw: seq<Complex>, inverse: bool)
    requires |s| == 4 * length && 1 <= stride && stride * 4 * length == |tw|
    ensures var d := Scaled(s, 4);
      Spread4(d, Groups4(d, length, stride, tw, inverse), length) == Butterfly4Spec(s, length, stride, tw, inverse)
  {
  }

  /** Forward and inverse radix-4 groups differ only in that outputs 1 and 3
      trade places. */
  lemma Radix4Direction(a0: Complex, a1: Complex, a2: Complex, a3: Complex,
                        w1: Complex, w2: Complex, w3: Complex)
    ensures var f := Radix4Group(a0, a1, a2, a3, w1, w2, w3, false);
      Radix4Group(a0, a1, a2, a3, w1, w2, w3, true) == Quad(f.o0, f.o3, f.o2, f.o1)
  {
  }

  //==========================================================================
  // Generic radix

  /** `twIndex` after q turns of the innermost loop of `butterflyGeneric`:
      each turn adds the step stride * k and subtracts the size once if the
      sum reached it. */
  function TwIndex(step: nat, size: nat, q: nat): (r: nat)
    requires step < size
    ensures r < size
  {
    if q == 0 then 0
    else
      var t := TwIndex(step, size, q - 1) + step;
      if t >= size then t - size else t
  }

  /** One subtraction is enough: twIndex after q turns is (q * step) mod size. */
  lemma {:induction false} TwIndexIsMod(step: nat, size: nat, q: nat)
    requires step < size
    ensures TwIndex(step, size, q) == (q * step) % size
  {
    if q == 0 {
      DivUnique(0, size, 0, 0);
    } else {
      TwIndexIsMod(step, size, q - 1);
      ModAddOnce((q - 1) * step, step, size);
      assert (q - 1) * step + step == q * step;
    }
  }

  /** Column u of a span of radix * length slots: the slots u, u + length,
      ..., u + (radix - 1) * length that one group of the generic kernel
      copies into its scratch array. */
  function Column(d: seq<Complex>, length: nat, radix: nat, u: nat): (c: seq<Complex>)
    requires u < length && |d| == radix * length
    ensures |c| == radix
  {
    seq(radix, q requires 0 <= q < radix => ColumnIndex(u, q, length, radix); d[u + q * length])
  }

  lemma ColumnIndex(u: nat, q: nat, length: nat, radix: nat)
    requires u < length && q < radix
    ensures u + q * length < radix * length
  {
    MulLeft(q + 1, radix, length);
  }

  /** The innermost loop over the n first terms: scratch[0] plus
      cmul(scratch[q], tw[twIndex]) for q = 1 .. n - 1. */
  function Accumulate(sc: seq<Complex>, tw: seq<Complex>, step: nat, n: nat): Complex
    requires 1 <= n <= |sc| && step < |tw|
  {
    if n == 1 then sc[0]
    else Accumulate(sc, tw, step, n - 1).Add(CMul(sc[n - 1], tw[TwIndex(step, |tw|, n - 1)]))
  }

  lemma StepBound(k: nat, stride: nat, radix: nat, length: nat)
    requires k < radix * length && 1 <= stride
    ensures stride * k < stride * radix * length
  {
    MulLeft(k + 1, radix * length, stride);
  }

  /** Slot k of the generic kernel's output: the sum over column
      Rem(k, length) of the divided span d, term q using the twiddle index
      reached after q steps of stride * k. */
  function GenericValue(d: seq<Complex>, radix: nat, length: nat, stride: nat, tw: seq<Complex>, k: nat): Complex
    requires 1 <= radix && 1 <= length && 1 <= stride
    requires |d| == radix * length && stride * radix * length == |tw| && k < radix * length
  {
    StepBound(k, stride, radix, length);
    Accumulate(Column(d, length, radix, Rem(k, length)), tw, stride * k, radix)
  }

  /** `butterflyGeneric` on a span of radix * length slots: every slot divided
      by the radix, then slot k = u + q1 * length becomes the sum over its
      column u, with twiddle index (q * stride * k) mod size for term q. */
  function GenericSpec(s: seq<Complex>, radix: nat, length: nat, stride: nat, tw: seq<Complex>): (r: seq<Complex>)
    requires 1 <= radix <= Int32Max && 1 <= length && 1 <= stride
    requires |s| == radix * length && stride * radix * length == |tw|
    ensures |r| == |s|
  {
    var d := Scaled(s, radix);
    seq(radix * length, k requires 0 <= k < radix * length => GenericValue(d, radix, length, stride, tw, k))
  }

  /** Slot u + q * length is row q of column u. */
  lemma ColumnSlot(u: nat, q: nat, length: nat)
    requires u < length
    ensures Rem(u + q * length, length) == u && Quot(u + q * length, length) == q
  {
    RemIsMod(u + q * length, length);
    DivUnique(u + q * length, length, q, u);
  }

  /** A span of radix * length slots has radix rows. */
  lemma RowBound(k: nat, length: nat, radix: nat)
    requires 1 <= length && k < radix * length
    ensures Quot(k, length) < radix
  {
    QuotRem(k, length);
    if Quot(k, length) >= radix {
      MulLeft(radix, Quot(k, length), length);
    }
  }

  /** The slots the generic kernel has finished at row q1 of column u: every
      slot of the columns before u and the first q1 rows of column u. */
  predicate Done(k: nat, length: nat, u: nat, q1: nat)
    requires 1 <= length
  {
    Rem(k, length) < u || (Rem(k, length) == u && Quot(k, length) < q1)
  }

  /** Finishing row q1 of column u finishes slot u + q1 * length alone. */
  lemma DoneStep(k: nat, length: nat, u: nat, q1: nat)
    requires u < length
    ensures Done(k, length, u, q1 + 1) <==> Done(k, length, u, q1) || k == u + q1 * length
  {
    QuotRem(k, length);
    ColumnSlot(u, q1, length);
  }

  /** After the last row of column u, column u + 1 starts. */
  lemma DoneRow(k: nat, length: nat, radix: nat, u: nat)
    requires 1 <= length && k < radix * length
    ensures Done(k, length, u, radix) <==> Done(k, length, u + 1, 0)
  {
    RowBound(k, length, radix);
  }

  /** The span during the first pass of `butterflyGeneric`: the finished
      slots divided by the radix. */
  function ScaleColumns(s: seq<Complex>, radix: nat, length: nat, u: nat, q1: nat): (r: seq<Complex>)
    requires 1 <= radix <= Int32Max && 1 <= length && |s| == radix * length
    ensures |r| == |s|
  {
    seq(|s|, k requires 0 <= k < |s| => if Done(k, length, u, q1) then CDiv(s[k], radix) else s[k])
  }

  /** One turn of the first pass: slot k = u + q1 * length read undivided and
      written divided. */
  lemma ScaleColumnsAdvance(b: seq<Complex>, off: nat, s: seq<Complex>, radix: nat, length: nat, u: nat, q1: nat)
    requires 1 <= radix <= Int32Max && 1 <= length && |s| == radix * length
    requires u < length && q1 < radix && off + |s| <= |b|
    ensures u + q1 * length < |s|
    ensures var k := u + q1 * length; var v := Splice(b, off, ScaleColumns(s, radix, length, u, q1));
      && v[off + k] == s[k]
      && v[off + k := CDiv(s[k], radix)] == Splice(b, off, ScaleColumns(s, radix, length, u, q1 + 1))
  {
    var k := u + q1 * length;
    ColumnIndex(u, q1, length, radix);
    ColumnSlot(u, q1, length);
    var v := ScaleColumns(s, radix, length, u, q1);
    var w := ScaleColumns(s, radix, length, u, q1 + 1);
    forall j | 0 <= j < |s|
      ensures w[j] == v[k := CDiv(s[k], radix)][j]
    {
      DoneStep(j, length, u, q1);
    }
    SpliceUpdate(b, off, v, k, CDiv(s[k], radix));
  }

  lemma ScaleColumnsRow(s: seq<Complex>, radix: nat, length: nat, u: nat)
    requires 1 <= radix <= Int32Max && 1 <= length && |s| == radix * length
    ensures ScaleColumns(s, radix, length, u, radix) == ScaleColumns(s, radix, length, u + 1, 0)
  {
    forall k | 0 <= k < |s|
      ensures ScaleColumns(s, radix, length, u, radix)[k] == ScaleColumns(s, radix, length, u + 1, 0)[k]
    {
      DoneRow(k, length, radix, u);
    }
  }

  lemma ScaleColumnsEnds(s: seq<Complex>, radix: nat, length: nat)
    requires 1 <= radix <= Int32Max && 1 <= length && |s| == radix * length
    ensures ScaleColumns(s, radix, length, 0, 0) == s
    ensures ScaleColumns(s, radix, length, length, 0) == Scaled(s, radix)
  {
  }

  /** The span during the second pass of `butterflyGeneric`: the finished
      slots hold their sums, the others the divided span d. */
  function CombineColumns(d: seq<Complex>, radix: nat, length: nat, stride: nat, tw: seq<Complex>, u: nat, q1: nat): (r: seq<Complex>)
    requires 1 <= radix && 1 <= length && 1 <= stride
    requires |d| == radix * length && stride * radix * length == |tw|
    ensures |r| == |d|
  {
    seq(|d|, k requires 0 <= k < |d| =>
      if Done(k, length, u, q1) then GenericValue(d, radix, length, stride, tw, k) else d[k])
  }

  /** At the start of column u, its slots still hold the divided span. */
  lemma CombineColumnsRead(b: seq<Complex>, off: nat, d: seq<Complex>, radix: nat, length: nat, stride: nat,
                           tw: seq<Complex>, u: nat, q: nat)
    requires 1 <= radix && 1 <= length && 1 <= stride
    requires |d| == radix * length && stride * radix * length == |tw|
    requires u < length && q < radix && off + |d| <= |b|
    ensures u + q * length < |d|
    ensures Splice(b, off, CombineColumns(d, radix, length, stride, tw, u, 0))[off + (u + q * length)]
      == Column(d, length, radix, u)[q]
  {
    ColumnIndex(u, q, length, radix);
    ColumnSlot(u, q, length);
  }

  /** One slot of the second pass: slot k = u + q1 * length receives the sum
      over column u. */
  lemma CombineColumnsAdvance(b: seq<Complex>, off: nat, d: seq<Complex>, radix: nat, length: nat, stride: nat,
                              tw: seq<Complex>, u: nat, q1: nat)
    requires 1 <= radix && 1 <= length && 1 <= stride
    requires |d| == radix * length && stride * radix * length == |tw|
    requires u < length && q1 < radix && off + |d| <= |b|
    ensures var k := u + q1 * length;
      && k < |d| && stride * k < |tw|
      && Splice(b, off, CombineColumns(d, radix, length, stride, tw, u, q1))
           [off + k := Accumulate(Column(d, length, radix, u), tw, stride * k, radix)]
         == Splice(b, off, CombineColumns(d, radix, length, stride, tw, u, q1 + 1))
  {
    var k := u + q1 * length;
    ColumnIndex(u, q1, length, radix);
    StepBound(k, stride, radix, length);
    ColumnSlot(u, q1, length);
    var v := CombineColumns(d, radix, length, stride, tw, u, q1);
    var x := Accumulate(Column(d, length, radix, u), tw, stride * k, radix);
    assert x == GenericValue(d, radix, length, stride, tw, k);
    var w := CombineColumns(d, radix, length, stride, tw, u, q1 + 1);
    forall j | 0 <= j < |d|
      ensures w[j] == v[k := x][j]
    {
      DoneStep(j, length, u, q1);
    }
    SpliceUpdate(b, off, v, k, x);
  }

  lemma CombineColumnsRow(d: seq<Complex>, radix: nat, length: nat, stride: nat, tw: seq<Complex>, u: nat)
    requires 1 <= radix && 1 <= length && 1 <= stride
    requires |d| == radix * length && stride * radix * length == |tw|
    ensures CombineColumns(d, radix, length, stride, tw, u, radix)
      == CombineColumns(d, radix, length, stride, tw, u + 1, 0)
  {
    forall k | 0 <= k < |d|
      ensures CombineColumns(d, radix, length, stride, tw, u, radix)[k]
        == CombineColumns(d, radix, length, stride, tw, u + 1, 0)[k]
    {
      DoneRow(k, length, radix, u);
    }
  }

  /** Before the first column nothing is combined. */
  lemma CombineColumnsStart(d: seq<Complex>, radix: nat, length: nat, stride: nat, tw: seq<Complex>)
    requires 1 <= radix && 1 <= length && 1 <= stride
    requires |d| == radix * length && stride * radix * length == |tw|
    ensures CombineColumns(d, radix, length, stride, tw, 0, 0) == d
  {
  }

  lemma GenericEnds(s: seq<Complex>, radix: nat, length: nat, stride: nat, tw: seq<Complex>)
    requires 1 <= radix <= Int32Max && 1 <= length && 1 <= stride
    requires |s| == radix * length && stride * radix * length == |tw|
    ensures var d := Scaled(s, radix);
      && CombineColumns(d, radix, length, stride, tw, 0, 0) == d
      && CombineColumns(d, radix, length, stride, tw, length, 0) == GenericSpec(s, radix, length, stride, tw)
  {
  }

  /** The same sum written with the modulo directly. */
  function ReferenceSum(sc: seq<Complex>, tw: seq<Complex>, step: nat, n: nat): Complex
    requires 1 <= n <= |sc| && step < |tw|
  {
    if n == 1 then sc[0]
    else ReferenceSum(sc, tw, step, n - 1).Add(CMul(sc[n - 1], tw[((n - 1) * step) % |tw|]))
  }

  lemma {:induction false} AccumulateIsReference(sc: seq<Complex>, tw: seq<Complex>, step: nat, n: nat)
    requires 1 <= n <= |sc| && step < |tw|
    ensures Accumulate(sc, tw, step, n) == ReferenceSum(sc, tw, step, n)
  {
    if n > 1 {
      AccumulateIsReference(sc, tw, step, n - 1);
      TwIndexIsMod(step, |tw|, n - 1);
    }
  }

  /** Slot u + q1 * length of the generic kernel's output is the sum over
      column u of the divided span, term q using the twiddle at
      (q * stride * k) mod size for k = u + q1 * length. */
  lemma GenericSlot(s: seq<Complex>, radix: nat, length: nat, stride: nat, tw: seq<Complex>, u: nat, q1: nat)
    requires 1 <= radix <= Int32Max && 1 <= length && 1 <= stride
    requires |s| == radix * length && stride * radix * length == |tw|
    requires u < length && q1 < radix
    ensures u + q1 * length < radix * length
    ensures var k := u + q1 * length;
      stride * k < |tw| &&
      GenericSpec(s, radix, length, stride, tw)[k]
        == ReferenceSum(Column(Scaled(s, radix), length, radix, u), tw, stride * k, radix)
  {
    var k := u + q1 * length;
    ColumnIndex(u, q1, length, radix);
    StepBound(k, stride, radix, length);
    RemIsMod(k, length);
    DivUnique(k, length, q1, u);
    AccumulateIsReference(Column(Scaled(s, radix), length, radix, u), tw, stride * k, radix);
  }
}
