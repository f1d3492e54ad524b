/** Q31 fixed-point arithmetic of the transform engine: the integer branches
    of the scalar helpers `sround`, `smul`, `sdiv`, `halve` and of the complex
    helpers `cmul`, `cdiv`, for 32-bit signed samples. Samples are
    mathematical integers; every conversion the source performs between
    widths is written out explicitly. */
module FixedPoint {

  import opened Arith

  /** 2^31: the value 1.0 in Q31, and the divisor of the renormalising shift. */
  const One: int := 0x8000_0000
  /** 2^30: half a unit of the result, added before the shift (round half up). */
  const Half: int := 0x4000_0000

  const Int32Min: int := -0x8000_0000
  const Int32Max: int := 0x7fff_ffff
  const Int64Min: int := -0x8000_0000_0000_0000
  const Int64Max: int := 0x7fff_ffff_ffff_ffff

  predicate IsInt32(x: int) { Int32Min <= x <= Int32Max }
  predicate IsInt64(x: int) { Int64Min <= x <= Int64Max }

  function Abs(x: int): nat { if x < 0 then -x else x }

  /** Conversion of a wider integer to int32_t: two's-complement wrap-around. */
  function Narrow32(x: int): (r: int)
    ensures IsInt32(r)
    ensures (x - r) % 0x1_0000_0000 == 0
    ensures IsInt32(x) ==> r == x
  {
    (x - Int32Min) % 0x1_0000_0000 + Int32Min
  }

  /** `sround`: add half a unit, then shift right arithmetically by 31 bits,
      so the result is the product rounded to the nearest Q31 value, ties up. */
  function SRound(x: int): (r: int)
    ensures r * One <= x + Half < r * One + One
  {
    (x + Half) / One
  }

  /** `smul`: 64-bit product, rounded by `SRound`, converted back to 32 bits. */
  function SMul(a: int, b: int): (r: int)
    ensures IsInt32(r)
  {
    Narrow32(SRound(a * b))
  }

  /** Integer division of C++: the quotient is truncated toward zero. */
  function TruncDiv(n: int, d: int): (q: int)
    requires d != 0
  {
    var m := Abs(n) / Abs(d);
    if (n >= 0) == (d > 0) then m else -m
  }

  /** The truncated quotient: its magnitude is the floor of |n| / |d| and
      its sign is the sign of n * d. */
  lemma TruncDivBounds(n: int, d: int)
    requires d != 0
    ensures var q := TruncDiv(n, d);
      && Abs(q) * Abs(d) <= Abs(n) < (Abs(q) + 1) * Abs(d)
      && (q != 0 ==> ((q > 0) <==> ((n > 0) == (d > 0))))
  {
    var a, b := Abs(n), Abs(d);
    RemIsMod(a, b);
    QuotRem(a, b);
    var m := Quot(a, b);
    MulSucc(m, b);
    assert m * b == b * m;
  }

  /** `sdiv`: multiply by the Q31 reciprocal `max / d` (truncating division). */
  function SDiv(a: int, d: int): (r: int)
    requires d != 0
    ensures IsInt32(r)
  {
    SMul(a, TruncDiv(Int32Max, d))
  }

  /** `halve`: arithmetic shift right by one bit, i.e. the floor of x / 2. */
  function Halve(x: int): (r: int)
    ensures 2 * r <= x < 2 * r + 2
    ensures IsInt32(x) ==> IsInt32(r)
  {
    x / 2
  }

  /** A complex sample: a pair of fixed-point components. */
  datatype Complex = Complex(re: int, im: int)
  {
    function Add(b: Complex): Complex { Complex(re + b.re, im + b.im) }
    function Sub(b: Complex): Complex { Complex(re - b.re, im - b.im) }
    function Conj(): Complex { Complex(re, -im) }
  }

  const Zero: Complex := Complex(0, 0)

  predicate IsInt32Complex(c: Complex) { IsInt32(c.re) && IsInt32(c.im) }

  /** `cmul`: complex product built from four rounded Q31 products. */
  function CMul(a: Complex, b: Complex): Complex
  {
    Complex(SMul(a.re, b.re) - SMul(a.im, b.im), SMul(a.re, b.im) + SMul(a.im, b.re))
  }

  /** `cdiv`: divide both components by d, after converting d to the sample type. */
  function CDiv(c: Complex, d: int): (r: Complex)
    requires d != 0 && IsInt32(d)
    ensures IsInt32Complex(r)
  {
    Complex(SDiv(c.re, d), SDiv(c.im, d))
  }

  //==========================================================================
  // Properties of the arithmetic

  /** The product of two int32 values lies within [-2^62 + 2^31, 2^62], and
      reaches 2^62 only for Int32Min * Int32Min. */
  lemma ProductRange(a: int, b: int)
    requires IsInt32(a) && IsInt32(b)
    ensures -0x4000_0000_0000_0000 + 0x8000_0000 <= a * b <= 0x4000_0000_0000_0000
    ensures !(a == Int32Min && b == Int32Min) ==> a * b <= 0x4000_0000_0000_0000 - 0x8000_0000
  {
    if a >= 0 && b >= 0 {
      MulLeft(a, Int32Max, b);
      MulLeft(b, Int32Max, Int32Max);
    } else if a < 0 && b < 0 {
      MulLeft(-a, 0x8000_0000, -b);
      MulLeft(-b, 0x8000_0000, 0x8000_0000);
      if a != Int32Min {
        MulLeft(-a, 0x7fff_ffff, -b);
        MulLeft(-b, 0x8000_0000, 0x7fff_ffff);
      } else if b != Int32Min {
        MulLeft(-b, 0x7fff_ffff, -a);
        MulLeft(-a, 0x8000_0000, 0x7fff_ffff);
      }
    } else if a < 0 {
      MulLeft(-a, 0x8000_0000, b);
      MulLeft(b, Int32Max, 0x8000_0000);
    } else {
      MulLeft(-b, 0x8000_0000, a);
      MulLeft(a, Int32Max, 0x8000_0000);
    }
  }

  /** `smul` of two int32 operands: the 64-bit intermediate never overflows,
      and unless both operands are Int32Min the result is the product rounded
      half up to 31 fractional bits, with no wrap-around. */
  lemma SMulRounding(a: int, b: int)
    requires IsInt32(a) && IsInt32(b)
    ensures IsInt64(a * b) && IsInt64(a * b + Half)
    ensures !(a == Int32Min && b == Int32Min) ==>
      SMul(a, b) == SRound(a * b) &&
      SMul(a, b) * One <= a * b + Half < SMul(a, b) * One + One
  {
    ProductRange(a, b);
  }

  /** The one wrap-around: (-1.0) * (-1.0) rounds to 2^31, which does not
      fit in 32 bits and comes back as -1.0. */
  lemma SMulMinMin()
    ensures SRound(Int32Min * Int32Min) == One
    ensures SMul(Int32Min, Int32Min) == Int32Min
  {
  }

  /** Rounding half up is not symmetric: negating one operand changes the
      result by the negation or by the negation plus one. */
  lemma SMulNegation(a: int, b: int)
    requires IsInt32(a) && IsInt32(b) && b != Int32Min
    ensures 0 <= SMul(a, b) + SMul(a, -b) <= 1
  {
    SMulRounding(a, b);
    SMulRounding(a, -b);
    assert a * -b == -(a * b);
  }

  /** `sdiv` by a positive divisor never grows a value and keeps its sign. */
  lemma SDivShrinks(a: int, d: int)
    requires IsInt32(a) && 1 <= d <= Int32Max
    ensures 0 <= a ==> 0 <= SDiv(a, d) <= a
    ensures a <= 0 ==> a <= SDiv(a, d) <= 0
  {
    var q := TruncDiv(Int32Max, d);
    TruncDivBounds(Int32Max, d);
    assert 0 <= q <= Int32Max by {
      assert q * d <= Int32Max;
      MulLeft(1, d, q);
    }
    ProductRange(a, q);
    var p := a * q;
    if a >= 0 {
      MulLeft(q, Int32Max, a);
      RoundedBelow(p, a);
    } else {
      MulLeft(q, Int32Max, -a);
      RoundedAbove(p, a);
    }
  }

  lemma RoundedBelow(p: int, a: int)
    requires 0 <= a && 0 <= p <= Int32Max * a
    ensures 0 <= SRound(p) <= a
  {
  }

  lemma RoundedAbove(p: int, a: int)
    requires a <= 0 && Int32Max * a <= p <= 0
    ensures a <= SRound(p) <= 0
  {
  }

  /** `cmul` of int32 operands (no Int32Min * Int32Min product) is the exact
      complex product scaled by 2^-31, to within one unit per component
      (the real part strictly, the imaginary part at most one unit above). */
  lemma CMulRounding(a: Complex, b: Complex)
    requires IsInt32Complex(a) && IsInt32Complex(b)
    requires !(a.re == Int32Min && b.re == Int32Min) && !(a.im == Int32Min && b.im == Int32Min)
    requires !(a.re == Int32Min && b.im == Int32Min) && !(a.im == Int32Min && b.re == Int32Min)
    ensures -One < CMul(a, b).re * One - (a.re * b.re - a.im * b.im) < One
    ensures -One < CMul(a, b).im * One - (a.re * b.im + a.im * b.re) <= One
  {
    SMulRounding(a.re, b.re);
    SMulRounding(a.im, b.im);
    SMulRounding(a.re, b.im);
    SMulRounding(a.im, b.re);
    RoundedDifference(SMul(a.re, b.re), SMul(a.im, b.im), a.re * b.re, a.im * b.im);
    RoundedSum(SMul(a.re, b.im), SMul(a.im, b.re), a.re * b.im, a.im * b.re);
  }

  /** Two round-half-up results combine to within one unit of the exact
      difference, and of the exact sum. */
  lemma RoundedDifference(r1: int, r2: int, p1: int, p2: int)
    requires r1 * One <= p1 + Half < r1 * One + One
    requires r2 * One <= p2 + Half < r2 * One + One
    ensures -One < (r1 - r2) * One - (p1 - p2) < One
  {
  }

  lemma RoundedSum(r1: int, r2: int, p1: int, p2: int)
    requires r1 * One <= p1 + Half < r1 * One + One
    requires r2 * One <= p2 + Half < r2 * One + One
    ensures -One < (r1 + r2) * One - (p1 + p2) <= One
  {
  }

  /** `cdiv` by a positive divisor shrinks each component toward zero. */
  lemma CDivShrinks(c: Complex, d: int)
    requires IsInt32Complex(c) && 1 <= d <= Int32Max
    ensures Abs(CDiv(c, d).re) <= Abs(c.re) && Abs(CDiv(c, d).im) <= Abs(c.im)
    ensures CDiv(c, d).re * c.re >= 0 && CDiv(c, d).im * c.im >= 0
  {
    SDivShrinks(c.re, d);
    SDivShrinks(c.im, d);
  }
}
