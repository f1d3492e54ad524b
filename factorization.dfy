/** The radix factorisation done once by the ComplexTransform constructor:
    the transform length is split greedily into a chain of
    (radix, remaining length) entries. Trial radices are taken in the order
    4, 2, 3, 5, 7, 9, ... without ever going back; once the trial radix passes
    the square root of the ORIGINAL length, the whole remaining length
    becomes the last radix. */
module Factorization {

  import opened Arith

  /** One entry of the chain: the radix of a stage and the length that
      remains to be transformed below it. */
  datatype Factor = Factor(radix: nat, length: nat)

  /** Capacity of the fixed factor array of a transform. */
  const MaxFactors: nat := 32

  /** The truncated square root of the length, computed once before the loop. */
  function FloorSqrt(n: nat): (r: nat)
    ensures r * r <= n < (r + 1) * (r + 1)
  {
    if n == 0 then 0
    else
      var s := FloorSqrt(n - 1);
      if (s + 1) * (s + 1) <= n then s + 1 else s
  }

  /** The values the trial radix can take: 4, 2 and the odd numbers from 3. */
  predicate IsTrialValue(t: nat)
  {
    t == 4 || t == 2 || (t >= 3 && t % 2 == 1)
  }

  /** The `switch` that advances the trial radix: 4 -> 2 -> 3 -> 5 -> 7 ... */
  function NextTrial(p: nat): nat
  {
    if p == 4 then 2 else if p == 2 then 3 else p + 2
  }

  /** Position of a trial value in the order the factoriser tries them. */
  function Rank(t: nat): nat
  {
    if t == 4 then 0 else if t == 2 then 1 else t
  }

  /** A trial radix as the loop holds it: 4 (where it starts), or a trial
      value that has not yet passed the square root. */
  predicate IsTrial(p: nat, root: nat)
  {
    IsTrialValue(p) && (p == 4 || 2 <= p <= root)
  }

  function TrialMeasure(p: nat, root: nat): int
  {
    if p == 4 then root + 3 else root + 2 - p
  }

  /** The inner `while (fftSize % p)` loop: the first trial value from p on
      that divides m, or m itself once the trial value passes the root. */
  function TrialRadix(m: nat, p: nat, root: nat): (r: nat)
    requires IsTrial(p, root)
    ensures 1 <= r
    ensures r == m || IsTrial(r, root)
    ensures 2 <= m ==> 2 <= r
    decreases TrialMeasure(p, root)
  {
    if Rem(m, p) == 0 then p
    else
      var q := NextTrial(p);
      if q > root then m else TrialRadix(m, q, root)
  }

  /** The outer do/while loop from a remaining length m and a trial radix p:
      one entry per division, stopping at the first remaining length <= 1. */
  function ChainFrom(m: nat, p: nat, root: nat): (c: seq<Factor>)
    requires IsTrial(p, root)
    ensures |c| >= 1
    decreases m
  {
    var r := TrialRadix(m, p, root);
    var rest := Quot(m, r);
    if rest > 1 then
      QuotSmaller(m, r);
      [Factor(r, rest)] + ChainFrom(rest, r, root)
    else
      [Factor(r, rest)]
  }

  /** The chain the constructor records for a transform of `size` points. */
  function FactorChain(size: nat): seq<Factor>
  {
    ChainFrom(size, 4, FloorSqrt(size))
  }

  /** Product of all radices of a chain. */
  function RadixProduct(c: seq<Factor>): nat
  {
    if c == [] then 1 else c[0].radix * RadixProduct(c[1..])
  }

  /** What the recursive decomposition needs of a chain for length n: each
      entry splits the length above it into radix * length, every length is
      positive, and exactly the last entry has length 1. */
  predicate ChainOk(c: seq<Factor>, n: nat)
  {
    && |c| >= 1
    && (forall i :: 0 <= i < |c| ==> 1 <= c[i].radix && 1 <= c[i].length)
    && (forall i :: 0 <= i < |c| ==> Splits(c, n, i))
    && (forall i :: 0 <= i < |c| ==> (c[i].length == 1 <==> i == |c| - 1))
  }

  /** Entry i splits the length above it: radix * length == LengthBefore. */
  predicate Splits(c: seq<Factor>, n: nat, i: nat)
    requires i < |c|
  {
    c[i].radix * c[i].length == LengthBefore(c, n, i)
  }

  /** The length an entry divides: the size for the first entry, the previous
      entry's length otherwise. */
  function LengthBefore(c: seq<Factor>, n: nat, i: nat): nat
    requires i < |c|
  {
    if i == 0 then n else c[i - 1].length
  }

  /** The trial radix in force when an entry is searched for. */
  function TrialBefore(c: seq<Factor>, i: nat): nat
    requires i < |c|
  {
    if i == 0 then 4 else c[i - 1].radix
  }

  /** t divides m exactly. */
  predicate Divides(t: nat, m: nat)
  {
    1 <= t && Rem(m, t) == 0
  }

  /** No trial value of rank in [Rank(start), bound) divides m. */
  ghost predicate SkippedBelow(m: nat, start: nat, bound: nat)
  {
    forall t: nat :: IsTrialValue(t) && Rank(start) <= Rank(t) < bound ==> !Divides(t, m)
  }

  /** No trial value from `start` on, up to the root, divides m. */
  ghost predicate SkippedToRoot(m: nat, start: nat, root: nat)
  {
    forall t: nat :: IsTrialValue(t) && Rank(start) <= Rank(t) && (t <= root || t == start) ==> !Divides(t, m)
  }

  /** r is what a greedy search from trial value `start` picks for m: either a
      trial radix that divides m, with every trial value tried before it
      failing to divide m, or m itself once every trial value up to the root
      has failed. */
  ghost predicate GreedyPick(m: nat, start: nat, r: nat, root: nat)
  {
    || (IsTrial(r, root) && Divides(r, m) && Rank(start) <= Rank(r) && SkippedBelow(m, start, Rank(r)))
    || (r == m && SkippedToRoot(m, start, root))
  }

  /** Every entry of c is the greedy pick for the length above it, searching
      from the trial radix the entry above left behind. */
  ghost predicate GreedyChain(c: seq<Factor>, m: nat, start: nat, root: nat)
    decreases |c|
  {
    && |c| >= 1
    && GreedyPick(m, start, c[0].radix, root)
    && (|c| > 1 ==> GreedyChain(c[1..], c[0].length, c[0].radix, root))
  }

  //==========================================================================
  // Arithmetic helpers

  function Pow2(k: nat): (r: nat)
    ensures 1 <= r
  {
    if k == 0 then 1 else 2 * Pow2(k - 1)
  }

  lemma {:induction false} Pow2Add(a: nat, b: nat)
    ensures Pow2(a + b) == Pow2(a) * Pow2(b)
    decreases a
  {
    if a > 0 {
      Pow2Add(a - 1, b);
      assert Pow2(a + b) == 2 * Pow2(a - 1 + b);
    }
  }

  lemma Pow2Of33()
    ensures Pow2(33) == 0x2_0000_0000
  {
    assert Pow2(1) == 2;
    Pow2Add(1, 1);
    Pow2Add(2, 2);
    Pow2Add(4, 4);
    Pow2Add(8, 8);
    Pow2Add(16, 16);
    Pow2Add(32, 1);
  }

  lemma {:induction false} Pow2Monotone(a: nat, b: nat)
    requires a <= b
    ensures Pow2(a) <= Pow2(b)
    decreases b
  {
    if a < b {
      Pow2Monotone(a, b - 1);
    }
  }

  //==========================================================================
  // The trial order

  /** No trial value lies strictly between a trial value and its successor,
      and the successor has a larger rank and is no smaller unless it is 2. */
  lemma NextTrialOrder(p: nat, t: nat)
    requires IsTrialValue(p) && IsTrialValue(t)
    ensures IsTrialValue(NextTrial(p)) && Rank(p) < Rank(NextTrial(p))
    ensures Rank(p) <= Rank(t) < Rank(NextTrial(p)) ==> t == p
    ensures Rank(NextTrial(p)) <= Rank(t) ==> NextTrial(p) <= t
  {
  }

  /** The inner loop stops at a radix that divides what remains. */
  lemma {:induction false} TrialRadixDivides(m: nat, p: nat, root: nat)
    requires IsTrial(p, root)
    ensures Divides(TrialRadix(m, p, root), m)
    decreases TrialMeasure(p, root)
  {
    if Rem(m, p) != 0 {
      var q := NextTrial(p);
      if q > root {
        assert Rem(m, m) == Rem(0, m) == 0;
      } else {
        TrialRadixDivides(m, q, root);
      }
    }
  }

  /** One step of the inner loop: a trial value that does not divide m is
      replaced by its successor, or by m itself past the root. */
  lemma TrialRadixStep(m: nat, p: nat, root: nat)
    requires IsTrial(p, root) && Rem(m, p) != 0
    ensures NextTrial(p) > root ==> TrialRadix(m, p, root) == m
    ensures NextTrial(p) <= root ==>
      IsTrial(NextTrial(p), root) && TrialRadix(m, NextTrial(p), root) == TrialRadix(m, p, root)
  {
    var q := NextTrial(p);
    assert TrialRadix(m, p, root) == if q > root then m else TrialRadix(m, q, root);
  }

  /** The inner loop is a greedy search in the trial order. */
  lemma {:induction false} TrialRadixGreedy(m: nat, p: nat, root: nat)
    requires IsTrial(p, root)
    ensures GreedyPick(m, p, TrialRadix(m, p, root), root)
    decreases TrialMeasure(p, root)
  {
    var r := TrialRadix(m, p, root);
    if Rem(m, p) == 0 {
      assert IsTrial(r, root) && Divides(r, m) && SkippedBelow(m, p, Rank(r));
    } else {
      var q := NextTrial(p);
      if q > root {
        assert r == m;
        forall t: nat | IsTrialValue(t) && Rank(p) <= Rank(t) && (t <= root || t == p)
          ensures !Divides(t, m)
        {
          NextTrialOrder(p, t);
        }
        assert SkippedToRoot(m, p, root);
      } else {
        TrialRadixGreedy(m, q, root);
        NextTrialOrder(p, p);
        if IsTrial(r, root) && Divides(r, m) && Rank(q) <= Rank(r) && SkippedBelow(m, q, Rank(r)) {
          SkipOneMore(m, p, Rank(r));
        } else {
          assert r == m && SkippedToRoot(m, q, root);
          forall t: nat | IsTrialValue(t) && Rank(p) <= Rank(t) && (t <= root || t == p)
            ensures !Divides(t, m)
          {
            NextTrialOrder(p, t);
            if t != p {
              assert Rank(q) <= Rank(t);
            }
          }
          assert SkippedToRoot(m, p, root);
        }
      }
    }
  }

  /** A trial value that does not divide m extends a skipped range downward. */
  lemma SkipOneMore(m: nat, p: nat, bound: nat)
    requires IsTrialValue(p) && !Divides(p, m) && SkippedBelow(m, NextTrial(p), bound)
    ensures SkippedBelow(m, p, bound)
  {
    forall t: nat | IsTrialValue(t) && Rank(p) <= Rank(t) < bound
      ensures !Divides(t, m)
    {
      NextTrialOrder(p, t);
    }
  }

  //==========================================================================
  // Properties of the chain

  /** Every chain built from a positive length is well formed for it. */
  lemma {:induction false} ChainFromShape(m: nat, p: nat, root: nat)
    requires 1 <= m && IsTrial(p, root)
    ensures ChainOk(ChainFrom(m, p, root), m)
    decreases m
  {
    var c := ChainFrom(m, p, root);
    var r := TrialRadix(m, p, root);
    var rest := Quot(m, r);
    TrialRadixDivides(m, p, root);
    QuotRem(m, r);
    if rest > 1 {
      QuotSmaller(m, r);
      var tail := ChainFrom(rest, r, root);
      ChainFromShape(rest, r, root);
      assert c == [Factor(r, rest)] + tail;
      forall i | 0 <= i < |c|
        ensures Splits(c, m, i)
      {
        if i > 1 {
          assert Splits(tail, rest, i - 1);
          assert c[i] == tail[i - 1] && c[i - 1] == tail[i - 2];
        } else if i == 1 {
          assert Splits(tail, rest, 0);
        }
      }
    } else {
      assert c == [Factor(r, rest)];
    }
  }

  /** The radices of a chain multiply to the length it was built from. */
  lemma {:induction false} ChainFromProduct(m: nat, p: nat, root: nat)
    requires IsTrial(p, root)
    ensures 1 <= m ==> RadixProduct(ChainFrom(m, p, root)) == m
    decreases m
  {
    var c := ChainFrom(m, p, root);
    var r := TrialRadix(m, p, root);
    var rest := Quot(m, r);
    TrialRadixDivides(m, p, root);
    QuotRem(m, r);
    if rest > 1 {
      QuotSmaller(m, r);
      ChainFromProduct(rest, r, root);
      assert c[1..] == ChainFrom(rest, r, root);
    }
  }

  /** From a length of at least 2, every radix is at least 2. */
  lemma {:induction false} ChainFromRadices(m: nat, p: nat, root: nat)
    requires 2 <= m && IsTrial(p, root)
    ensures forall f :: f in ChainFrom(m, p, root) ==> 2 <= f.radix
    decreases m
  {
    var c := ChainFrom(m, p, root);
    var r := TrialRadix(m, p, root);
    var rest := Quot(m, r);
    if rest > 1 {
      QuotSmaller(m, r);
      ChainFromRadices(rest, r, root);
      assert c == [Factor(r, rest)] + ChainFrom(rest, r, root);
    }
  }

  /** Every entry of a chain is the greedy pick for the length above it,
      starting from the trial radix the previous entry left behind. */
  lemma {:induction false} ChainFromGreedy(m: nat, p: nat, root: nat)
    requires IsTrial(p, root)
    ensures GreedyChain(ChainFrom(m, p, root), m, p, root)
    decreases m
  {
    var c := ChainFrom(m, p, root);
    var r := TrialRadix(m, p, root);
    var rest := Quot(m, r);
    TrialRadixGreedy(m, p, root);
    if rest > 1 {
      QuotSmaller(m, r);
      ChainFromGreedy(rest, r, root);
      assert c[1..] == ChainFrom(rest, r, root);
    }
  }

  lemma {:induction false} GreedyChainAt(c: seq<Factor>, m: nat, start: nat, root: nat, i: nat)
    requires GreedyChain(c, m, start, root) && i < |c|
    ensures GreedyPick(if i == 0 then m else c[i - 1].length, if i == 0 then start else c[i - 1].radix, c[i].radix, root)
    decreases i
  {
    if i > 0 {
      GreedyChainAt(c[1..], c[0].length, c[0].radix, root, i - 1);
    }
  }

  /** The factor chain of a positive size: its radices multiply to the size,
      each entry's length is the length above it divided by its radix, and
      the chain stops at the first entry of length 1. */
  lemma ChainLinks(size: nat)
    requires 1 <= size
    ensures ChainOk(FactorChain(size), size)
    ensures RadixProduct(FactorChain(size)) == size
    ensures var c := FactorChain(size);
      forall i :: 0 <= i < |c| ==> c[i].length == LengthBefore(c, size, i) / c[i].radix
  {
    ChainFromShape(size, 4, FloorSqrt(size));
    ChainFromProduct(size, 4, FloorSqrt(size));
    var c := FactorChain(size);
    forall i | 0 <= i < |c|
      ensures c[i].length == LengthBefore(c, size, i) / c[i].radix
    {
      assert Splits(c, size, i);
      DivUnique(LengthBefore(c, size, i), c[i].radix, c[i].length, 0);
    }
  }

  /** The trial order of the factor chain: 4 while it divides, then 2, 3, 5,
      7, ... without going back, every skipped trial value failing to divide
      the length searched; and once the trial value passes the square root of
      the original size, the remaining length is taken whole. */
  lemma ChainGreedy(size: nat, i: nat)
    requires i < |FactorChain(size)|
    ensures var c := FactorChain(size);
      GreedyPick(LengthBefore(c, size, i), TrialBefore(c, i), c[i].radix, FloorSqrt(size))
  {
    ChainFromGreedy(size, 4, FloorSqrt(size));
    GreedyChainAt(FactorChain(size), size, 4, FloorSqrt(size), i);
  }

  /** Four is taken as long as it divides what remains. */
  lemma ChainTakesFourFirst(size: nat, i: nat)
    requires i < |FactorChain(size)|
    requires TrialBefore(FactorChain(size), i) == 4
    requires LengthBefore(FactorChain(size), size, i) % 4 == 0
    ensures FactorChain(size)[i].radix == 4
  {
    ChainGreedy(size, i);
    var c := FactorChain(size);
    RemIsMod(LengthBefore(c, size, i), 4);
    if c[i].radix != 4 {
      assert IsTrialValue(4) && Rank(4) == 0;
      assert Divides(4, LengthBefore(c, size, i));
    }
  }

  /** For a size of at least 2 every radix is at least 2, so the chain has at
      most log2(size) entries; below 2^33 the chain fits the 32-entry array. */
  lemma ChainFitsArray(size: nat)
    requires 2 <= size
    ensures forall f :: f in FactorChain(size) ==> 2 <= f.radix
    ensures Pow2(|FactorChain(size)|) <= size
    ensures size < 0x2_0000_0000 ==> |FactorChain(size)| <= MaxFactors
  {
    var c := FactorChain(size);
    ChainFromRadices(size, 4, FloorSqrt(size));
    ChainFromProduct(size, 4, FloorSqrt(size));
    ProductAtLeastPow2(c);
    if size < 0x2_0000_0000 && |c| > MaxFactors {
      Pow2Monotone(33, |c|);
      Pow2Of33();
    }
  }

  lemma {:induction false} ProductAtLeastPow2(c: seq<Factor>)
    requires forall f :: f in c ==> 2 <= f.radix
    ensures Pow2(|c|) <= RadixProduct(c)
  {
    if c != [] {
      ProductAtLeastPow2(c[1..]);
      MulLeft(2, c[0].radix, RadixProduct(c[1..]));
    }
  }

  /** The degenerate sizes: one point gives the single entry (1, 1), and zero
      points the single entry (4, 0). */
  lemma SmallChains()
    ensures FactorChain(1) == [Factor(1, 1)]
    ensures FactorChain(0) == [Factor(4, 0)]
  {
    assert FloorSqrt(1) == 1;
    assert TrialRadix(1, 4, 1) == 1;
    assert FloorSqrt(0) == 0;
    assert TrialRadix(0, 4, 0) == 4;
  }

  //==========================================================================
  // The constructor's loop

  /** One turn of the constructor's outer loop, with C++'s `/`: the head of
      the chain is the radix found and the quotient, and the rest of the
      chain continues from there while the quotient exceeds 1. */
  lemma ChainFromStep(m: nat, p: nat, root: nat)
    requires IsTrial(p, root)
    ensures var r := TrialRadix(m, p, root); var q := Quot(m, r);
      && q == m / r
      && q <= m
      && ChainFrom(m, p, root)[0] == Factor(r, q)
      && (q > 1 ==> q < m && IsTrial(r, root) && ChainFrom(m, p, root)[1..] == ChainFrom(q, r, root))
      && (q <= 1 ==> |ChainFrom(m, p, root)| == 1)
  {
    var r := TrialRadix(m, p, root);
    RemIsMod(m, r);
    QuotLe(m, r);
    if Quot(m, r) > 1 {
      QuotSmaller(m, r);
    }
  }

  /** The inner `while (fftSize % p)` loop of the constructor: advance the
      trial radix until it divides what remains, taking the remaining length
      whole once the trial radix passes the root. */
  method SearchRadix(fftSize: nat, p0: nat, root: nat) returns (p: nat)
    requires IsTrial(p0, root)
    ensures p == TrialRadix(fftSize, p0, root)
  {
    p := p0;
    RemIsMod(fftSize, p);
    while fftSize % p != 0
      invariant 1 <= p && fftSize % p == Rem(fftSize, p)
      invariant (IsTrial(p, root) && TrialRadix(fftSize, p, root) == TrialRadix(fftSize, p0, root))
             || p == fftSize == TrialRadix(fftSize, p0, root)
      decreases if IsTrial(p, root) && Rem(fftSize, p) != 0 then TrialMeasure(p, root) + 1 else 0
    {
      TrialRadixStep(fftSize, p, root);
      if p == 4 {
        p := 2;
      } else if p == 2 {
        p := 3;
      } else {
        p := p + 2;
      }
      if p > root {
        p := fftSize;
      }
      RemIsMod(fftSize, p);
    }
  }

  /** The do/while loop of the constructor, writing the chain into the fixed
      factor array. The caller must choose a size whose chain fits the array
      (ChainFitsArray: any size below 2^33 does). */
  method Factorize(size: nat, factors: array<Factor>) returns (count: nat)
    requires factors.Length == MaxFactors
    requires |FactorChain(size)| <= MaxFactors
    modifies factors
    ensures count == |FactorChain(size)|
    ensures factors[..count] == FactorChain(size)
    ensures factors[count..] == old(factors[count..])
  {
    ghost var chain := FactorChain(size);
    var fftSize := size;
    var p := 4;
    var root := FloorSqrt(size);
    count := 0;
    var more := true;
    while more
      invariant count <= |chain|
      invariant more ==> IsTrial(p, root) && chain[count..] == ChainFrom(fftSize, p, root)
      invariant !more ==> count == |chain|
      invariant forall j :: 0 <= j < count ==> factors[j] == chain[j]
      invariant forall j :: count <= j < factors.Length ==> factors[j] == old(factors[j])
      decreases if more then fftSize + 1 else 0
    {
      ChainFromStep(fftSize, p, root);
      p := SearchRadix(fftSize, p, root);
      fftSize := fftSize / p;
      factors[count] := Factor(p, fftSize);
      count := count + 1;
      more := fftSize > 1;
    }
    assert factors[..count] == chain;
  }
}
