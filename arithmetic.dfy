/** Integer helpers shared by the other modules: monotonicity of a product,
    and quotient and remainder by repeated subtraction, which keep the
    divisibility reasoning of the factoriser and the index arithmetic of the
    butterflies linear. */
module Arith {

  /** m % t for a positive t, by repeated subtraction; RemIsMod shows it is
      the remainder of C++'s `%` on these operands. */
  function Rem(m: nat, t: nat): (r: nat)
    requires 1 <= t
    ensures r < t
    decreases m
  {
    if m < t then m else Rem(m - t, t)
  }

  /** m / t for a positive t, by repeated subtraction (see RemIsMod). */
  function Quot(m: nat, t: nat): nat
    requires 1 <= t
    decreases m
  {
    if m < t then 0 else 1 + Quot(m - t, t)
  }

  lemma MulLeft(x: int, y: int, z: int)
    requires x <= y && 0 <= z
    ensures x * z <= y * z
  {
  }

  lemma {:induction false} QuotRem(m: nat, t: nat)
    requires 1 <= t
    ensures t * Quot(m, t) + Rem(m, t) == m
    decreases m
  {
    if m >= t {
      QuotRem(m - t, t);
    }
  }

  /** Quotient and remainder are unique. */
  lemma DivUnique(m: nat, t: nat, q: int, r: int)
    requires 1 <= t && t * q + r == m && 0 <= r < t
    ensures q == m / t && r == m % t
  {
    var q0, r0 := m / t, m % t;
    assert t * q0 + r0 == m;
    assert t * (q - q0) == r0 - r;
    if q - q0 >= 1 {
      MulLeft(1, q - q0, t);
    } else if q - q0 <= -1 {
      MulLeft(1, q0 - q, t);
    }
  }

  /** The subtraction-based quotient and remainder are C++'s `/` and `%`
      on non-negative operands. */
  lemma RemIsMod(m: nat, t: nat)
    requires 1 <= t
    ensures Rem(m, t) == m % t && Quot(m, t) == m / t
  {
    QuotRem(m, t);
    DivUnique(m, t, Quot(m, t), Rem(m, t));
  }

  lemma QuotSmaller(m: nat, r: nat)
    requires 2 <= r && Quot(m, r) > 1
    ensures Quot(m, r) < m
  {
    QuotRem(m, r);
    MulLeft(2, r, Quot(m, r));
  }

  lemma QuotLe(m: nat, r: nat)
    requires 1 <= r
    ensures Quot(m, r) <= m
  {
    QuotRem(m, r);
    MulLeft(1, r, Quot(m, r));
  }

  /** Adding less than n to a remainder modulo n overshoots at most once. */
  lemma ModAddOnce(x: nat, s: nat, n: nat)
    requires s < n
    ensures (x + s) % n == if x % n + s >= n then x % n + s - n else x % n + s
  {
    var a, b := x / n, x % n;
    if b + s >= n {
      DivUnique(x + s, n, a + 1, b + s - n);
    } else {
      DivUnique(x + s, n, a, b + s);
    }
  }

  /** One more step of a pointer walk: (i + 1) * stride == i * stride + stride. */
  lemma MulSucc(i: int, stride: int)
    ensures (i + 1) * stride == i * stride + stride
  {
  }
}
