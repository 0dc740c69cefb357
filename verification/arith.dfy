/** Powers of two and the few facts about Euclidean division on
    non-negative integers that the bit-level proofs rely on. */
module Arith {

  function Pow2(n: nat): (r: nat)
    ensures r >= 1
  {
    if n == 0 then 1 else 2 * Pow2(n - 1)
  }

  lemma {:induction false} Pow2Add(a: nat, b: nat)
    ensures Pow2(a + b) == Pow2(a) * Pow2(b)
  {
    if a > 0 {
      Pow2Add(a - 1, b);
      assert Pow2(a + b) == 2 * Pow2(a - 1 + b);
    }
  }

  lemma {:induction false} Pow2Monotone(a: nat, b: nat)
    requires a <= b
    ensures Pow2(a) <= Pow2(b)
  {
    if a < b {
      Pow2Monotone(a, b - 1);
    }
  }

  /** Floor of the base-2 logarithm: the number of halvings down to 1. */
  function Log2(n: nat): (k: nat)
    requires n >= 1
  {
    if n == 1 then 0 else 1 + Log2(n / 2)
  }

  /** Log2(n) brackets n between consecutive powers of two. */
  lemma {:induction false} Log2Bounds(n: nat)
    requires n >= 1
    ensures Pow2(Log2(n)) <= n < Pow2(Log2(n) + 1)
  {
    if n > 1 {
      Log2Bounds(n / 2);
    }
  }

  /** The bracket determines the logarithm. */
  lemma {:induction false} Log2Unique(n: nat, k: nat)
    requires Pow2(k) <= n < Pow2(k + 1)
    ensures Log2(n) == k
  {
    var j := Log2(n);
    Log2Bounds(n);
    if j < k {
      Pow2Monotone(j + 1, k);
    } else if j > k {
      Pow2Monotone(k + 1, j);
    }
  }

  lemma MulStrictBound(d: int, q: int)
    requires q > 0 && -q < d * q < q
    ensures d == 0
  {
  }

  /** Quotient and remainder are the unique decomposition x == a * q + r with 0 <= r < q. */
  lemma DivModUnique(x: int, q: int, a: int, r: int)
    requires q > 0 && 0 <= r < q && x == a * q + r
    ensures x / q == a && x % q == r
  {
    var a' := x / q;
    var r' := x % q;
    assert x == a' * q + r';
    assert (a - a') * q == r' - r;
    MulStrictBound(a - a', q);
  }

  /** x shifted right by n bits, one halving per bit. */
  function ShiftRight(x: nat, n: nat): (r: nat)
    ensures r <= x
  {
    if n == 0 then x else ShiftRight(x, n - 1) / 2
  }

  /** Halving a quotient doubles the divisor. */
  lemma DivHalf(x: nat, a: nat)
    requires a > 0
    ensures (x / a) / 2 == x / (2 * a)
  {
    var q := x / a;
    var r1 := x % a;
    var q2 := q / 2;
    var r2 := q % 2;
    assert x == q * a + r1;
    assert q == 2 * q2 + r2;
    assert x == q2 * (2 * a) + (r2 * a + r1);
    assert r2 * a + r1 < 2 * a by {
      if r2 == 1 {
        assert r2 * a == a;
      } else {
        assert r2 * a == 0;
      }
    }
    DivModUnique(x, 2 * a, q2, r2 * a + r1);
  }

  /** Halving and then dividing by a is dividing by 2a. */
  lemma HalfDiv(x: nat, a: nat)
    requires a > 0
    ensures (x / 2) / a == x / (2 * a)
  {
    var q := x / 2;
    var r1 := x % 2;
    var q2 := q / a;
    var r2 := q % a;
    assert x == 2 * q + r1;
    assert q == q2 * a + r2;
    assert x == q2 * (2 * a) + (2 * r2 + r1);
    DivModUnique(x, 2 * a, q2, 2 * r2 + r1);
  }

  /** Shifting right by n bits divides by 2^n. */
  lemma {:induction false} ShiftRightDiv(x: nat, n: nat)
    ensures ShiftRight(x, n) == x / Pow2(n)
  {
    if n > 0 {
      ShiftRightDiv(x, n - 1);
      DivHalf(x, Pow2(n - 1));
    }
  }
}
