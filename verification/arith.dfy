/** Powers and the Euclidean division facts the codec proofs rest on. */
module Arith {

  /** 2^n */
  function Pow2(n: nat): (r: nat)
    ensures r >= 1
  {
    if n == 0 then 1 else 2 * Pow2(n - 1)
  }

  /** 256^n: the number of distinct values of an n-byte field. */
  function Pow256(n: nat): (r: nat)
    ensures r >= 1
  {
    if n == 0 then 1 else 256 * Pow256(n - 1)
  }

  /** Euclid's identity for a positive divisor. */
  lemma DivMod(x: int, d: int)
    requires d > 0
    ensures x == d * (x / d) + x % d && 0 <= x % d < d
  {
  }

  /** Euclidean quotient and remainder are unique. */
  lemma DivModUnique(x: int, d: int, q: int, r: int)
    requires d > 0 && 0 <= r < d && x == q * d + r
    ensures x / d == q && x % d == r
  {
    var k := q - x / d;
    assert d * k == x % d - r by {
      assert x == d * (x / d) + x % d;
      assert d * q == d * (x / d) + d * k;
    }
  }

  /** Dividing by a*b is dividing by a then by b; the remainder splits accordingly. */
  lemma DivModNested(x: int, a: int, b: int)
    requires a > 0 && b > 0
    ensures a * b > 0
    ensures x / (a * b) == (x / a) / b
    ensures x % (a * b) == a * ((x / a) % b) + x % a
  {
    var q, r := x / a, x % a;
    var q2, r2 := q / b, q % b;
    DivMod(x, a);
    DivMod(q, b);
    Regroup(a, b, q, q2, r2);
    BelowProduct(a, b, r2, r);
    DivModUnique(x, a * b, q2, a * r2 + r);
  }

  /** a * (b * q2 + r2) == (a * b) * q2 + a * r2 */
  lemma Regroup(a: int, b: int, q: int, q2: int, r2: int)
    requires q == b * q2 + r2
    ensures a * q == (a * b) * q2 + a * r2
  {
    assert a * q == a * (b * q2) + a * r2;
  }

  /** A digit r2 < b in place a, plus r < a, stays below a * b. */
  lemma BelowProduct(a: int, b: int, r2: int, r: int)
    requires 0 <= r2 < b && 0 <= r < a
    ensures 0 <= a * r2 + r < a * b && a * b > 0
  {
    assert a * r2 <= a * (b - 1);
  }

  /** Scaling a value by c scales its remainder modulo b*c by c. */
  lemma ModScaled(a: int, b: int, c: int)
    requires b > 0 && c > 0
    ensures (a * c) % (c * b) == (a % b) * c
    ensures (a * c) / (c * b) == a / b
  {
    DivModUnique(a * c, c, a, 0);
    DivModNested(a * c, c, b);
  }

  /** One more `>> 8` divides by one more power of 256. */
  lemma ShiftStep(x: int, k: nat)
    ensures (x / Pow256(k)) / 256 == x / Pow256(k + 1)
  {
    DivModNested(x, Pow256(k), 256);
  }

  lemma Pow256Monotone(m: nat, n: nat)
    requires m <= n
    ensures Pow256(m) <= Pow256(n)
  {
    if m < n {
      Pow256Monotone(m, n - 1);
    }
  }

  /** 2^(m+n) == 2^m * 2^n */
  lemma {:induction false} Pow2Add(m: nat, n: nat)
    ensures Pow2(m + n) == Pow2(m) * Pow2(n)
  {
    if n > 0 {
      Pow2Add(m, n - 1);
      assert Pow2(m + n) == 2 * Pow2(m + n - 1);
    }
  }

  /** 256^n == 2^(8n) */
  lemma {:induction false} Pow256IsPow2(n: nat)
    ensures Pow256(n) == Pow2(8 * n)
  {
    if n > 0 {
      Pow256IsPow2(n - 1);
      Pow2Add(8 * (n - 1), 8);
      assert Pow2(8) == 256;
    }
  }
}
