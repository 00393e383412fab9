/** Powers of two, and small facts about products, quotients and slices. */
module Arith {

  function Pow2(n: nat): (p: nat)
    ensures p >= 1
  {
    if n == 0 then 1 else 2 * Pow2(n - 1)
  }

  function Min(a: nat, b: nat): nat {
    if a < b then a else b
  }

  function Mod(a: nat, n: nat): (r: nat)
    requires n > 0
    ensures r < n
  {
    a % n
  }

  function Times(a: nat, b: nat): nat {
    a * b
  }

  lemma DoubleProduct(j: int, half: int)
    ensures j * (2 * half) == 2 * (j * half)
  {
  }

  lemma NextProduct(j: int, d: int)
    ensures (j + 1) * d == j * d + d
  {
  }

  lemma ProductMonotone(a: int, b: int, c: int)
    requires a <= b && 0 <= c
    ensures a * c <= b * c
  {
  }

  lemma ProductAtLeast(a: int, c: int)
    requires a >= 1 && c >= 0
    ensures a * c >= c
  {
  }

  /** Quotient and remainder are determined by the division equation. */
  lemma DivUnique(x: int, d: int, q: int, r: int)
    requires d > 0 && 0 <= r < d && x == q * d + r
    ensures x / d == q && x % d == r
  {
    var dq := x / d - q;
    assert dq * d == r - x % d;
    if dq >= 1 {
      ProductAtLeast(dq, d);
    } else if dq <= -1 {
      ProductAtLeast(-dq, d);
    }
  }

  function Quot(a: nat, n: nat): (q: nat)
    requires n > 0
    ensures a == Times(q, n) + Mod(a, n)
  {
    a / n
  }

  lemma QuotLess(a: nat, n: nat)
    requires n >= 2 && a > 0
    ensures Quot(a, n) < a
  {
    var q := Quot(a, n);
    ProductMonotone(2, n, q);
  }

  lemma {:induction false} Pow2Add(a: nat, b: nat)
    ensures Pow2(a + b) == Pow2(a) * Pow2(b)
  {
    if a > 0 {
      Pow2Add(a - 1, b);
    }
  }

  lemma {:induction false} Pow2Monotone(a: nat, b: nat)
    requires a <= b
    ensures Pow2(a) <= Pow2(b)
  {
    if a < b {
      Pow2Monotone(a, b - 1);
    }
  }

  lemma Pow2Doubles(n: nat, p: nat)
    requires Pow2(n) == p
    ensures Pow2(2 * n) == p * p
  {
    Pow2Add(n, n);
  }

  lemma Pow2Of64()
    ensures Pow2(64) == 0x1_0000_0000_0000_0000
  {
    Pow2Doubles(4, 16);
    Pow2Doubles(8, 0x100);
    Pow2Doubles(16, 0x1_0000);
    Pow2Doubles(32, 0x1_0000_0000);
  }

  lemma SubSlice<T>(s: seq<T>, start: nat, n: nat, a: nat, b: nat)
    requires start + n <= |s| && a <= b <= n
    ensures s[start..start + n][a..b] == s[start + a..start + b]
  {
    var l, r := s[start..start + n][a..b], s[start + a..start + b];
    forall k | 0 <= k < |l| ensures l[k] == r[k] {
    }
    assert l == r;
  }
}
