/** The kernel's remainder by a multiply and a shift, and the host's search for its constant. */
module ModMagic {
  import opened Arith
  import opened Bytes

  datatype Magic = Magic(magic: nat, shift: nat)

  /** `mulhi64`: the high half of the 128-bit product. */
  function MulHi(a: nat, b: nat): nat {
    a * b / TWO64
  }

  /** `fast_mod` in the kernel and `check` on the host: plain `%` when the magic is zero; otherwise the
      subtraction and the product wrap at 64 bits. */
  function FastMod(a: nat, m: Magic, d: nat): nat
    requires d > 0
  {
    if m.magic == 0 then a % d else (a - MulHi(a, m.magic) / Pow2(m.shift) * d) % TWO64
  }

  /** floor(log2 d), that is 63 less the leading zeros. */
  function Log2(d: nat): nat
    requires d > 0
  {
    if d == 1 then 0 else 1 + Log2(d / 2)
  }

  /** The ceiling of `big / d`: a multiple of `d` at least `big` and less than `d` above it. */
  function CeilQuot(big: nat, d: nat): (m: nat)
    requires d > 0
    ensures big <= d * m < big + d
  {
    (big + d - 1) / d
  }

  /** The numerator of a candidate; a release build takes the shift amount modulo 128. */
  function CandidateMagic(d: nat, shift: nat): nat
    requires d > 0
  {
    CeilQuot(Pow2((64 + shift) % 128), d)
  }

  /** At shift 64 the amount has wrapped to zero and the candidate is one, whatever the divisor. */
  lemma WrappedCandidate(d: nat)
    requires d > 0
    ensures CandidateMagic(d, 64) == 1
  {
    assert Pow2(0) == 1;
  }

  /** The structured inputs of the self-test. */
  function EdgeCases(d: nat): seq<nat>
    requires d > 0
  {
    [0, 1, d - 1, d, (d + 1) % TWO64, TWO64 - 1,
     (2 * d - 1) % TWO64, 2 * d % TWO64, (2 * d + 1) % TWO64, 3 * d % TWO64]
  }

  predicate Matches(m: Magic, d: nat, inputs: seq<nat>)
    requires d > 0
  {
    forall i | 0 <= i < |inputs| :: FastMod(inputs[i], m, d) == inputs[i] % d
  }

  /** What the self-test decides on a list of pseudo-random samples. */
  predicate Verified(m: Magic, d: nat, samples: seq<nat>)
    requires d > 0
  {
    m.magic != 0 && m.shift <= 63 && Matches(m, d, samples) && Matches(m, d, EdgeCases(d))
  }

  method CheckAll(m: Magic, d: nat, inputs: seq<nat>) returns (ok: bool)
    requires d > 0
    ensures ok <==> Matches(m, d, inputs)
  {
    hide FastMod;
    for i := 0 to |inputs|
      invariant forall j | 0 <= j < i :: FastMod(inputs[j], m, d) == inputs[j] % d
    {
      if FastMod(inputs[i], m, d) != inputs[i] % d {
        return false;
      }
    }
    return true;
  }

  method VerifyModMagic(m: Magic, d: nat, samples: seq<nat>) returns (ok: bool)
    requires d > 0
    ensures ok <==> Verified(m, d, samples)
  {
    hide Matches, EdgeCases;
    if m.magic == 0 || m.shift > 63 {
      return false;
    }
    ok := CheckAll(m, d, samples);
    if ok {
      ok := CheckAll(m, d, EdgeCases(d));
    }
  }

  // ---------------------------------------------------------------------------------------------
  // The shape of the constant

  lemma {:induction false} Log2Brackets(d: nat)
    requires d > 0
    ensures Pow2(Log2(d)) <= d < 2 * Pow2(Log2(d))
  {
    if d > 1 {
      Log2Brackets(d / 2);
    }
  }

  lemma Log2Below64(d: nat)
    requires 0 < d < TWO64
    ensures Log2(d) <= 63
  {
    Log2Brackets(d);
    Pow2Of64();
    if Log2(d) >= 64 {
      Pow2Monotone(64, Log2(d));
    }
  }

  lemma ScaledPower(s: nat)
    ensures Pow2(64 + s) == TWO64 * Pow2(s)
  {
    Pow2Of64();
    Pow2Add(64, s);
  }

  lemma CandidateBrackets(d: nat, s: nat)
    requires d > 0 && s <= 63
    ensures TWO64 * Pow2(s) <= d * CandidateMagic(d, s) < TWO64 * Pow2(s) + d
  {
    hide CeilQuot, Pow2;
    ScaledPower(s);
    assert (64 + s) % 128 == 64 + s;
  }

  /** The first candidate fits 64 bits exactly when the divisor is no power of two. */
  lemma FirstCandidate(d: nat)
    requires 1 < d < TWO64
    ensures CandidateMagic(d, Log2(d)) < TWO64 <==> d != Pow2(Log2(d))
    ensures CandidateMagic(d, Log2(d)) > 0
    ensures Pow2(64 + Log2(d)) <= d * CandidateMagic(d, Log2(d)) < Pow2(64 + Log2(d)) + d
  {
    hide Pow2, Log2, CandidateMagic;
    var s := Log2(d);
    var m := CandidateMagic(d, s);
    Log2Below64(d);
    Log2Brackets(d);
    ScaledPower(s);
    CandidateBrackets(d, s);
    CandidateFits(d, Pow2(s), m);
  }

  lemma CandidateFits(d: nat, s: nat, m: nat)
    requires 0 < s <= d < 2 * s && d < TWO64 && TWO64 * s <= d * m < TWO64 * s + d
    ensures m < TWO64 <==> d != s
    ensures m > 0
  {
    assert m == 0 ==> d * m == 0;
    if d == s && m < TWO64 {
      ProductMonotone(m + 1, TWO64, d);
    }
    if d != s && m >= TWO64 {
      ProductMonotone(TWO64, m, d);
      ProductMonotone(s + 1, d, TWO64);
    }
  }

  /** Later candidates overflow 64 bits, or their shift is refused. */
  lemma LaterCandidate(d: nat, extra: nat)
    requires 1 < d < TWO64 && 1 <= extra
    ensures Log2(d) + extra > 63 || CandidateMagic(d, Log2(d) + extra) >= TWO64
  {
    hide Pow2, Log2, CandidateMagic;
    var s := Log2(d) + extra;
    if s <= 63 {
      Log2Brackets(d);
      PowAbove(Log2(d), s, d);
      CandidateBrackets(d, s);
      LaterOverflows(d, Pow2(s), CandidateMagic(d, s));
    }
  }

  lemma PowAbove(l: nat, s: nat, d: nat)
    requires l < s && d < 2 * Pow2(l)
    ensures d < Pow2(s)
  {
    Pow2Monotone(l + 1, s);
  }

  lemma LaterOverflows(d: nat, s: nat, m: nat)
    requires 0 < d <= s && TWO64 * s <= d * m
    ensures m >= TWO64
  {
    if m < TWO64 {
      ProductMonotone(m + 1, TWO64, d);
      ProductMonotone(d, s, TWO64);
    }
  }

  /** `magic` is the rounded-up scaled reciprocal of `d`, which is no power of two. */
  ghost predicate IsReciprocal(m: Magic, d: nat) {
    && d > 1
    && m.shift == Log2(d) <= 63
    && Pow2(m.shift) < d < 2 * Pow2(m.shift)
    && 0 < m.magic < TWO64
    && Pow2(64 + m.shift) <= d * m.magic < Pow2(64 + m.shift) + d
  }

  /** `mod_magic`: a nonzero result is the reciprocal at the least shift, and it passed the self-test;
      zero is returned exactly for powers of two, for `d <= 1`, and when the self-test fails. */
  method FindMagic(d: nat, samples: seq<nat>) returns (m: Magic)
    requires d < TWO64
    ensures m.magic != 0 ==> IsReciprocal(m, d) && Verified(m, d, samples)
    ensures m.magic == 0 <==>
              d <= 1 || d == Pow2(Log2(d)) || !Verified(Magic(CandidateMagic(d, Log2(d)), Log2(d)), d, samples)
  {
    if d <= 1 {
      return Magic(0, 0);
    }
    hide Verified, CandidateMagic, Log2, Pow2;
    var p := Log2(d) + 1;
    FirstCandidate(d);
    Log2Below64(d);
    Log2Brackets(d);
    for extra := 0 to 64
      invariant extra > 0 ==> d == Pow2(Log2(d)) || !Verified(Magic(CandidateMagic(d, Log2(d)), Log2(d)), d, samples)
    {
      var shift := p - 1 + extra;
      var num := CandidateMagic(d, shift);
      if extra > 0 {
        LaterCandidate(d, extra);
        HighShiftRefused(Magic(num, shift), d, samples);
      }
      if num > TWO64 - 1 {
        continue;
      }
      var candidate := Magic(num, shift);
      var ok := VerifyModMagic(candidate, d, samples);
      if ok {
        return candidate;
      }
    }
    return Magic(0, 0);
  }

  lemma HighShiftRefused(m: Magic, d: nat, samples: seq<nat>)
    requires d > 0
    ensures Verified(m, d, samples) ==> m.shift <= 63
  {
  }

  // ---------------------------------------------------------------------------------------------
  // When the reduction is exact

  /** The rounding error of the reciprocal. */
  function Excess(m: Magic, d: nat): int {
    d * m.magic - Pow2(64 + m.shift)
  }

  lemma DivideTwice(x: nat, a: nat, b: nat)
    requires a > 0 && b > 0
    ensures a * b > 0
    ensures x / a / b == x / (a * b)
  {
    ProductAtLeast(a, b);
    var y := x / a;
    var q := y / b;
    assert x == y * a + x % a;
    assert y == q * b + y % b;
    assert (q * b + y % b) * a == q * (a * b) + y % b * a by { assert q * b * a == q * (a * b); }
    ProductMonotone(y % b + 1, b, a);
    NextProduct(y % b, a);
    ProductMonotone(0, y % b, a);
    DivUnique(x, a * b, q, y % b * a + x % a);
  }

  /** Scaled by `d`, what the estimate exceeds the true quotient by. */
  lemma EstimateGap(a: int, magic: int, d: int, p: int, e: int, q: int, r: int)
    requires d * magic == p + e && a == q * d + r
    ensures (a * magic - q * p) * d == r * p + a * e
  {
    assert a * magic * d == a * (d * magic);
    assert a * (p + e) == a * p + a * e;
    assert a * p == q * d * p + r * p;
    assert (a * magic - q * p) * d == a * magic * d - q * p * d;
    assert q * p * d == q * d * p;
  }

  lemma QuotientCases(a: nat, magic: nat, d: nat, p: nat, e: nat, q: nat, r: nat)
    requires p > 0 && d >= 2 && r < d && a == q * d + r && d * magic == p + e && 0 <= a * e < 2 * p
    ensures a * magic / p == if r == d - 1 && a * e >= p then q + 1 else q
  {
    EstimateGap(a, magic, d, p, e, q, r);
    var x, qp := a * magic, q * p;
    GapBound(x - qp, d, r, p, a * e);
    QuotientFromGap(x, p, q, x - qp);
  }

  /** The estimated quotient is the true one, or one more in a single case. */
  lemma EstimatedQuotient(a: nat, magic: nat, d: nat, s: nat, e: nat)
    requires 0 < s < d < 2 * s && a < TWO64 && e < d
    requires d * magic == TWO64 * s + e
    ensures var q := a * magic / (TWO64 * s);
            q == if a % d == d - 1 && e * a >= TWO64 * s then a / d + 1 else a / d
  {
    ErrorBound(a, e, s, d);
    Swap(a, e);
    var q, r := a / d, a % d;
    assert a == q * d + r;
    QuotientCases(a, magic, d, TWO64 * s, e, q, r);
  }

  lemma Swap(a: int, e: int)
    ensures a * e == e * a
  {
  }

  lemma QuotientFromGap(x: nat, p: nat, q: nat, y: int)
    requires p > 0 && x == q * p + y && 0 <= y < 2 * p
    ensures x / p == if y < p then q else q + 1
  {
    NextProduct(q, p);
    if y < p {
      DivUnique(x, p, q, y);
    } else {
      DivUnique(x, p, q + 1, y - p);
    }
  }

  lemma ErrorBound(a: nat, e: nat, s: nat, d: nat)
    requires a < TWO64 && e < d < 2 * s
    ensures 0 <= a * e < 2 * (TWO64 * s)
  {
    ProductMonotone(0, a, e);
    ProductMonotone(a, TWO64, e);
    ProductMonotone(e, 2 * s - 1, TWO64);
  }

  lemma CancelLess(y: int, m: int, d: int)
    requires d > 0
    ensures y < m <==> y * d < m * d
  {
    if y < m {
      ProductMonotone(y + 1, m, d);
      NextProduct(y, d);
    } else {
      ProductMonotone(m, y, d);
    }
  }

  /** The remainder's row ends one or more rows before the last. */
  lemma RemainderRow(r: nat, d: nat, p: nat)
    requires r < d && d >= 2
    ensures 0 <= r * p && 2 * p <= d * p
    ensures r == d - 1 ==> r * p == d * p - p
    ensures r < d - 1 ==> r * p <= d * p - 2 * p
  {
    ProductMonotone(0, r, p);
    ProductMonotone(2, d, p);
    NextProduct(d - 1, p);
    NextProduct(d - 2, p);
    ProductMonotone(r, if r == d - 1 then d - 1 else d - 2, p);
  }

  lemma GapBound(y: int, d: nat, r: nat, p: nat, ae: nat)
    requires p > 0 && r < d && y * d == r * p + ae && 0 <= ae < 2 * p && d >= 2
    ensures 0 <= y < 2 * p
    ensures y < p <==> !(r == d - 1 && ae >= p)
  {
    RemainderRow(r, d, p);
    CancelLess(y, 0, d);
    CancelLess(y, p, d);
    CancelLess(y, 2 * p, d);
    assert p * d == d * p && 2 * p * d == 2 * (d * p);
  }

  /** The two-step estimate of the quotient by a reciprocal. */
  lemma EstimateOfReciprocal(a: nat, m: Magic, d: nat)
    requires IsReciprocal(m, d) && a < TWO64 && d < TWO64
    ensures MulHi(a, m.magic) / Pow2(m.shift)
         == if a % d == d - 1 && Excess(m, d) * a >= Pow2(64 + m.shift) then a / d + 1 else a / d
  {
    hide Pow2, Log2, Excess, IsReciprocal, MulHi;
    var s := Pow2(m.shift);
    ReciprocalFacts(m, d);
    EstimatedQuotient(a, m.magic, d, s, Excess(m, d));
    MulHiThenShift(a, m.magic, s);
  }

  lemma ReciprocalFacts(m: Magic, d: nat)
    requires IsReciprocal(m, d)
    ensures 0 < Pow2(m.shift) < d < 2 * Pow2(m.shift)
    ensures 0 <= Excess(m, d) < d
    ensures Pow2(64 + m.shift) == TWO64 * Pow2(m.shift)
    ensures d * m.magic == TWO64 * Pow2(m.shift) + Excess(m, d)
  {
    hide Pow2, Log2;
    ScaledPower(m.shift);
  }

  lemma MulHiThenShift(a: nat, magic: nat, s: nat)
    requires s > 0
    ensures MulHi(a, magic) / s == a * magic / (TWO64 * s)
  {
    DivideTwice(a * magic, TWO64, s);
  }

  /** The reduction by a reciprocal is exact for every 64-bit input except those that are one below a
      multiple of `d` and large against the rounding error; on these it is `2^64 - 1`. */
  lemma ReductionIsExactExcept(a: nat, m: Magic, d: nat)
    requires IsReciprocal(m, d) && a < TWO64 && d < TWO64
    ensures var wrong := a % d == d - 1 && Excess(m, d) * a >= Pow2(64 + m.shift);
            FastMod(a, m, d) == if wrong then TWO64 - 1 else a % d
    ensures FastMod(a, m, d) == a % d <==> !(a % d == d - 1 && Excess(m, d) * a >= Pow2(64 + m.shift))
  {
    hide Pow2, Log2, MulHi, Excess;
    EstimateOfReciprocal(a, m, d);
    ReduceBy(a, d);
  }

  /** Subtracting the right quotient leaves the remainder; subtracting one more wraps below zero. */
  lemma ReduceBy(a: nat, d: nat)
    requires 0 < d < TWO64 && a < TWO64
    ensures (a - a / d * d) % TWO64 == a % d
    ensures a % d == d - 1 ==> (a - (a / d + 1) * d) % TWO64 == TWO64 - 1
  {
    assert a == a / d * d + a % d;
    assert (a / d + 1) * d == a / d * d + d;
  }

  /** The largest 64-bit number that is one below a multiple of `d`. */
  function LastBelowMultiple(d: nat): int
    requires d > 0
  {
    TWO64 / d * d - 1
  }

  lemma LastBelowMultipleIsLast(d: nat, a: nat)
    requires 0 < d < TWO64 && a < TWO64 && a % d == d - 1
    ensures 0 <= a <= LastBelowMultiple(d) < TWO64
    ensures LastBelowMultiple(d) % d == d - 1
  {
    var q, n := a / d, TWO64 / d;
    assert a == q * d + (d - 1);
    assert (q + 1) * d == a + 1;
    assert TWO64 == n * d + TWO64 % d;
    NextProduct(n, d);
    if q >= n {
      ProductMonotone(n + 1, q + 1, d);
    }
    ProductMonotone(q + 1, n, d);
    assert n * d - 1 == (n - 1) * d + (d - 1);
    DivUnique(n * d - 1, d, n - 1, d - 1);
  }

  lemma ExcessOnLast(m: Magic, d: nat, a: nat)
    requires IsReciprocal(m, d) && a < TWO64 && d < TWO64
    requires Excess(m, d) * LastBelowMultiple(d) < Pow2(64 + m.shift)
    ensures FastMod(a, m, d) == a % d
  {
    hide FastMod, Log2, LastBelowMultiple, Excess, Pow2;
    ReductionIsExactExcept(a, m, d);
    if a % d == d - 1 {
      LastBelowMultipleIsLast(d, a);
      ExcessIsNat(m, d);
      ProductMonotone(a, LastBelowMultiple(d), Excess(m, d));
    }
  }

  lemma ExcessIsNat(m: Magic, d: nat)
    requires IsReciprocal(m, d)
    ensures 0 <= Excess(m, d) < d
  {
  }

  /** The closed form: the reduction is exact on all 64-bit inputs if and only if the rounding error times
      the last number below a multiple of `d` stays under `2^(64 + shift)`. */
  lemma ExactEverywhereIff(m: Magic, d: nat)
    requires IsReciprocal(m, d) && d < TWO64
    ensures (forall a: nat | a < TWO64 :: FastMod(a, m, d) == a % d)
            <==> Excess(m, d) * LastBelowMultiple(d) < Pow2(64 + m.shift)
  {
    hide FastMod, Log2, LastBelowMultiple, Excess, Pow2;
    if Excess(m, d) * LastBelowMultiple(d) < Pow2(64 + m.shift) {
      forall a: nat | a < TWO64
        ensures FastMod(a, m, d) == a % d
      {
        ExcessOnLast(m, d, a);
      }
    } else {
      DivUnique(d - 1, d, 0, d - 1);
      LastBelowMultipleIsLast(d, d - 1);
      var last: nat := LastBelowMultiple(d);
      ReductionIsExactExcept(last, m, d);
      assert FastMod(last, m, d) != last % d;
    }
  }

  /** A small rounding error is exact everywhere, and then every sample passes: the fast path is used. */
  lemma SmallExcessIsExact(m: Magic, d: nat, samples: seq<nat>)
    requires IsReciprocal(m, d) && d < TWO64 && Excess(m, d) <= Pow2(m.shift)
    requires forall i | 0 <= i < |samples| :: samples[i] < TWO64
    ensures forall a: nat | a < TWO64 :: FastMod(a, m, d) == a % d
    ensures Verified(m, d, samples)
  {
    hide FastMod, Log2;
    ScaledPower(m.shift);
    forall a: nat | a < TWO64
      ensures FastMod(a, m, d) == a % d
    {
      ReductionIsExactExcept(a, m, d);
      ProductMonotone(Excess(m, d), Pow2(m.shift), a);
      ProductMonotone(a + 1, TWO64, Pow2(m.shift));
      NextProduct(a, Pow2(m.shift));
    }
  }
}
