/** Numbers as little-endian digit strings in any base. */
module Digits {
  import opened Arith

  function Value(base: nat, ds: seq<nat>): nat {
    if ds == [] then 0 else ds[0] + base * Value(base, ds[1..])
  }

  function Power(base: nat, n: nat): nat {
    if n == 0 then 1 else base * Power(base, n - 1)
  }

  ghost predicate AllBelow(base: nat, ds: seq<nat>) {
    forall i | 0 <= i < |ds| :: ds[i] < base
  }

  lemma {:induction false} ValueSplit(base: nat, ds: seq<nat>, k: nat)
    requires k <= |ds|
    ensures Value(base, ds) == Value(base, ds[..k]) + Power(base, k) * Value(base, ds[k..])
  {
    if k == 0 {
      assert ds[0..] == ds;
    } else {
      var rest := ds[1..];
      ValueSplit(base, rest, k - 1);
      assert ds[..k][1..] == rest[..k - 1] && ds[k..] == rest[k - 1..];
      var p, t := Power(base, k - 1), Value(base, ds[k..]);
      assert base * (Value(base, rest[..k - 1]) + p * t) == base * Value(base, rest[..k - 1]) + base * p * t by {
        Distribute3(base, Value(base, rest[..k - 1]), p, t);
      }
    }
  }

  lemma Distribute3(b: int, v: int, p: int, t: int)
    ensures b * (v + p * t) == b * v + b * p * t
  {
    assert b * (p * t) == b * p * t;
  }

  lemma {:induction false} ValueBelowPower(base: nat, ds: seq<nat>)
    requires AllBelow(base, ds)
    ensures Value(base, ds) < Power(base, |ds|)
  {
    if ds != [] {
      ValueBelowPower(base, ds[1..]);
      ProductMonotone(Value(base, ds[1..]) + 1, Power(base, |ds| - 1), base);
      NextProduct(Value(base, ds[1..]), base);
    }
  }

  /** The highest digit in which two strings differ decides their order. */
  lemma {:induction false} HighestDigitDecides(base: nat, a: seq<nat>, b: seq<nat>, i: nat)
    requires AllBelow(base, a) && |a| == |b| && i < |a| && a[i + 1..] == b[i + 1..] && a[i] < b[i]
    ensures Value(base, a) < Value(base, b)
  {
    if i > 0 {
      assert a[1..][i..] == a[i + 1..] && b[1..][i..] == b[i + 1..];
      HighestDigitDecides(base, a[1..], b[1..], i - 1);
      ProductMonotone(Value(base, a[1..]) + 1, Value(base, b[1..]), base);
      NextProduct(Value(base, a[1..]), base);
    }
  }

  /** Digit strings of one length denote different numbers. */
  lemma {:induction false} ValueInjective(base: nat, a: seq<nat>, b: seq<nat>)
    requires AllBelow(base, a) && AllBelow(base, b) && |a| == |b| && Value(base, a) == Value(base, b)
    ensures a == b
  {
    if a != b {
      var i := HighestDifference(a, b);
      if a[i] < b[i] {
        HighestDigitDecides(base, a, b, i);
      } else {
        HighestDigitDecides(base, b, a, i);
      }
    }
  }

  /** The position of the highest digit in which two strings differ. */
  lemma {:induction false} HighestDifference(a: seq<nat>, b: seq<nat>) returns (i: nat)
    requires |a| == |b| && a != b
    ensures i < |a| && a[i] != b[i] && a[i + 1..] == b[i + 1..]
  {
    if a[1..] == b[1..] {
      i := 0;
    } else {
      i := HighestDifference(a[1..], b[1..]);
      assert a[1..][i + 1..] == a[i + 2..] && b[1..][i + 1..] == b[i + 2..];
      i := i + 1;
    }
  }

  /** The low `n` digits of `v`. */
  function LowDigits(base: nat, n: nat, v: nat): (ds: seq<nat>)
    requires base > 0
    ensures |ds| == n && AllBelow(base, ds)
  {
    if n == 0 then [] else [Mod(v, base)] + LowDigits(base, n - 1, Quot(v, base))
  }

  lemma {:induction false} LowDigitsOf(base: nat, n: nat, v: nat)
    requires base > 0 && v < Power(base, n)
    ensures Value(base, LowDigits(base, n, v)) == v
  {
    hide Mod, Quot;
    if n > 0 {
      var q := Quot(v, base);
      assert q < Power(base, n - 1) by {
        if q >= Power(base, n - 1) {
          ProductMonotone(Power(base, n - 1), q, base);
        }
      }
      LowDigitsOf(base, n - 1, q);
      assert LowDigits(base, n, v)[1..] == LowDigits(base, n - 1, q);
    }
  }

  /** `v` without its lowest `m` digits. */
  function Without(base: nat, m: nat, v: nat): nat
    requires base > 0
  {
    if m == 0 then v else Without(base, m - 1, Quot(v, base))
  }

  lemma {:induction false} LowDigitsSplit(base: nat, m: nat, n: nat, v: nat)
    requires base > 0
    ensures LowDigits(base, m + n, v) == LowDigits(base, m, v) + LowDigits(base, n, Without(base, m, v))
  {
    hide Mod, Quot;
    if m > 0 {
      LowDigitsSplit(base, m - 1, n, Quot(v, base));
    }
  }

  /** A number is its low digits plus the rest, shifted up. */
  lemma {:induction false} LowDigitsRemain(base: nat, n: nat, v: nat)
    requires base > 0
    ensures v == Without(base, n, v) * Power(base, n) + Value(base, LowDigits(base, n, v))
  {
    hide Mod, Quot;
    if n > 0 {
      var q := Quot(v, base);
      var w, p, l := Without(base, n - 1, q), Power(base, n - 1), LowDigits(base, n - 1, q);
      LowDigitsRemain(base, n - 1, q);
      assert LowDigits(base, n, v)[1..] == l;
      Recombine(base, w, p, Value(base, l), Mod(v, base));
    }
  }

  lemma Recombine(base: nat, w: nat, p: nat, low: nat, digit: nat)
    ensures w * (base * p) + (digit + base * low) == Times(w * p + low, base) + digit
  {
    Distribute3(base, low, p, w);
    assert base * p * w == w * (base * p);
  }

  /** Dropping the lowest `m` digits divides by the power of the base. */
  lemma {:induction false} WithoutIsQuotient(base: nat, m: nat, v: nat, q: nat, r: nat)
    requires base > 0 && v == q * Power(base, m) + r && r < Power(base, m)
    ensures Without(base, m, v) == q
  {
    hide Quot, Mod;
    if m > 0 {
      var p, h, l := Power(base, m - 1), Quot(r, base), Mod(r, base);
      QuotBelow(r, base, p);
      Regroup(base, p, q, h, l);
      QuotUnique(v, base, q * p + h, l);
      WithoutIsQuotient(base, m - 1, q * p + h, q, h);
    }
  }

  lemma QuotBelow(r: nat, base: nat, p: nat)
    requires base > 0 && r < base * p
    ensures Quot(r, base) < p
  {
    if Quot(r, base) >= p {
      ProductMonotone(p, Quot(r, base), base);
    }
  }

  lemma QuotUnique(v: nat, base: nat, q: nat, l: nat)
    requires l < base && v == q * base + l
    ensures Quot(v, base) == q
  {
    DivUnique(v, base, q, l);
  }

  lemma Regroup(base: nat, p: nat, q: nat, h: nat, l: nat)
    ensures q * (base * p) + (Times(h, base) + l) == (q * p + h) * base + l
  {
    assert q * (base * p) == q * p * base;
  }

  lemma {:induction false} NoDigits(base: nat, n: nat)
    requires base > 0
    ensures LowDigits(base, n, 0) == seq(n, _ => 0)
  {
    if n > 0 {
      NoDigits(base, n - 1);
      assert Mod(0, base) == 0 && Quot(0, base) == 0;
    }
  }

  lemma {:induction false} LargestDigits(base: nat, n: nat)
    requires base > 0
    ensures Power(base, n) > 0 && LowDigits(base, n, Power(base, n) - 1) == seq(n, _ => base - 1)
  {
    if n > 0 {
      LargestDigits(base, n - 1);
      var p := Power(base, n - 1);
      assert base * p - 1 == (p - 1) * base + (base - 1);
      DivUnique(base * p - 1, base, p - 1, base - 1);
      assert LowDigits(base, n, base * p - 1) == [base - 1] + LowDigits(base, n - 1, p - 1);
    }
  }
}
