/** Conversion of digit strings between two bases, one input digit at a time, keeping leading zeros. */
module Radix {
  import opened Arith
  import opened Digits

  /** The digits of `v`, least significant first; zero has one digit. */
  function DigitsOf(base: nat, v: nat): seq<nat>
    requires base >= 2
    decreases v
  {
    if v < base then [v]
    else
      QuotLess(v, base);
      [Mod(v, base)] + DigitsOf(base, Quot(v, base))
  }

  /** The value of a digit string, most significant first. */
  function Horner(base: nat, ds: seq<nat>): nat {
    if ds == [] then 0 else Times(Horner(base, ds[..|ds| - 1]), base) + ds[|ds| - 1]
  }

  function Reverse<T>(s: seq<T>): (r: seq<T>)
    ensures |r| == |s| && forall i | 0 <= i < |s| :: r[i] == s[|s| - 1 - i]
  {
    if s == [] then [] else [s[|s| - 1]] + Reverse(s[..|s| - 1])
  }

  function Zeros(n: nat): seq<nat> {
    seq(n, _ => 0)
  }

  /** `take_while(zero).count()`. */
  function Lead(ds: seq<nat>): (n: nat)
    ensures n <= |ds| && ds[..n] == Zeros(n) && (n < |ds| ==> ds[n] != 0)
  {
    if ds != [] && ds[0] == 0 then
      var n := 1 + Lead(ds[1..]);
      assert ds[..n] == [0] + ds[1..][..n - 1];
      n
    else 0
  }

  /** Rewrite `ds` from base `from` to base `to`: one zero for each leading zero, then all the digits of the number. */
  function Convert(from: nat, to: nat, ds: seq<nat>): seq<nat>
    requires to >= 2
  {
    Zeros(Lead(ds)) + Reverse(DigitsOf(to, Horner(from, ds)))
  }

  // ---------------------------------------------------------------------------------------------
  // The digits of a number

  /** No superfluous high zero. */
  predicate Trimmed(ds: seq<nat>) {
    ds != [] && (|ds| > 1 ==> ds[|ds| - 1] != 0)
  }

  lemma {:induction false} DigitsOfNumber(base: nat, v: nat)
    requires base >= 2
    ensures var ds := DigitsOf(base, v);
      AllBelow(base, ds) && Trimmed(ds) && Value(base, ds) == v && (v > 0 ==> ds[|ds| - 1] != 0)
    decreases v
  {
    hide Quot, Mod;
    var ds := DigitsOf(base, v);
    if v >= base {
      var q := Quot(v, base);
      QuotLess(v, base);
      DigitsOfNumber(base, q);
      assert ds[1..] == DigitsOf(base, q);
      assert q > 0 by { assert q == 0 ==> Times(q, base) == 0; }
    } else {
      assert ds[1..] == [];
    }
  }

  lemma {:induction false} TrimmedIsPositive(base: nat, ds: seq<nat>)
    requires base >= 2 && ds != [] && ds[|ds| - 1] != 0
    ensures Value(base, ds) > 0
  {
    if |ds| > 1 {
      TrimmedIsPositive(base, ds[1..]);
    }
  }

  /** A trimmed digit string is the only one of its number. */
  lemma {:induction false} TrimmedIsUnique(base: nat, ds: seq<nat>)
    requires base >= 2 && AllBelow(base, ds) && Trimmed(ds)
    ensures ds == DigitsOf(base, Value(base, ds))
  {
    var rest := Value(base, ds[1..]);
    if |ds| > 1 {
      TrimmedIsUnique(base, ds[1..]);
      TrimmedIsPositive(base, ds[1..]);
      ProductAtLeast(rest, base);
      DivUnique(Value(base, ds), base, rest, ds[0]);
    } else {
      assert ds[1..] == [] && ds == [ds[0]];
    }
  }

  // ---------------------------------------------------------------------------------------------
  // The loops

  lemma ValuePush(base: nat, ds: seq<nat>, d: nat)
    ensures Value(base, ds + [d]) == Value(base, ds) + Power(base, |ds|) * d
  {
    ValueSplit(base, ds + [d], |ds|);
    assert (ds + [d])[..|ds|] == ds && (ds + [d])[|ds|..] == [d];
    assert Value(base, [d]) == d + base * Value(base, []);
  }

  /** The carry stays below the multiplier, and the sum before it is split below the product of the bases. */
  lemma CarryStays(base: nat, mult: nat, carry: nat, d: nat)
    requires base >= 1 && carry < mult && d < base
    ensures carry + Times(d, mult) < Times(base, mult)
    ensures Quot(carry + Times(d, mult), base) < mult
  {
    var t := carry + d * mult;
    NextProduct(d, mult);
    ProductMonotone(d + 1, base, mult);
    var q := Quot(t, base);
    assert mult <= q ==> mult * base <= q * base by {
      if mult <= q {
        ProductMonotone(mult, q, base);
      }
    }
  }

  /** Splitting `carry + d * mult` into a digit and the next carry keeps the sum. */
  lemma SplitKeepsSum(base: nat, mult: nat, p: nat, done: nat, src: nat, c: nat, carry: nat, d: nat)
    requires base >= 1 && done + p * carry == src * mult + c
    ensures var t := carry + Times(d, mult);
      done + p * Mod(t, base) + (base * p) * Quot(t, base) == (src + p * d) * mult + c
  {
    var t := carry + d * mult;
    var q, m := Quot(t, base), Mod(t, base);
    assert t == base * q + m;
    assert p * m + base * p * q == p * t by {
      assert p * (base * q + m) == p * (base * q) + p * m;
      assert p * (base * q) == base * p * q;
    }
    assert p * t == p * carry + p * d * mult by {
      assert p * (carry + d * mult) == p * carry + p * (d * mult);
      assert p * (d * mult) == p * d * mult;
    }
    assert (src + p * d) * mult == src * mult + p * d * mult;
  }

  /** The lowest `i` digits and the carry together hold the product of the digits already read. */
  ghost predicate Shifted(base: nat, mult: nat, low: seq<nat>, carry: nat, source: seq<nat>, c: nat) {
    |low| == |source| && Value(base, low) + Power(base, |low|) * carry == Value(base, source) * mult + c
  }

  lemma ShiftDigit(base: nat, mult: nat, low: seq<nat>, carry: nat, source: seq<nat>, c: nat, d: nat)
    requires base >= 1 && Shifted(base, mult, low, carry, source, c)
    ensures var t := carry + Times(d, mult);
      Shifted(base, mult, low + [Mod(t, base)], Quot(t, base), source + [d], c)
  {
    hide Quot, Mod;
    var t := carry + Times(d, mult);
    ValuePush(base, source, d);
    ValuePush(base, low, Mod(t, base));
    SplitKeepsSum(base, mult, Power(base, |low|), Value(base, low), Value(base, source), c, carry, d);
  }

  /** Multiply the number in `digits` by `mult` and add `c`: the loop over the digits, then the pushed carries. */
  method ShiftIn(base: nat, mult: nat, digits: seq<nat>, c: nat, ghost v: nat) returns (r: seq<nat>)
    requires base >= 2 && c < mult && digits == DigitsOf(base, v)
    ensures r == DigitsOf(base, Times(v, mult) + c)
  {
    hide Quot, Mod, DigitsOf, Power, Value;
    DigitsOfNumber(base, v);
    r := digits;
    var carry: nat := c;
    assert Shifted(base, mult, r[..0], carry, digits[..0], c) by { NothingShifted(base, mult, c); }
    for i := 0 to |digits|
      invariant |r| == |digits| && r[i..] == digits[i..] && AllBelow(base, r)
      invariant carry < mult
      invariant Shifted(base, mult, r[..i], carry, digits[..i], c)
    {
      ghost var was := r;
      assert r[i] == r[i..][0] == digits[i..][0];
      CarryStays(base, mult, carry, r[i]);
      ShiftDigit(base, mult, r[..i], carry, digits[..i], c, r[i]);
      carry := carry + Times(r[i], mult);
      r := r[i := Mod(carry, base)];
      carry := Quot(carry, base);
      assert r[..i + 1] == was[..i] + [r[i]] && digits[..i + 1] == digits[..i] + [digits[i]];
      assert r[i + 1..] == was[i..][1..] == digits[i..][1..] == digits[i + 1..];
    }
    assert r[..|digits|] == r && digits[..|digits|] == digits;
    ghost var source := digits;
    while carry > 0
      invariant |r| >= |digits| && AllBelow(base, r)
      invariant Shifted(base, mult, r, carry, source, c) && Value(base, source) == v
      invariant |r| > |digits| && carry == 0 ==> r[|r| - 1] != 0
      decreases carry
    {
      PushZero(base, source);
      ShiftDigit(base, mult, r, carry, source, c, 0);
      QuotLess(carry, base);
      assert carry + Times(0, mult) == carry;
      assert Quot(carry, base) == 0 ==> Mod(carry, base) == carry by { assert Times(0, base) == 0; }
      r := r + [Mod(carry, base)];
      carry := Quot(carry, base);
      source := source + [0];
    }
    assert Value(base, r) == Times(v, mult) + c by { assert Power(base, |r|) * 0 == 0; }
    if |r| == |digits| {
      NothingPushed(base, mult, digits, r, c);
    }
    TrimmedIsUnique(base, r);
  }

  lemma NothingShifted(base: nat, mult: nat, c: nat)
    ensures Shifted(base, mult, [], c, [], c)
  {
  }

  lemma PushZero(base: nat, ds: seq<nat>)
    ensures Value(base, ds + [0]) == Value(base, ds)
  {
    ValuePush(base, ds, 0);
  }

  lemma PrefixBelow(base: nat, ds: seq<nat>, n: nat)
    requires AllBelow(base, ds) && n <= |ds|
    ensures AllBelow(base, ds[..n])
  {
  }

  /** Without a push the top digit stays nonzero, since the number did not shrink. */
  lemma NothingPushed(base: nat, mult: nat, digits: seq<nat>, r: seq<nat>, c: nat)
    requires base >= 2 && mult >= 1 && Trimmed(digits) && AllBelow(base, r) && |r| == |digits|
    requires Value(base, r) == Times(Value(base, digits), mult) + c
    ensures Trimmed(r)
  {
    hide Value, Power, AllBelow;
    var n := |r| - 1;
    if n > 0 {
      assert digits == digits[..n] + [digits[n]] && r == r[..n] + [r[n]];
      ValuePush(base, digits[..n], digits[n]);
      ValuePush(base, r[..n], r[n]);
      assert AllBelow(base, r[..n]) by { PrefixBelow(base, r, n); }
      ValueBelowPower(base, r[..n]);
      ProductAtLeast(digits[n], Power(base, n));
      ProductMonotone(1, mult, Value(base, digits));
    }
  }

  /** One pass of the outer loop of either direction: read the digit at `i`. */
  lemma NextDigit(from: nat, ds: seq<nat>, i: nat)
    requires i < |ds|
    ensures Horner(from, ds[..i + 1]) == Times(Horner(from, ds[..i]), from) + ds[i]
  {
    assert ds[..i + 1][..i] == ds[..i];
  }

  // ---------------------------------------------------------------------------------------------
  // Round trip

  lemma {:induction false} HornerIsValue(base: nat, ds: seq<nat>)
    ensures Horner(base, ds) == Value(base, Reverse(ds))
  {
    if ds != [] {
      HornerIsValue(base, ds[..|ds| - 1]);
      assert Reverse(ds)[1..] == Reverse(ds[..|ds| - 1]);
    }
  }

  lemma {:induction false} HornerSkipsZeros(base: nat, n: nat, ds: seq<nat>)
    ensures Horner(base, Zeros(n) + ds) == Horner(base, ds)
    decreases n + |ds|
  {
    var s := Zeros(n) + ds;
    if ds != [] {
      assert s[..|s| - 1] == Zeros(n) + ds[..|ds| - 1];
      HornerSkipsZeros(base, n, ds[..|ds| - 1]);
    } else if n > 0 {
      assert s[..|s| - 1] == Zeros(n - 1) + [];
      HornerSkipsZeros(base, n - 1, []);
    }
  }

  lemma ReverseTwice<T>(s: seq<T>)
    ensures Reverse(Reverse(s)) == s
  {
  }

  /** Zeros before a nonzero digit are exactly the leading ones. */
  lemma {:induction false} LeadOf(n: nat, t: seq<nat>)
    requires t != [] && t[0] != 0
    ensures Lead(Zeros(n) + t) == n
  {
    if n > 0 {
      assert (Zeros(n) + t)[1..] == Zeros(n - 1) + t;
      LeadOf(n - 1, t);
    }
  }

  lemma LeadIs(ds: seq<nat>, n: nat)
    requires n <= |ds| && (forall i | 0 <= i < n :: ds[i] == 0) && (n < |ds| ==> ds[n] != 0)
    ensures Lead(ds) == n
  {
    if n < |ds| {
      LeadOf(n, ds[n..]);
      assert Zeros(n) + ds[n..] == ds;
    }
  }

  predicate HasNonzero(ds: seq<nat>) {
    exists i | 0 <= i < |ds| :: ds[i] != 0
  }

  lemma ConvertNonzero(from: nat, to: nat, z: nat, t: seq<nat>)
    requires from >= 2 && to >= 2 && AllBelow(from, t) && t != [] && t[0] != 0
    ensures var e := Reverse(DigitsOf(to, Horner(from, t)));
      && Convert(from, to, Zeros(z) + t) == Zeros(z) + e
      && AllBelow(to, e) && e != [] && e[0] != 0
      && Horner(to, e) == Horner(from, t)
      && t == Reverse(DigitsOf(from, Horner(from, t)))
  {
    var v := Horner(from, t);
    var ds := DigitsOf(to, v);
    LeadOf(z, t);
    HornerSkipsZeros(from, z, t);
    HornerIsValue(from, t);
    TrimmedIsPositive(from, Reverse(t));
    TrimmedIsUnique(from, Reverse(t));
    ReverseTwice(t);
    DigitsOfNumber(to, v);
    HornerIsValue(to, Reverse(ds));
    ReverseTwice(ds);
  }

  lemma ConvertZeros(from: nat, to: nat, n: nat)
    requires to >= 2
    ensures Convert(from, to, Zeros(n)) == Zeros(n + 1)
  {
    var s := Zeros(n);
    HornerSkipsZeros(from, n, []);
    assert Zeros(n) + [] == s;
    assert Lead(s) == n;
  }

  lemma RoundTripNonzero(from: nat, to: nat, z: nat, t: seq<nat>)
    requires from >= 2 && to >= 2 && AllBelow(from, t) && t != [] && t[0] != 0
    ensures var ds := Zeros(z) + t;
      && AllBelow(to, Convert(from, to, ds)) && HasNonzero(Convert(from, to, ds))
      && Convert(to, from, Convert(from, to, ds)) == ds
  {
    hide Convert, DigitsOf, Horner, Reverse;
    ConvertNonzero(from, to, z, t);
    var e := Reverse(DigitsOf(to, Horner(from, t)));
    ConvertNonzero(to, from, z, e);
    assert (Zeros(z) + e)[z] != 0;
  }

  /** Converting there and back is the identity exactly on the strings with a nonzero digit;
      a string of zeros gains one zero each way. */
  lemma RoundTripIff(from: nat, to: nat, ds: seq<nat>)
    requires from >= 2 && to >= 2 && AllBelow(from, ds)
    ensures AllBelow(to, Convert(from, to, ds)) && (HasNonzero(Convert(from, to, ds)) <==> HasNonzero(ds))
    ensures Convert(to, from, Convert(from, to, ds)) == ds <==> HasNonzero(ds)
    ensures !HasNonzero(ds) ==> Convert(to, from, Convert(from, to, ds)) == ds + [0, 0]
  {
    hide Convert;
    var z := Lead(ds);
    var t := ds[z..];
    assert ds == Zeros(z) + t;
    if z < |ds| {
      RoundTripNonzero(from, to, z, t);
      assert ds[z] != 0;
    } else {
      assert ds == Zeros(z);
      ConvertZeros(from, to, z);
      ConvertZeros(to, from, z + 1);
      assert ds + [0, 0] == Zeros(z + 2);
    }
  }
}
