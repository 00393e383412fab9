/** 256-bit numbers as four 64-bit limbs, least significant first: order, bytes, left shift and compact targets. */
module Uint256 {
  import opened Arith
  import opened Digits
  import opened Bytes
  import ByteOrder

  type Limbs = ds: seq<nat> | |ds| == 4 && AllBelow(TWO64, ds) witness [0, 0, 0, 0]

  /** The number the limbs denote. */
  function Num(x: seq<nat>): nat {
    Value(TWO64, x)
  }

  // ---------------------------------------------------------------------------------------------
  // Order

  datatype Ordering = Less | Equal | Greater

  /** The limbs compared from the top down, as `Iterator::cmp` does on the reversed arrays. */
  method Cmp(a: Limbs, b: Limbs) returns (o: Ordering)
    ensures o == if Num(a) < Num(b) then Less else if Num(a) == Num(b) then Equal else Greater
  {
    var i := 4;
    while i > 0
      invariant 0 <= i <= 4 && a[i..] == b[i..]
    {
      i := i - 1;
      if a[i] < b[i] {
        HighestDigitDecides(TWO64, a, b, i);
        return Less;
      }
      if a[i] > b[i] {
        HighestDigitDecides(TWO64, b, a, i);
        return Greater;
      }
      assert a[i..] == [a[i]] + a[i + 1..] && b[i..] == [b[i]] + b[i + 1..];
    }
    assert a[0..] == a && b[0..] == b;
    return Equal;
  }

  // ---------------------------------------------------------------------------------------------
  // Bytes

  /** The bytes of each limb in turn. */
  function Spread(xs: seq<nat>): (ds: seq<nat>)
    ensures |ds| == 8 * |xs|
  {
    if xs == [] then [] else LowDigits(256, 8, xs[0]) + Spread(xs[1..])
  }

  /** The number in each group of eight bytes. */
  function Gather(ds: seq<nat>): (xs: seq<nat>)
    requires |ds| % 8 == 0
    ensures 8 * |xs| == |ds|
  {
    if ds == [] then [] else [Value(256, ds[..8])] + Gather(ds[8..])
  }

  lemma {:induction false} GatherKeepsValue(ds: seq<nat>)
    requires |ds| % 8 == 0 && AllBelow(256, ds)
    ensures AllBelow(TWO64, Gather(ds)) && Num(Gather(ds)) == Value(256, ds)
  {
    hide Power;
    if ds != [] {
      GatherKeepsValue(ds[8..]);
      ValueSplit(256, ds, 8);
      ValueBelowPower(256, ds[..8]);
      EightBytes();
      assert Gather(ds)[1..] == Gather(ds[8..]);
    }
  }

  lemma {:induction false} GatherSpread(xs: seq<nat>)
    requires AllBelow(TWO64, xs)
    ensures AllBelow(256, Spread(xs)) && Gather(Spread(xs)) == xs
  {
    hide Power, LowDigits;
    if xs != [] {
      var low := LowDigits(256, 8, xs[0]);
      GatherSpread(xs[1..]);
      EightBytes();
      LowDigitsOf(256, 8, xs[0]);
      assert Spread(xs)[..8] == low && Spread(xs)[8..] == Spread(xs[1..]);
      assert Gather(Spread(xs)) == [xs[0]] + xs[1..];
    }
  }

  function ToLeBytes(x: Limbs): Bytes32 {
    GatherSpread(x);
    Bytewise(Spread(x))
  }

  function FromLeBytes(b: Bytes32): Limbs {
    NumsBelow(b);
    GatherKeepsValue(Nums(b));
    Gather(Nums(b))
  }

  /** The byte string denotes the same number. */
  lemma ToLeBytesValue(x: Limbs)
    ensures LeValue(ToLeBytes(x)) == Num(x)
  {
    GatherSpread(x);
    NumsBytewise(Spread(x));
    GatherKeepsValue(Spread(x));
  }

  lemma FromLeBytesValue(b: Bytes32)
    ensures Num(FromLeBytes(b)) == LeValue(b)
  {
    NumsBelow(b);
    GatherKeepsValue(Nums(b));
  }

  /** Limbs and bytes convert back and forth without loss. */
  lemma LimbsRoundTrip(x: Limbs)
    ensures FromLeBytes(ToLeBytes(x)) == x
  {
    ToLeBytesValue(x);
    FromLeBytesValue(ToLeBytes(x));
    ValueInjective(TWO64, FromLeBytes(ToLeBytes(x)), x);
  }

  lemma BytesRoundTrip(b: Bytes32)
    ensures ToLeBytes(FromLeBytes(b)) == b
  {
    var c := ToLeBytes(FromLeBytes(b));
    FromLeBytesValue(b);
    ToLeBytesValue(FromLeBytes(b));
    NumsBelow(b);
    NumsBelow(c);
    ValueInjective(256, Nums(c), Nums(b));
    BytewiseNums(b);
    BytewiseNums(c);
  }

  /** The host's byte test, the kernel's word test and the limb order decide the same thing about two targets. */
  lemma OneOrder(a: Limbs, b: Limbs)
    ensures Num(a) <= Num(b) <==> LeValue(ToLeBytes(a)) <= LeValue(ToLeBytes(b))
    ensures Num(a) <= Num(b) <==> ByteOrder.PomLeLeq(ChunkToWords(ToLeBytes(a)), ChunkToWords(ToLeBytes(b)))
  {
    hide ToLeBytes, ChunkToWords, WordsToBytes, LeValue, Num, ByteOrder.PomLeLeq;
    ToLeBytesValue(a);
    ToLeBytesValue(b);
    ByteOrder.PomLeLeqIsNumeric(ChunkToWords(ToLeBytes(a)), ChunkToWords(ToLeBytes(b)));
    ChunkRoundTrip(ToLeBytes(a));
    ChunkRoundTrip(ToLeBytes(b));
  }

  // ---------------------------------------------------------------------------------------------
  // Shift

  /** A limb times `p`, modulo the limb: what `<<` keeps. */
  function Lo(x: nat, p: nat): (r: nat)
    ensures r < TWO64
  {
    Mod(Times(x, p), TWO64)
  }

  /** What `<<` pushes out of a limb. */
  function Hi(x: nat, p: nat): nat {
    Quot(Times(x, p), TWO64)
  }

  /** With `p * q` one limb, `>> (64 - bit_shift)` is division by `q`; the part kept leaves room for a part pushed
      out of another limb. */
  lemma LoHi(x: nat, y: nat, p: nat, q: nat)
    requires x < TWO64 && y < TWO64 && p * q == TWO64
    ensures Hi(x, p) == x / q && Lo(x, p) + Hi(y, p) < TWO64
  {
    var a, b := x / q, x % q;
    ProductMonotone(b + 1, q, p);
    NextProduct(b, p);
    RegroupLimb(x, p, q, a, b);
    DivUnique(x * p, TWO64, a, b * p);
    HiBelow(y, p);
  }

  lemma RegroupLimb(x: nat, p: nat, q: nat, a: nat, b: nat)
    requires x == q * a + b && p * q == TWO64
    ensures x * p == a * TWO64 + b * p
  {
    assert (q * a + b) * p == q * a * p + b * p;
    assert q * a * p == a * (p * q);
  }

  lemma HiBelow(y: nat, p: nat)
    requires y < TWO64 && p > 0
    ensures Hi(y, p) < p
  {
    var h := Hi(y, p);
    ProductMonotone(y + 1, TWO64, p);
    if h >= p {
      ProductMonotone(p, h, TWO64);
    }
  }

  /** Every limb scaled, its overflow added to the next: one limb more, and nothing lost. */
  function Scaled(x: seq<nat>, p: nat, carry: nat): (r: seq<nat>)
    ensures |r| == |x| + 1
  {
    if x == [] then [carry] else [Lo(x[0], p) + carry] + Scaled(x[1..], p, Hi(x[0], p))
  }

  lemma {:induction false} ScaledValue(x: seq<nat>, p: nat, carry: nat)
    ensures Num(Scaled(x, p, carry)) == Num(x) * p + carry
  {
    if x != [] {
      hide Mod, Quot;
      var rest := Num(x[1..]);
      ScaledValue(x[1..], p, Hi(x[0], p));
      assert Scaled(x, p, carry)[1..] == Scaled(x[1..], p, Hi(x[0], p));
      ScaledSum(x[0], rest, p);
    } else {
      assert [carry][1..] == [];
    }
  }

  lemma ScaledSum(x: nat, rest: nat, p: nat)
    ensures Lo(x, p) + TWO64 * (rest * p + Hi(x, p)) == (x + TWO64 * rest) * p
  {
    assert TWO64 * (rest * p) == TWO64 * rest * p;
  }

  lemma {:induction false} ScaledAt(x: seq<nat>, p: nat, carry: nat, j: nat)
    requires j <= |x|
    ensures Scaled(x, p, carry)[j] == (if j < |x| then Lo(x[j], p) else 0) + (if j > 0 then Hi(x[j - 1], p) else carry)
  {
    if j > 0 {
      ScaledAt(x[1..], p, Hi(x[0], p), j - 1);
    }
  }

  /** Limb `j` of the result after the first `i` limbs have been placed `w` limbs up. */
  function Placed(x: seq<nat>, p: nat, w: nat, i: nat, j: nat): nat
    requires i <= |x|
  {
    (if w <= j < i + w then Lo(x[j - w], p) else 0) + (if w < j <= i + w then Hi(x[j - w - 1], p) else 0)
  }

  /** Shifting: all the limbs placed, cut to four, are the product modulo 2^256. */
  lemma PlacedIsProduct(x: Limbs, p: nat, w: nat, r: seq<nat>)
    requires |r| == 4 && (forall j | 0 <= j < 4 :: r[j] == Placed(x, p, w, 4, j)) && AllBelow(TWO64, r)
    ensures Num(r) == Mod(Times(Times(Num(x), p), Power(TWO64, w)), Power(TWO64, 4))
  {
    hide Lo, Hi, Power, Value;
    var all := ZeroLimbs(w) + Scaled(x, p, 0);
    forall j | 0 <= j < 4 ensures r[j] == all[j] {
      if w <= j {
        ScaledAt(x, p, 0, j - w);
      }
    }
    assert |all| > 4 || |all| == w + 5;
    assert r == all[..4];
    ScaledValue(x, p, 0);
    ZeroLimbsValue(w, Scaled(x, p, 0));
    ValueSplit(TWO64, all, 4);
    ValueBelowPower(TWO64, r);
    DivUnique(Num(all), Power(TWO64, 4), Value(TWO64, all[4..]), Num(r));
    assert Num(all) == Num(x) * p * Power(TWO64, w);
  }

  function ZeroLimbs(w: nat): seq<nat> {
    seq(w, _ => 0)
  }

  lemma {:induction false} ZeroLimbsValue(w: nat, x: seq<nat>)
    ensures Num(ZeroLimbs(w) + x) == Num(x) * Power(TWO64, w)
  {
    if w == 0 {
      assert ZeroLimbs(0) + x == x;
    } else {
      ZeroLimbsValue(w - 1, x);
      assert (ZeroLimbs(w) + x)[1..] == ZeroLimbs(w - 1) + x;
      assert TWO64 * (Num(x) * Power(TWO64, w - 1)) == Num(x) * (TWO64 * Power(TWO64, w - 1));
    }
  }

  lemma {:induction false} LimbPower(w: nat, bits: nat)
    requires Pow2(bits) == TWO64
    ensures Power(TWO64, w) == Pow2(bits * w)
  {
    if w > 0 {
      LimbPower(w - 1, bits);
      Pow2Add(bits, bits * (w - 1));
      assert bits + bits * (w - 1) == bits * w;
    }
  }

  lemma BelowAnyPower(x: nat, p: nat, q: nat)
    requires x < TWO64 && p * q == TWO64 && p == 1
    ensures Hi(x, p) == 0
  {
    LoHi(x, x, p, q);
  }

  /** Left shift on limbs whose power of two is given: the loop of `<<`. No `+=` overflows its limb. */
  method ShiftLimbs(x: Limbs, wordShift: nat, bitShift: nat, p: nat, q: nat) returns (r: seq<nat>)
    requires p * q == TWO64 && q > 0 && (bitShift == 0 ==> p == 1)
    ensures |r| == 4 && AllBelow(TWO64, r)
    ensures forall j | 0 <= j < 4 :: r[j] == Placed(x, p, wordShift, 4, j)
  {
    hide Lo, Hi;
    var ret := new nat[4](_ => 0);
    for i := 0 to 4
      invariant forall j | 0 <= j < 4 :: ret[j] == Placed(x, p, wordShift, i, j) && ret[j] < TWO64
    {
      LoHi(x[i], if i > 0 then x[i - 1] else 0, p, q);
      if i + wordShift < 4 {
        assert ret[i + wordShift] + Lo(x[i], p) < TWO64;
        ret[i + wordShift] := ret[i + wordShift] + Lo(x[i], p);
      }
      if bitShift > 0 {
        if i + wordShift + 1 < 4 {
          assert ret[i + wordShift + 1] == 0;
          ret[i + wordShift + 1] := ret[i + wordShift + 1] + x[i] / q;
        }
      } else {
        BelowAnyPower(x[i], p, q);
      }
    }
    r := ret[..];
  }

  /** `<<`: for every shift, the product with the power of two, modulo 2^256. */
  method Shl(x: Limbs, shift: nat) returns (r: Limbs)
    ensures Num(r) == Mod(Times(Num(x), Pow2(shift)), Pow2(256))
  {
    hide Pow2, Mod, Times, Num, Placed, Power, Quot;
    var wordShift, bitShift := Quot(shift, 64), Mod(shift, 64);
    PowersOfTheShift(shift, 64);
    r := ShiftLimbs(x, wordShift, bitShift, Pow2(bitShift), Pow2(64 - bitShift));
    PlacedIsProduct(x, Pow2(bitShift), wordShift, r);
    TimesTwice(Num(x), Pow2(bitShift), Power(TWO64, wordShift));
  }

  lemma TimesTwice(a: nat, b: nat, c: nat)
    ensures Times(Times(a, b), c) == Times(a, b * c)
  {
  }

  lemma PowersOfTheShift(shift: nat, bits: nat)
    requires bits == 64
    ensures var w, b := Quot(shift, bits), Mod(shift, bits);
      && Pow2(b) * Pow2(bits - b) == TWO64
      && (b == 0 ==> Pow2(b) == 1)
      && Pow2(b) * Power(TWO64, w) == Pow2(shift)
      && Power(TWO64, 4) == Pow2(256)
  {
    var w, b := Quot(shift, bits), Mod(shift, bits);
    Pow2Of64();
    Pow2Add(b, bits - b);
    LimbPower(w, bits);
    LimbPower(4, bits);
    Pow2Add(b, bits * w);
  }

  // ---------------------------------------------------------------------------------------------
  // Compact targets

  /** The mantissa of a compact target, already shifted down for a small exponent. */
  function Mantissa(bits: nat): nat {
    var size := bits / 0x100_0000;
    var low := bits % 0x100_0000;
    if size <= 3 then Quot(low, Pow2(8 * (3 - size))) else low
  }

  function Exponent(bits: nat): nat {
    var size := bits / 0x100_0000;
    if size <= 3 then 0 else 8 * (size - 3)
  }

  /** The two parts by inequalities on the size byte and the low 24 bits. */
  lemma CompactParts(bits: nat, size: nat, low: nat)
    requires bits == size * 0x100_0000 + low && low < 0x100_0000
    ensures size > 3 ==> Mantissa(bits) == low && Exponent(bits) == 8 * (size - 3)
    ensures size <= 3 ==> Exponent(bits) == 0
    ensures size == 3 ==> Mantissa(bits) == low
    ensures size == 2 ==> 0x100 * Mantissa(bits) <= low < 0x100 * (Mantissa(bits) + 1)
    ensures size == 1 ==> 0x1_0000 * Mantissa(bits) <= low < 0x1_0000 * (Mantissa(bits) + 1)
    ensures size == 0 ==> Mantissa(bits) == 0
  {
    DivUnique(bits, 0x100_0000, size, low);
    ByteShifts();
  }

  lemma ByteShifts()
    ensures Pow2(0) == 1 && Pow2(8) == 0x100 && Pow2(16) == 0x1_0000 && Pow2(24) == 0x100_0000
  {
    assert Pow2(4) == 16;
    Pow2Doubles(4, 16);
    Pow2Doubles(8, 0x100);
    Pow2Add(8, 16);
  }

  /** `u256_from_compact_target`. */
  method FromCompact(bits: nat) returns (r: Limbs)
    requires bits < 0x1_0000_0000
    ensures Num(r) == if Mantissa(bits) > 0x7F_FFFF then 0
                      else Mod(Times(Mantissa(bits), Pow2(Exponent(bits))), Pow2(256))
  {
    hide Pow2, Mod, Times, Exponent, Mantissa;
    var mant := Mantissa(bits);
    if mant > 0x7F_FFFF {
      r := [0, 0, 0, 0];
    } else {
      FromU64(mant);
      r := Shl([mant, 0, 0, 0], Exponent(bits));
    }
  }

  lemma FromU64(v: nat)
    ensures Num([v, 0, 0, 0]) == v
  {
    assert [v, 0, 0, 0][1..] == ZeroLimbs(3) + [];
    ZeroLimbsValue(3, []);
  }

  lemma ModIsSame(m: nat, p: nat)
    requires p > 0
    ensures Mod(m, p) == m <==> m < p
  {
  }

  lemma ProductFitsIff(m: nat, p: nat, q: nat)
    ensures m * p < q * p <==> m < q && p > 0
  {
    if m < q {
      ProductMonotone(m + 1, q, p);
      NextProduct(m, p);
    } else {
      ProductMonotone(q, m, p);
    }
  }

  /** A compact target decodes to its mantissa times its power of two, with nothing cut off, exactly when
      the mantissa fits into the bits above the exponent. */
  lemma CompactIsExactIff(mant: nat, e: nat, bits: nat)
    ensures Mod(Times(mant, Pow2(e)), Pow2(bits)) == Times(mant, Pow2(e))
            <==> mant == 0 || (e <= bits && mant < Pow2(bits - e))
  {
    hide Mod, Pow2;
    ModIsSame(Times(mant, Pow2(e)), Pow2(bits));
    if e <= bits {
      Pow2Add(bits - e, e);
      ProductFitsIff(mant, Pow2(e), Pow2(bits - e));
    } else if mant > 0 {
      Pow2Monotone(bits, e);
      ProductAtLeast(mant, Pow2(e));
    } else {
      assert Times(0, Pow2(e)) == 0;
    }
  }
}
