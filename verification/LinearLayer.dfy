/** What the layers, the generator and the output fold of the fixed-point network compute, each stated by a property
    that fixes it: a layer by its action on unit vectors and its linearity, a division by its bracket, a wrapped sum by
    its residue. */
module LinearLayer {
  import opened Arith
  import opened Digits
  import opened Bytes
  import opened FixedMlp

  // ---------------------------------------------------------------------------------------------
  // A layer is the matrix-vector product

  function Sum(n: nat, f: nat -> int): int {
    if n == 0 then 0 else Sum(n - 1, f) + f(n - 1)
  }

  function Plus(x: seq<int>, y: seq<int>): (z: seq<int>)
    requires |x| == |y|
    ensures |z| == |x|
  {
    seq(|x|, i requires 0 <= i < |x| => x[i] + y[i])
  }

  function Scaled(a: int, x: seq<int>): (z: seq<int>)
    ensures |z| == |x|
  {
    seq(|x|, i requires 0 <= i < |x| => a * x[i])
  }

  /** The unit vector at `j`. */
  function Unit(n: nat, j: nat): (z: seq<int>)
    ensures |z| == n
  {
    seq(n, i requires 0 <= i < n => if i == j then 1 else 0)
  }

  lemma {:induction false} DotAdds(x: seq<int>, y: seq<int>, w: seq<int>)
    requires |x| == |y| == |w|
    ensures Dot(Plus(x, y), w) == Dot(x, w) + Dot(y, w)
  {
    if x != [] {
      var k := |x| - 1;
      assert Plus(x, y)[..k] == Plus(x[..k], y[..k]);
      DotAdds(x[..k], y[..k], w[..k]);
      assert (x[k] + y[k]) * w[k] == x[k] * w[k] + y[k] * w[k];
    }
  }

  lemma {:induction false} DotScales(a: int, x: seq<int>, w: seq<int>)
    requires |x| == |w|
    ensures Dot(Scaled(a, x), w) == a * Dot(x, w)
  {
    if x != [] {
      var k := |x| - 1;
      assert Scaled(a, x)[..k] == Scaled(a, x[..k]);
      DotScales(a, x[..k], w[..k]);
      Spread(a, Dot(x[..k], w[..k]), x[k], w[k]);
    }
  }

  lemma Spread(a: int, d: int, x: int, w: int)
    ensures a * d + a * x * w == a * (d + x * w)
  {
    assert a * x * w == a * (x * w);
  }

  lemma {:induction false} DotOfUnit(n: nat, j: nat, w: seq<int>)
    requires |w| == n
    ensures Dot(Unit(n, j), w) == if j < n then w[j] else 0
  {
    if n > 0 {
      assert Unit(n, j)[..n - 1] == Unit(n - 1, j);
      DotOfUnit(n - 1, j, w[..n - 1]);
    }
  }

  lemma {:induction false} DotIsSum(x: seq<int>, w: seq<int>, f: nat -> int)
    requires |x| == |w| && forall j: nat | j < |x| :: f(j) == x[j] * w[j]
    ensures Dot(x, w) == Sum(|x|, f)
  {
    if x != [] {
      var k := |x| - 1;
      DotIsSum(x[..k], w[..k], f);
    }
  }

  /** Applied to a unit vector a layer reads off a column of its weights, kept row by row. */
  lemma LayerOfUnit(n: nat, j: nat, w: seq<int>, rows: nat, i: nat)
    requires j < n && i < rows && |w| == Times(rows, n)
    ensures i * n + j < |w| && Layer(Unit(n, j), w, rows)[i] == w[i * n + j]
  {
    RowInside(i, rows, n);
    DotOfUnit(n, j, Row(w, i, n));
  }

  lemma LayerAdds(x: seq<int>, y: seq<int>, w: seq<int>, rows: nat)
    requires |x| == |y| && |w| == Times(rows, |x|)
    ensures Layer(Plus(x, y), w, rows) == Plus(Layer(x, w, rows), Layer(y, w, rows))
  {
    hide Row, Dot, Times, Plus;
    var z := Layer(Plus(x, y), w, rows);
    forall i | 0 <= i < rows ensures z[i] == Layer(x, w, rows)[i] + Layer(y, w, rows)[i] {
      RowInside(i, rows, |x|);
      DotAdds(x, y, Row(w, i, |x|));
    }
    PlusIs(Layer(x, w, rows), Layer(y, w, rows), z);
  }

  lemma PlusIs(x: seq<int>, y: seq<int>, z: seq<int>)
    requires |x| == |y| == |z| && forall i | 0 <= i < |x| :: z[i] == x[i] + y[i]
    ensures z == Plus(x, y)
  {
  }

  lemma LayerScales(a: int, x: seq<int>, w: seq<int>, rows: nat)
    requires |w| == Times(rows, |x|)
    ensures Layer(Scaled(a, x), w, rows) == Scaled(a, Layer(x, w, rows))
  {
    forall i | 0 <= i < rows ensures Layer(Scaled(a, x), w, rows)[i] == a * Layer(x, w, rows)[i] {
      RowInside(i, rows, |x|);
      DotScales(a, x, Row(w, i, |x|));
    }
  }

  /** In one formula: accumulator `i` is the sum of `x[j] * w[i * cols + j]`. */
  lemma LayerIsProduct(x: seq<int>, w: seq<int>, rows: nat, i: nat, f: nat -> int)
    requires |w| == Times(rows, |x|) && i < rows
    requires forall j: nat | j < |x| :: i * |x| + j < |w| && f(j) == x[j] * w[i * |x| + j]
    ensures Layer(x, w, rows)[i] == Sum(|x|, f)
  {
    RowInside(i, rows, |x|);
    var row := Row(w, i, |x|);
    forall j: nat | j < |x| ensures f(j) == x[j] * row[j] {
      assert row[j] == w[i * |x| + j];
    }
    DotIsSum(x, row, f);
  }

  // ---------------------------------------------------------------------------------------------
  // Activations and inputs

  /** `(acc >> 10).max(0)` by its bracket. */
  lemma ReluBracket(acc: seq<int>, i: nat)
    requires i < |acc|
    ensures acc[i] < 0 ==> Relu(acc)[i] == 0
    ensures acc[i] >= 0 ==> 1024 * Relu(acc)[i] <= acc[i] < 1024 * (Relu(acc)[i] + 1)
  {
  }

  /** The centred input is the byte less 128. */
  lemma CentredIsByte(input: Bytes32, i: nat)
    requires i < 32
    ensures Centred(input)[i] + 128 == input[i] as int
  {
  }

  // ---------------------------------------------------------------------------------------------
  // The generator

  /** The state steps as a linear congruence modulo 2^64. */
  lemma NextIsCongruent(state: nat)
    ensures Next(state) < TWO64
    ensures exists q: nat :: state * 6_364_136_223_846_793_005 + 1_442_695_040_888_963_407 == q * TWO64 + Next(state)
  {
    var v := Times(state, MULTIPLIER) + INCREMENT;
    assert v == Times(Quot(v, TWO64), TWO64) + Mod(v, TWO64);
  }

  /** The raw value is the upper half of the state, as a signed number. */
  lemma RawIsUpperHalf(state: nat)
    requires state < TWO64
    ensures var upper := if Raw(state) < 0 then Raw(state) + 0x1_0000_0000 else Raw(state);
      0 <= state - 0x1_0000_0000 * upper < 0x1_0000_0000
  {
  }

  /** A weight is the raw value scaled, rounded down. */
  lemma WeightBracket(state: nat, he: int)
    requires state < TWO64
    ensures 0x8000_0000 * Weight(state, he) <= Raw(state) * he < 0x8000_0000 * (Weight(state, he) + 1)
  {
  }

  /** A layer's seed is the model's seed plus a multiple of the salt for each layer before, modulo 2^64. */
  lemma LayerSeedIsCongruent(seed: nat, layer: nat)
    ensures LayerSeed(seed, layer) < TWO64
    ensures exists q: nat :: seed + layer * 0xDEAD_BEEF_CAFE_1337 == q * TWO64 + LayerSeed(seed, layer)
  {
    var salt := Times(layer, LAYER_SALT);
    var v := seed + Mod(salt, TWO64);
    assert salt == Times(Quot(salt, TWO64), TWO64) + Mod(salt, TWO64);
    assert v == Times(Quot(v, TWO64), TWO64) + Mod(v, TWO64);
    assert seed + layer * 0xDEAD_BEEF_CAFE_1337
        == (Quot(salt, TWO64) + Quot(v, TWO64)) * TWO64 + LayerSeed(seed, layer);
  }

  // ---------------------------------------------------------------------------------------------
  // The output

  /** The bytes folded are those of the accumulator modulo 2^64. */
  lemma TwosComplementIs(v: int)
    requires -0x8000_0000_0000_0000 <= v < 0x8000_0000_0000_0000
    ensures TwosComplement(v) == v || TwosComplement(v) == v + 0x1_0000_0000_0000_0000
  {
  }

  lemma FoldOfFour(b: seq<byte>)
    requires |b| == 4
    ensures XorAll(b) == b[0] ^ b[1] ^ b[2] ^ b[3]
  {
    hide XorAll;
    assert b == [b[0]] + [b[1]] + [b[2]] + [b[3]];
    XorPush([], b[0]);
    XorPush([b[0]], b[1]);
    XorPush([b[0]] + [b[1]], b[2]);
    XorPush([b[0]] + [b[1]] + [b[2]], b[3]);
    EmptyFold(b[0]);
    assert [] + [b[0]] == [b[0]];
  }

  lemma EmptyFold(c: byte)
    ensures XorAll([]) == 0 && 0 ^ c == c
  {
  }

  /** Output `i` depends on every low byte of accumulator `i`: changing one of the four changes the output. */
  lemma OneByteDecides(v: int, w: int, k: nat)
    requires -TWO31 <= v < TWO31 && -TWO31 <= w < TWO31 && k < 4
    requires var a, b := LowDigits(256, 4, TwosComplement(v)), LowDigits(256, 4, TwosComplement(w));
      b == a[k := b[k]] && a[k] != b[k]
    ensures FoldByte(v) != FoldByte(w)
  {
    hide LowDigits, XorAll, FoldByte, TwosComplement, Bytewise;
    FoldIsLowHalf(v);
    FoldIsLowHalf(w);
    var a, b := LowDigits(256, 4, TwosComplement(v)), LowDigits(256, 4, TwosComplement(w));
    var x, y := Bytewise(a), Bytewise(b);
    NumsBytewise(a);
    NumsBytewise(b);
    SameBytes(x, y, k);
    if XorAll(x) == XorAll(y) {
      FoldBinds(x, y, k);
    }
  }

  lemma SameBytes(x: seq<byte>, y: seq<byte>, k: nat)
    requires |x| == |y| && k < |x| && Nums(y) == Nums(x)[k := Nums(y)[k]] && Nums(x)[k] != Nums(y)[k]
    ensures y == x[k := y[k]] && x[k] != y[k]
  {
    forall i | 0 <= i < |x| && i != k ensures x[i] == y[i] {
      assert Nums(x)[i] == Nums(y)[i];
      SameByte(x[i], y[i]);
    }
  }

  function Xor8(a: byte, b: byte): byte {
    a ^ b
  }

  lemma FoldLast(x: seq<byte>)
    requires x != []
    ensures XorAll(x) == Xor8(XorAll(x[..|x| - 1]), x[|x| - 1])
  {
  }

  lemma ByteCancels(a: byte, b: byte, m: byte)
    ensures Xor8(a, m) == Xor8(b, m) ==> a == b
    ensures Xor8(m, a) == Xor8(m, b) ==> a == b
  {
  }

  /** The fold of byte strings that differ in one place tells them apart. */
  lemma {:induction false} FoldBinds(x: seq<byte>, y: seq<byte>, k: nat)
    requires |x| == |y| && k < |x| && y == x[k := y[k]] && XorAll(x) == XorAll(y)
    ensures x[k] == y[k]
  {
    hide XorAll, Xor8;
    var l := |x| - 1;
    FoldLast(x);
    FoldLast(y);
    var p, q := XorAll(x[..l]), XorAll(y[..l]);
    if k == l {
      assert x[..l] == y[..l];
      ByteCancels(x[l], y[l], p);
    } else {
      assert x[l] == y[l] && y[..l] == x[..l][k := y[k]];
      ByteCancels(p, q, x[l]);
      FoldBinds(x[..l], y[..l], k);
    }
  }
}
