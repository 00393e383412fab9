/** The fixed-point network: generated weights, two rectified layers, one linear layer, and the folded output.
    All sums are exact integers; the bounds below say that no 32-bit cast and no 64-bit sum loses anything. */
module FixedMlp {
  import opened Arith
  import opened Digits
  import opened Bytes

  const MULTIPLIER: nat := 6_364_136_223_846_793_005
  const INCREMENT: nat := 1_442_695_040_888_963_407
  const LAYER_SALT: nat := 0xDEAD_BEEF_CAFE_1337
  const TWO31: int := 0x8000_0000
  const TWO32: int := 0x1_0000_0000

  const N_IN: nat := 32
  const N_H1: nat := 256
  const N_H2: nat := 128
  const N_OUT: nat := 32
  const HE_L1: int := 256
  const HE_L2: int := 90
  const HE_L3: int := 128

  // ---------------------------------------------------------------------------------------------
  // Weights

  /** One step of the generator. */
  function Next(state: nat): (s: nat)
    ensures s < TWO64
  {
    Mod(Times(state, MULTIPLIER) + INCREMENT, TWO64)
  }

  /** The upper half of the state, read as a signed 32-bit number. */
  function Raw(state: nat): (r: int)
    requires state < TWO64
    ensures -TWO31 <= r < TWO31
  {
    var high := state / TWO32;
    if high < TWO31 then high else high - TWO32
  }

  /** `>> 31` rounds down. */
  function Weight(state: nat, he: int): int
    requires state < TWO64
  {
    Raw(state) * he / TWO31
  }

  /** A weight is at least `-he` and below `he`, so the cast to 32 bits keeps it. */
  lemma WeightInRange(state: nat, he: int)
    requires state < TWO64 && 0 < he < TWO31
    ensures -he <= Weight(state, he) < he
    ensures -TWO31 <= Weight(state, he) < TWO31
  {
    var raw := Raw(state);
    ProductMonotone(-TWO31, raw, he);
    ProductMonotone(raw + 1, TWO31, he);
    FloorBounds(raw * he, he);
  }

  lemma FloorBounds(p: int, he: int)
    requires -TWO31 * he <= p < TWO31 * he
    ensures -he <= p / TWO31 < he
  {
  }

  /** The lower end is reached, by every state whose raw value is close enough to the least. */
  lemma LeastWeightIff(state: nat, he: int)
    requires state < TWO64 && 0 < he < TWO31
    ensures Weight(state, he) == -he <==> (Raw(state) + TWO31) * he < TWO31
  {
    var raw := Raw(state);
    WeightInRange(state, he);
    assert (raw + TWO31) * he == raw * he + TWO31 * he;
    FloorIsLeast(raw * he, he);
  }

  lemma FloorIsLeast(p: int, he: int)
    requires -TWO31 * he <= p
    ensures p / TWO31 == -he <==> p + TWO31 * he < TWO31
  {
  }

  /** A generator state from which the least raw value is drawn. */
  const LEAST_WEIGHT_STATE: nat := 1_843_579_416_325_869_589

  /** So the range is not symmetric: the weight drawn from this state is `-he`. */
  lemma LeastWeightIsDrawn(he: int)
    requires 0 < he < TWO31
    ensures Weight(Next(LEAST_WEIGHT_STATE), he) == -he
  {
    DrawsLeast();
    LeastWeightIff(0x8000_0000_0000_0000, he);
  }

  lemma DrawsLeast()
    ensures Next(LEAST_WEIGHT_STATE) == 0x8000_0000_0000_0000
  {
    DivUnique(LEAST_WEIGHT_STATE * MULTIPLIER + INCREMENT, TWO64,
              (LEAST_WEIGHT_STATE * MULTIPLIER + INCREMENT) / TWO64, 0x8000_0000_0000_0000);
  }

  /** The first `n` weights after `state`. */
  function Weights(state: nat, he: int, n: nat): (ws: seq<int>)
    ensures |ws| == n
    decreases n
  {
    if n == 0 then [] else [Weight(Next(state), he)] + Weights(Next(state), he, n - 1)
  }

  function LayerSeed(seed: nat, layer: nat): nat {
    Mod(seed + Mod(Times(layer, LAYER_SALT), TWO64), TWO64)
  }

  ghost predicate Within(xs: seq<int>, low: int, high: int) {
    forall i | 0 <= i < |xs| :: low <= xs[i] <= high
  }

  lemma {:induction false} WeightsInRange(state: nat, he: int, n: nat)
    requires 0 < he < TWO31
    ensures Within(Weights(state, he, n), -he, he - 1)
    decreases n
  {
    hide Next, Weight;
    if n > 0 {
      WeightInRange(Next(state), he);
      WeightsInRange(Next(state), he, n - 1);
    }
  }

  /** `make_weights`: the generator state is advanced once per weight. */
  method MakeWeights(seed: nat, rows: nat, cols: nat, layer: nat, he: int) returns (ws: seq<int>)
    requires 0 < he < TWO31
    ensures ws == Weights(LayerSeed(seed, layer), he, Times(rows, cols)) && Within(ws, -he, he - 1)
  {
    hide Next, Weight, Times;
    var state := LayerSeed(seed, layer);
    var n := Times(rows, cols);
    WeightsInRange(state, he, n);
    ghost var start := state;
    ws := [];
    for i := 0 to n
      invariant ws + Weights(state, he, n - i) == Weights(start, he, n)
    {
      ghost var rest := Weights(state, he, n - i);
      state := Next(state);
      assert rest == [Weight(state, he)] + Weights(state, he, n - i - 1);
      ws := ws + [Weight(state, he)];
    }
  }

  // ---------------------------------------------------------------------------------------------
  // Layers

  /** The accumulator of one neuron, in the order of the sum. */
  function Dot(x: seq<int>, w: seq<int>): int
    requires |x| == |w|
  {
    if x == [] then 0
    else
      var k := |x| - 1;
      Dot(x[..k], w[..k]) + x[k] * w[k]
  }

  lemma TermBound(x: int, w: int, a: int, b: int)
    requires -a <= x <= a && -b <= w <= b
    ensures -(a * b) <= x * w <= a * b
  {
    var ax, bw := if x < 0 then -x else x, if w < 0 then -w else w;
    ProductMonotone(ax, a, bw);
    ProductMonotone(bw, b, a);
    assert x * w == ax * bw || x * w == -(ax * bw);
  }

  /** Every partial sum of an accumulator stays within the number of its terms times the largest term. */
  lemma {:induction false} DotBound(x: seq<int>, w: seq<int>, a: int, b: int)
    requires |x| == |w| && 0 <= a && 0 <= b && Within(x, -a, a) && Within(w, -b, b)
    ensures -(|x| * (a * b)) <= Dot(x, w) <= |x| * (a * b)
  {
    if x != [] {
      var k := |x| - 1;
      DotBound(x[..k], w[..k], a, b);
      TermBound(x[k], w[k], a, b);
      NextProduct(k, a * b);
    }
  }

  /** The weights of neuron `i`. */
  function Row(w: seq<int>, i: nat, cols: nat): (r: seq<int>)
    requires Times(i, cols) + cols <= |w|
    ensures |r| == cols
  {
    w[Times(i, cols)..Times(i, cols) + cols]
  }

  lemma RowInside(i: nat, rows: nat, cols: nat)
    requires i < rows
    ensures Times(i, cols) + cols <= Times(rows, cols)
  {
    ProductMonotone(i + 1, rows, cols);
    NextProduct(i, cols);
  }

  /** The accumulators of a layer. */
  function Layer(x: seq<int>, w: seq<int>, rows: nat): (acc: seq<int>)
    requires |w| == Times(rows, |x|)
    ensures |acc| == rows
  {
    seq(rows, i requires 0 <= i < rows => RowInside(i, rows, |x|); Dot(x, Row(w, i, |x|)))
  }

  lemma LayerBound(x: seq<int>, w: seq<int>, rows: nat, a: int, b: int)
    requires |w| == Times(rows, |x|) && 0 <= a && 0 <= b && Within(x, -a, a) && Within(w, -b, b)
    ensures Within(Layer(x, w, rows), -(|x| * (a * b)), |x| * (a * b))
  {
    forall i | 0 <= i < rows ensures -(|x| * (a * b)) <= Layer(x, w, rows)[i] <= |x| * (a * b) {
      RowInside(i, rows, |x|);
      DotBound(x, Row(w, i, |x|), a, b);
    }
  }

  /** `(acc >> NORM_SHIFT).max(0)`. */
  function Relu(acc: seq<int>): (h: seq<int>)
    ensures |h| == |acc|
  {
    seq(|acc|, i requires 0 <= i < |acc| => if acc[i] < 0 then 0 else acc[i] / 1024)
  }

  lemma ReluBound(acc: seq<int>, bound: int)
    requires 0 <= bound && Within(acc, -(1024 * bound), 1024 * bound)
    ensures Within(Relu(acc), 0, bound)
  {
    forall i | 0 <= i < |acc| ensures 0 <= Relu(acc)[i] <= bound {
      assert acc[i] <= 1024 * bound;
    }
  }

  // ---------------------------------------------------------------------------------------------
  // The output byte

  /** An `i64` as the number its eight bytes spell. */
  function TwosComplement(v: int): (n: nat)
    requires -0x8000_0000_0000_0000 <= v < 0x8000_0000_0000_0000
    ensures n < TWO64
  {
    if v < 0 then v + TWO64 else v
  }

  function XorAll(b: seq<byte>): byte {
    if b == [] then 0 else XorAll(b[..|b| - 1]) ^ b[|b| - 1]
  }

  /** All eight bytes of the number, combined. */
  function FoldByte(v: int): byte
    requires -0x8000_0000_0000_0000 <= v < 0x8000_0000_0000_0000
  {
    XorAll(Bytewise(LowDigits(256, 8, TwosComplement(v))))
  }

  lemma XorPush(b: seq<byte>, c: byte)
    ensures XorAll(b + [c]) == XorAll(b) ^ c
  {
    assert (b + [c])[..|b|] == b;
  }

  lemma FourEqualBytes(b: seq<byte>, c: byte)
    ensures XorAll(b + [c, c, c, c]) == XorAll(b)
  {
    hide XorAll;
    XorPush(b, c);
    XorPush(b + [c], c);
    XorPush(b + [c] + [c], c);
    XorPush(b + [c] + [c] + [c], c);
    assert b + [c] + [c] + [c] + [c] == b + [c, c, c, c];
    XorTwice(XorAll(b), c);
  }

  lemma XorTwice(a: byte, c: byte)
    ensures a ^ c ^ c == a
  {
  }

  /** The sign bytes of a 32-bit value are equal. */
  lemma SignBytes(v: int)
    requires -TWO31 <= v < TWO31
    ensures var c: nat := if v < 0 then 255 else 0;
      LowDigits(256, 4, Without(256, 4, TwosComplement(v))) == seq(4, _ => c)
  {
    hide LowDigits, Mod, Power, Without;
    var n := TwosComplement(v);
    FourBytes();
    WithoutIsQuotient(256, 4, n, if v < 0 then Power(256, 4) - 1 else 0, if v < 0 then v + TWO32 else v);
    if v < 0 {
      LargestDigits(256, 4);
    } else {
      NoDigits(256, 4);
    }
  }

  lemma FourBytes()
    ensures Power(256, 4) == TWO32
  {
    assert Power(256, 1) == 256 * Power(256, 0);
    assert Power(256, 2) == 0x1_0000;
    assert Power(256, 3) == 0x100_0000;
  }

  /** For a value that fits 32 bits the upper four bytes cancel: the fold is that of the lower four. */
  lemma FoldIsLowHalf(v: int)
    requires -TWO31 <= v < TWO31
    ensures FoldByte(v) == XorAll(Bytewise(LowDigits(256, 4, TwosComplement(v))))
  {
    hide LowDigits, Without, XorAll, Bytewise;
    var n := TwosComplement(v);
    var c: nat := if v < 0 then 255 else 0;
    SignBytes(v);
    LowDigitsSplit(256, 4, 4, n);
    var low := LowDigits(256, 4, n);
    BytewiseFour(low, c);
    FourEqualBytes(Bytewise(low), Bytewise([c])[0]);
  }

  lemma BytewiseFour(low: seq<nat>, c: nat)
    requires AllBelow(256, low) && c < 256
    ensures |Bytewise([c])| == 1
    ensures var b := Bytewise([c])[0]; Bytewise(low + seq(4, _ => c)) == Bytewise(low) + [b, b, b, b]
  {
  }

  // ---------------------------------------------------------------------------------------------
  // The network

  function Centre(b: nat): int {
    b - 128
  }

  /** Bytes centred around zero. */
  function Centred(input: Bytes32): (x: seq<int>)
    ensures |x| == N_IN
  {
    seq(N_IN, i requires 0 <= i < N_IN => Centre(Nums(input)[i]))
  }

  function Acc1(input: Bytes32, seed: nat): (acc: seq<int>)
    ensures |acc| == N_H1
  {
    Layer(Centred(input), Weights(LayerSeed(seed, 0), HE_L1, Times(N_H1, N_IN)), N_H1)
  }

  function Acc2(input: Bytes32, seed: nat): (acc: seq<int>)
    ensures |acc| == N_H2
  {
    Layer(Relu(Acc1(input, seed)), Weights(LayerSeed(seed, 1), HE_L2, Times(N_H2, N_H1)), N_H2)
  }

  function Acc3(input: Bytes32, seed: nat): (acc: seq<int>)
    ensures |acc| == N_OUT
  {
    Layer(Relu(Acc2(input, seed)), Weights(LayerSeed(seed, 2), HE_L3, Times(N_OUT, N_H2)), N_OUT)
  }

  lemma CentredBound(input: Bytes32)
    ensures Within(Centred(input), -128, 127)
  {
    NumsBelow(input);
  }

  lemma Widen(xs: seq<int>, low: int, high: int, low': int, high': int)
    requires Within(xs, low, high) && low' <= low && high <= high'
    ensures Within(xs, low', high')
  {
  }

  lemma LayerOneBound(input: Bytes32, seed: nat)
    ensures Within(Acc1(input, seed), -1_048_576, 1_048_576) && Within(Relu(Acc1(input, seed)), 0, 1024)
  {
    hide Layer, Relu, Weights, Within, Centred;
    var x, w := Centred(input), Weights(LayerSeed(seed, 0), HE_L1, Times(N_H1, N_IN));
    CentredBound(input);
    Widen(x, -128, 127, -128, 128);
    WeightsInRange(LayerSeed(seed, 0), HE_L1, Times(N_H1, N_IN));
    Widen(w, -256, 255, -256, 256);
    LayerBound(x, w, N_H1, 128, 256);
    ReluBound(Acc1(input, seed), 1024);
  }

  lemma LayerTwoBound(input: Bytes32, seed: nat)
    ensures Within(Acc2(input, seed), -23_592_960, 23_592_960) && Within(Relu(Acc2(input, seed)), 0, 23_040)
  {
    hide Layer, Relu, Weights, Within, Acc1;
    var x, w := Relu(Acc1(input, seed)), Weights(LayerSeed(seed, 1), HE_L2, Times(N_H2, N_H1));
    LayerOneBound(input, seed);
    Widen(x, 0, 1024, -1024, 1024);
    WeightsInRange(LayerSeed(seed, 1), HE_L2, Times(N_H2, N_H1));
    Widen(w, -90, 89, -90, 90);
    LayerBound(x, w, N_H2, 1024, 90);
    ReluBound(Acc2(input, seed), 23_040);
  }

  /** For every input and every seed: the accumulators and activations stay far inside 64 bits, and the outputs
      inside 32. */
  lemma NetworkBounds(input: Bytes32, seed: nat)
    ensures Within(Acc1(input, seed), -1_048_576, 1_048_576) && Within(Relu(Acc1(input, seed)), 0, 1024)
    ensures Within(Acc2(input, seed), -23_592_960, 23_592_960) && Within(Relu(Acc2(input, seed)), 0, 23_040)
    ensures Within(Acc3(input, seed), -377_487_360, 377_487_360)
  {
    hide Layer, Relu, Weights, Within, Acc1, Acc2;
    var x, w := Relu(Acc2(input, seed)), Weights(LayerSeed(seed, 2), HE_L3, Times(N_OUT, N_H2));
    LayerOneBound(input, seed);
    LayerTwoBound(input, seed);
    Widen(x, 0, 23_040, -23_040, 23_040);
    WeightsInRange(LayerSeed(seed, 2), HE_L3, Times(N_OUT, N_H2));
    Widen(w, -128, 127, -128, 128);
    LayerBound(x, w, N_OUT, 23_040, 128);
  }

  /** The same bounds hold of every partial sum on the way. */
  lemma PartialSumBound(x: seq<int>, w: seq<int>, k: nat, a: int, b: int)
    requires |x| == |w| && k <= |x| && 0 <= a && 0 <= b && Within(x, -a, a) && Within(w, -b, b)
    ensures -(|x| * (a * b)) <= Dot(x[..k], w[..k]) <= |x| * (a * b)
  {
    DotBound(x[..k], w[..k], a, b);
    TermBound(a, b, a, b);
    ProductMonotone(k, |x|, a * b);
  }

  /** `forward`: each output byte folds one accumulator of the last layer, of which only the low half matters. */
  method Forward(input: Bytes32, seed: nat) returns (out: seq<byte>)
    ensures |out| == 32
    ensures forall i | 0 <= i < 32 ::
              out[i] == XorAll(Bytewise(LowDigits(256, 4, TwosComplement(FitsIn32(input, seed, i)))))
  {
    hide Layer, Relu, Weights, Centred, XorAll, LowDigits, FoldByte, TwosComplement;
    var w1 := MakeWeights(seed, N_H1, N_IN, 0, HE_L1);
    var h1 := Relu(Layer(Centred(input), w1, N_H1));
    var w2 := MakeWeights(seed, N_H2, N_H1, 1, HE_L2);
    var h2 := Relu(Layer(h1, w2, N_H2));
    var w3 := MakeWeights(seed, N_OUT, N_H2, 2, HE_L3);
    var h3 := Layer(h2, w3, N_OUT);
    NetworkBounds(input, seed);
    out := [];
    for i := 0 to N_OUT
      invariant |out| == i
      invariant forall j | 0 <= j < i ::
                  out[j] == XorAll(Bytewise(LowDigits(256, 4, TwosComplement(FitsIn32(input, seed, j)))))
    {
      FoldIsLowHalf(h3[i]);
      out := out + [FoldByte(h3[i])];
    }
  }

  /** Output accumulator `i`, which fits 32 bits. */
  function FitsIn32(input: Bytes32, seed: nat, i: nat): (v: int)
    requires i < N_OUT
    ensures -TWO31 <= v < TWO31
  {
    NetworkBounds(input, seed);
    Acc3(input, seed)[i]
  }
}
