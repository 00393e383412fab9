/** Machine bytes and words, 32-byte digests, and little-endian conversions. */
module Bytes {
  import opened Arith
  import opened Digits

  type byte = bv8
  type u64 = bv64

  const TWO64: nat := 0x1_0000_0000_0000_0000

  /** A 32-byte array: a digest, a weight chunk, a header hash or a target. */
  type Bytes32 = b: seq<byte> | |b| == 32 witness seq(32, _ => 0)

  /** The four 64-bit words of a chunk. */
  type Words = w: seq<u64> | |w| == 4 witness [0, 0, 0, 0]

  /** BLAKE3 is a parameter of the model: any function from byte strings to 32 bytes. */
  type Hash = seq<byte> -> Bytes32

  function HashAll(h: Hash, inputs: seq<seq<byte>>): (ls: seq<Bytes32>)
    ensures |ls| == |inputs|
  {
    seq(|inputs|, i requires 0 <= i < |inputs| => h(inputs[i]))
  }

  datatype Option<+T> = None | Some(value: T)

  /** Byte `k` of a word, counted from the lowest. */
  function ByteOf(w: u64, k: nat): byte
    requires k < 8
  {
    if k == 0 then (w & 0xFF) as byte
    else if k == 1 then ((w >> 8) & 0xFF) as byte
    else if k == 2 then ((w >> 16) & 0xFF) as byte
    else if k == 3 then ((w >> 24) & 0xFF) as byte
    else if k == 4 then ((w >> 32) & 0xFF) as byte
    else if k == 5 then ((w >> 40) & 0xFF) as byte
    else if k == 6 then ((w >> 48) & 0xFF) as byte
    else ((w >> 56) & 0xFF) as byte
  }

  /** `u64::to_le_bytes`. */
  function Le64(w: u64): (b: seq<byte>)
    ensures |b| == 8
  {
    seq(8, k requires 0 <= k < 8 => ByteOf(w, k))
  }

  /** `u64::from_le_bytes`. */
  function Word64(b: seq<byte>): u64
    requires |b| == 8
  {
    (b[0] as u64) | ((b[1] as u64) << 8) | ((b[2] as u64) << 16) | ((b[3] as u64) << 24)
    | ((b[4] as u64) << 32) | ((b[5] as u64) << 40) | ((b[6] as u64) << 48) | ((b[7] as u64) << 56)
  }

  lemma Le64RoundTrip(w: u64)
    ensures Word64(Le64(w)) == w
  {
  }

  lemma Word64RoundTrip(b: seq<byte>)
    requires |b| == 8
    ensures Le64(Word64(b)) == b
  {
  }

  lemma Le64Injective(v: u64, w: u64)
    requires Le64(v) == Le64(w)
    ensures v == w
  {
    Le64RoundTrip(v);
    Le64RoundTrip(w);
  }

  /** `chunk_to_words`, and `words4` / `pph_words` on a header hash. */
  function ChunkToWords(c: Bytes32): Words
  {
    [Word64(c[0..8]), Word64(c[8..16]), Word64(c[16..24]), Word64(c[24..32])]
  }

  /** `words_to_bytes`. */
  function WordsToBytes(w: Words): Bytes32
  {
    Le64(w[0]) + Le64(w[1]) + Le64(w[2]) + Le64(w[3])
  }

  /** The two conversions are inverse, so a chunk survives `words_to_bytes(&read_chunk(off))`. */
  lemma ChunkRoundTrip(c: Bytes32)
    ensures WordsToBytes(ChunkToWords(c)) == c
  {
    hide Word64, Le64;
    Word64RoundTrip(c[0..8]);
    Word64RoundTrip(c[8..16]);
    Word64RoundTrip(c[16..24]);
    Word64RoundTrip(c[24..32]);
    FourSlices(c);
  }

  lemma FourSlices(c: seq<byte>)
    requires |c| == 32
    ensures c[0..8] + c[8..16] + c[16..24] + c[24..32] == c
  {
    assert c[0..8] + c[8..16] == c[..16];
    assert c[..16] + c[16..24] == c[..24];
    assert c[..24] + c[24..32] == c;
  }

  lemma Quarters(a: seq<byte>, b: seq<byte>, c: seq<byte>, d: seq<byte>)
    requires |a| == |b| == |c| == |d| == 8
    ensures var all := a + b + c + d; all[0..8] == a && all[8..16] == b && all[16..24] == c && all[24..32] == d
  {
    var ab := a + b;
    var abc := ab + c;
    var all := abc + d;
    assert all[..24] == abc && all[24..32] == d;
    assert all[0..8] == abc[0..8] && all[8..16] == abc[8..16] && all[16..24] == abc[16..24];
    assert abc[..16] == ab && abc[16..24] == c;
    assert abc[0..8] == ab[0..8] && abc[8..16] == ab[8..16];
  }

  lemma WordsRoundTrip(w: Words)
    ensures ChunkToWords(WordsToBytes(w)) == w
  {
    hide Word64, Le64;
    var b := WordsToBytes(w);
    Quarters(Le64(w[0]), Le64(w[1]), Le64(w[2]), Le64(w[3]));
    Le64RoundTrip(w[0]);
    Le64RoundTrip(w[1]);
    Le64RoundTrip(w[2]);
    Le64RoundTrip(w[3]);
  }

  function Nums(b: seq<byte>): (ns: seq<nat>)
    ensures |ns| == |b|
  {
    seq(|b|, i requires 0 <= i < |b| => b[i] as nat)
  }

  /** The natural number a little-endian byte string denotes. */
  function LeValue(b: seq<byte>): nat {
    Value(256, Nums(b))
  }

  lemma ByteLess(a: byte, b: byte)
    ensures a < b <==> (a as nat) < (b as nat)
  {
  }

  lemma NumsBelow(b: seq<byte>)
    ensures AllBelow(256, Nums(b))
  {
  }

  lemma EightBytes()
    ensures Power(256, 8) == TWO64
  {
    assert Power(256, 1) == 256 * Power(256, 0);
    assert Power(256, 2) == 0x1_0000;
    assert Power(256, 3) == 0x100_0000;
    assert Power(256, 4) == 0x1_0000_0000;
    assert Power(256, 5) == 0x100_0000_0000;
    assert Power(256, 6) == 0x1_0000_0000_0000;
    assert Power(256, 7) == 0x100_0000_0000_0000;
  }

  lemma NextByte(b: byte)
    requires b != 255
    ensures (b + 1) as int == b as int + 1
  {
  }

  /** The byte that denotes a number below 256: the cast `n as u8`. */
  function ToByte(n: nat): (b: byte)
    requires n < 256
    ensures b as int == n
  {
    if n == 0 then 0
    else
      var below := ToByte(n - 1);
      NextByte(below);
      below + 1
  }

  lemma SameByte(a: byte, b: byte)
    requires a as int == b as int
    ensures a == b
  {
  }

  function Bytewise(ds: seq<nat>): seq<byte>
    requires AllBelow(256, ds)
  {
    seq(|ds|, i requires 0 <= i < |ds| => ToByte(ds[i]))
  }

  lemma BytewiseNums(b: seq<byte>)
    ensures AllBelow(256, Nums(b)) && Bytewise(Nums(b)) == b
  {
    hide ToByte;
    forall i | 0 <= i < |b| ensures Bytewise(Nums(b))[i] == b[i] {
      SameByte(ToByte(b[i] as nat), b[i]);
    }
  }

  lemma NumsBytewise(ds: seq<nat>)
    requires AllBelow(256, ds)
    ensures Nums(Bytewise(ds)) == ds
  {
    var b := Bytewise(ds);
    forall i | 0 <= i < |ds| ensures Nums(b)[i] == ds[i] {
    }
  }

  // ---------------------------------------------------------------------------------------------
  // Words as numbers

  /** The number that a word denotes. */
  function Number(w: u64): (n: nat)
    ensures n < TWO64
  {
    NumberIsWord(w);
    LeValue(Le64(w))
  }

  /** The word that denotes a number, cut to 64 bits. */
  function U64(n: nat): u64 {
    Word64(Bytewise(LowDigits(256, 8, n)))
  }

  lemma NumberIsWord(w: u64)
    ensures LeValue(Le64(w)) < TWO64
  {
    hide ByteOf, Power;
    NumsBelow(Le64(w));
    ValueBelowPower(256, Nums(Le64(w)));
    EightBytes();
  }

  lemma NumberInjective(v: u64, w: u64)
    requires Number(v) == Number(w)
    ensures v == w
  {
    hide ByteOf;
    NumsBelow(Le64(v));
    NumsBelow(Le64(w));
    ValueInjective(256, Nums(Le64(v)), Nums(Le64(w)));
    BytewiseNums(Le64(v));
    BytewiseNums(Le64(w));
    Le64Injective(v, w);
  }

  /** Casting a number to a word keeps it modulo 2^64. */
  lemma NumberOfU64(n: nat)
    ensures Number(U64(n)) == n % TWO64
    ensures n < TWO64 ==> Number(U64(n)) == n
  {
    hide Word64, Le64, Power, LowDigits, Without;
    EightBytes();
    LowDigitsRemain(256, 8, n);
    NumsBytewise(LowDigits(256, 8, n));
    Word64RoundTrip(Bytewise(LowDigits(256, 8, n)));
    ValueBelowPower(256, LowDigits(256, 8, n));
    DivUnique(n, TWO64, Without(256, 8, n), Value(256, LowDigits(256, 8, n)));
  }

  /** Eight bytes read as a word denote the number they spell. */
  lemma NumberOfBytes(b: seq<byte>)
    requires |b| == 8
    ensures Number(Word64(b)) == LeValue(b)
  {
    hide Word64, Le64, LeValue;
    Word64RoundTrip(b);
  }
}
