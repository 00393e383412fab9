/** What the self-test of the remainder constant decides: exactly which constants pass it, and one that passes
    with the source's own samples although it is wrong. */
module SelfTest {
  import opened Arith
  import opened Digits
  import opened Bytes
  import opened Mix
  import opened ModMagic

  /** An input on which the reduction by reciprocal `m` is wrong. */
  predicate Wrong(m: Magic, d: nat, a: nat)
    requires d > 0
  {
    a % d == d - 1 && Excess(m, d) * a >= Pow2(64 + m.shift)
  }

  lemma WrongIff(m: Magic, d: nat, a: nat)
    requires IsReciprocal(m, d) && d < TWO64 && a < TWO64
    ensures FastMod(a, m, d) != a % d <==> Wrong(m, d, a)
  {
    ReductionIsExactExcept(a, m, d);
  }

  ghost predicate NoneWrong(m: Magic, d: nat, inputs: seq<nat>)
    requires d > 0
  {
    forall i | 0 <= i < |inputs| :: !Wrong(m, d, inputs[i])
  }

  lemma ReciprocalIsLarge(m: Magic, d: nat)
    requires IsReciprocal(m, d)
    ensures d > 1
  {
  }

  lemma MatchesIff(m: Magic, d: nat, inputs: seq<nat>)
    requires IsReciprocal(m, d) && 1 < d < TWO64 && forall i | 0 <= i < |inputs| :: inputs[i] < TWO64
    ensures Matches(m, d, inputs) <==> NoneWrong(m, d, inputs)
  {
    hide FastMod, Wrong, IsReciprocal;
    forall i | 0 <= i < |inputs| ensures FastMod(inputs[i], m, d) == inputs[i] % d <==> !Wrong(m, d, inputs[i]) {
      WrongIff(m, d, inputs[i]);
    }
  }

  lemma EdgeCasesAreWords(d: nat)
    requires 1 < d < TWO64
    ensures forall i | 0 <= i < |EdgeCases(d)| :: EdgeCases(d)[i] < TWO64
  {
  }

  /** A reciprocal passes the self-test if and only if no sample and no edge case is one of its wrong inputs. */
  lemma SelfTestPassesIff(m: Magic, d: nat, samples: seq<nat>)
    requires IsReciprocal(m, d) && d < TWO64 && forall i | 0 <= i < |samples| :: samples[i] < TWO64
    ensures Verified(m, d, samples) <==> NoneWrong(m, d, samples) && NoneWrong(m, d, EdgeCases(d))
  {
    hide FastMod, Wrong, EdgeCases;
    ReciprocalIsLarge(m, d);
    EdgeCasesAreWords(d);
    MatchesIff(m, d, samples);
    MatchesIff(m, d, EdgeCases(d));
  }

  // ---------------------------------------------------------------------------------------------
  // The structured cases

  lemma SmallProduct(e: int, a: int, p: int)
    requires 0 <= e < 2 * p && 0 <= a < 4 * p && 8 * p <= TWO64
    ensures e * a < TWO64 * p
  {
    ProductMonotone(e, 2 * p, a);
    ProductMonotone(a, 4 * p - 1, 2 * p);
    NextProduct(4 * p - 1, 2 * p);
    ProductMonotone(8 * p, TWO64, p);
    assert 2 * p * a == a * (2 * p) && 4 * p * (2 * p) == 8 * p * p;
  }

  lemma PowerBelow62(s: nat, d: nat)
    requires Pow2(s) < d <= 0x4000_0000_0000_0000
    ensures 8 * Pow2(s) <= TWO64
  {
    hide Pow2;
    Pow2Of64();
    Pow2Add(61, 3);
    assert Pow2(3) == 8 by { SmallPowers(); }
    if s >= 62 {
      Pow2Add(62, 2);
      SmallPowers();
      Pow2Monotone(62, s);
    } else {
      Pow2Monotone(s, 61);
    }
  }

  lemma SmallPowers()
    ensures Pow2(2) == 4 && Pow2(3) == 8
  {
  }

  /** Inputs below twice the divisor are never wrong. */
  lemma SmallInputIsRight(m: Magic, d: nat, a: nat)
    requires IsReciprocal(m, d) && d <= 0x4000_0000_0000_0000 && a < 2 * d
    ensures !Wrong(m, d, a)
  {
    hide Pow2, Excess, IsReciprocal;
    ReciprocalFacts(m, d);
    PowerBelow62(m.shift, d);
    SmallProduct(Excess(m, d), a, Pow2(m.shift));
  }

  /** If the largest word is one below a multiple of the divisor, the reciprocal has no rounding error. */
  lemma LargestWordIsRight(m: Magic, d: nat)
    requires IsReciprocal(m, d) && d < TWO64
    ensures !Wrong(m, d, TWO64 - 1)
  {
    hide Pow2, Log2;
    ReciprocalFacts(m, d);
    var q := (TWO64 - 1) / d;
    if (TWO64 - 1) % d == d - 1 {
      assert TWO64 == q * d + d;
      NextProduct(q, d);
      MultipleBelow(d, m.magic, q + 1, Pow2(m.shift), Excess(m, d));
      assert 0 * (TWO64 - 1) == 0;
    }
  }

  lemma MultipleBelow(d: nat, magic: nat, q: nat, p: nat, e: int)
    requires 0 <= e < d && d * magic == q * d * p + e
    ensures e == 0
  {
    var k := magic - q * p;
    assert q * d * p == d * (q * p);
    assert e == d * k;
    if k >= 1 {
      ProductMonotone(1, k, d);
    } else if k <= -1 {
      ProductMonotone(k, -1, d);
    }
  }

  lemma OtherRemainder(m: Magic, d: nat, a: nat, q: nat, r: nat)
    requires d > 0 && a == q * d + r && r < d - 1
    ensures !Wrong(m, d, a)
  {
    DivUnique(a, d, q, r);
  }

  /** For divisors up to 2^62 the structured cases never refuse a reciprocal: the samples alone decide. */
  lemma EdgeCasesNeverDecide(m: Magic, d: nat)
    requires IsReciprocal(m, d) && d <= 0x4000_0000_0000_0000
    ensures NoneWrong(m, d, EdgeCases(d))
  {
    hide Wrong, IsReciprocal;
    AboveTwo(m, d);
    SmallInputIsRight(m, d, 0);
    SmallInputIsRight(m, d, 1);
    SmallInputIsRight(m, d, d - 1);
    SmallInputIsRight(m, d, d);
    SmallInputIsRight(m, d, d + 1);
    LargestWordIsRight(m, d);
    SmallInputIsRight(m, d, 2 * d - 1);
    OtherRemainder(m, d, 2 * d, 2, 0);
    OtherRemainder(m, d, 2 * d + 1, 2, 1);
    OtherRemainder(m, d, 3 * d, 3, 0);
    NoWrapCases(d);
  }

  lemma AboveTwo(m: Magic, d: nat)
    requires IsReciprocal(m, d)
    ensures d > 2
  {
  }

  lemma NoWrapCases(d: nat)
    requires 2 < d && 3 * d < TWO64
    ensures EdgeCases(d) == [0, 1, d - 1, d, d + 1, TWO64 - 1, 2 * d - 1, 2 * d, 2 * d + 1, 3 * d]
  {
  }

  /** So below 2^62 a constant passes if and only if the samples miss its wrong inputs. */
  lemma SamplesDecide(m: Magic, d: nat, samples: seq<nat>)
    requires IsReciprocal(m, d) && d <= 0x4000_0000_0000_0000
    requires forall i | 0 <= i < |samples| :: samples[i] < TWO64
    ensures Verified(m, d, samples) <==> NoneWrong(m, d, samples)
  {
    hide EdgeCases, Verified, NoneWrong;
    SelfTestPassesIff(m, d, samples);
    EdgeCasesNeverDecide(m, d);
  }

  // ---------------------------------------------------------------------------------------------
  // The samples

  const SAMPLES: nat := 1_000_000
  const GAMMA: nat := 0x9E37_79B9_7F4A_7C15

  /** The generator's counter after `n` samples. */
  function Rng(n: nat): (r: nat)
    ensures r < TWO64
  {
    if n == 0 then 0 else (Rng(n - 1) + GAMMA) % TWO64
  }

  /** Input `n` of the self-test: the splitmix output is `mix64` of the counter. */
  function Sample(n: nat): nat {
    Number(Mix64(U64(Rng(n))))
  }

  /** The pseudo-random inputs of the self-test. */
  function Samples(): (samples: seq<nat>)
    ensures |samples| == 1_000_000
  {
    seq(SAMPLES, i requires 0 <= i < SAMPLES => Sample(i + 1))
  }

  lemma {:induction false} RngIsMultiple(n: nat)
    ensures exists q: nat :: n * GAMMA == q * TWO64 + Rng(n)
  {
    if n > 0 {
      RngIsMultiple(n - 1);
      var q: nat :| (n - 1) * GAMMA == q * TWO64 + Rng(n - 1);
      var sum := Rng(n - 1) + GAMMA;
      assert n * GAMMA == (q + sum / TWO64) * TWO64 + sum % TWO64;
    } else {
      assert 0 * GAMMA == 0 * TWO64 + Rng(0);
    }
  }

  // ---------------------------------------------------------------------------------------------
  // A number of chunks whose constant passes and is wrong on nine words

  const DIVISOR: nat := 3_964_126_429
  const CONSTANT: Magic := Magic(0x8AAE_C661_06DC_CDD4, 31)
  const LARGEST_WRONG: nat := 0xFFFF_FFFF_F355_0B79

  /** The inputs on which the constant is wrong. */
  function WrongWord(j: nat): (w: nat)
    requires j < 9
    ensures w < TWO64
  {
    LARGEST_WRONG - j * DIVISOR
  }

  lemma DoubleIsNext(l: nat)
    ensures Pow2(l + 1) == 2 * Pow2(l)
  {
  }

  lemma Log2Is(d: nat, s: nat)
    requires d > 0 && Pow2(s) <= d < 2 * Pow2(s)
    ensures Log2(d) == s
  {
    hide Pow2, Log2;
    Log2Brackets(d);
    var l := Log2(d);
    DoubleIsNext(l);
    DoubleIsNext(s);
    Pow2Monotone(if l < s then l + 1 else s, if l < s then s else l);
    Pow2Monotone(if s < l then s + 1 else l, if s < l then l else s);
  }

  lemma PowersOfTheCase()
    ensures Pow2(31) == 0x8000_0000 && Pow2(64 + 31) == 0x8000_0000 * TWO64
  {
    hide Pow2;
    assert Pow2(4) == 16 by { SmallPowers(); DoubleIsNext(3); }
    Pow2Doubles(4, 16);
    Pow2Doubles(8, 0x100);
    Pow2Doubles(16, 0x1_0000);
    DoubleIsNext(31);
    ScaledPower(31);
  }

  /** The constant is the divisor's reciprocal, the only candidate. */
  lemma ConstantIsReciprocal()
    ensures IsReciprocal(CONSTANT, DIVISOR) && CandidateMagic(DIVISOR, Log2(DIVISOR)) == CONSTANT.magic
    ensures Log2(DIVISOR) == CONSTANT.shift && DIVISOR != Pow2(Log2(DIVISOR))
  {
    hide Pow2, Log2, CandidateMagic;
    PowersOfTheCase();
    Log2Is(DIVISOR, 31);
    CandidateBrackets(DIVISOR, 31);
  }

  lemma WrongExactlyOn(a: nat)
    requires a < TWO64
    ensures Wrong(CONSTANT, DIVISOR, a) <==> exists j | 0 <= j < 9 :: a == WrongWord(j)
  {
    hide Pow2;
    PowersOfTheCase();
    var q, r := a / DIVISOR, a % DIVISOR;
    assert a == q * DIVISOR + r;
    if Wrong(CONSTANT, DIVISOR, a) {
      assert a == WrongWord(4_653_419_713 - q);
    }
    if j :| 0 <= j < 9 && a == WrongWord(j) {
      DivUnique(a, DIVISOR, 4_653_419_713 - j, DIVISOR - 1);
    }
  }

  // A word is drawn as a sample at one place of the generator's cycle, which its counter gives.

  /** The inverse of the generator's increment modulo 2^64. */
  const INVERSE: nat := 0xF1DE_83E1_9937_733D

  /** The number of the sample that has this counter. */
  function Position(counter: nat): nat {
    counter * INVERSE % TWO64
  }

  lemma InverseOfIncrement(n: int, q: int, counter: int)
    requires n * 0x9E37_79B9_7F4A_7C15 == q * 0x1_0000_0000_0000_0000 + counter
    ensures counter * 0xF1DE_83E1_9937_733D
         == (n * 10771413168148108919 - q * 0xF1DE_83E1_9937_733D) * 0x1_0000_0000_0000_0000 + n
  {
  }

  lemma PositionOfCounter(n: nat)
    requires n < TWO64
    ensures Position(Rng(n)) == n
  {
    RngIsMultiple(n);
    var q: nat :| n * GAMMA == q * TWO64 + Rng(n);
    InverseOfIncrement(n, q, Rng(n));
    DivUnique(Rng(n) * INVERSE, TWO64, n * 10771413168148108919 - q * INVERSE, n);
  }

  lemma EightDigits(a: nat, b: nat, c: nat, d: nat, e: nat, f: nat, g: nat, h: nat)
    ensures Value(256, [a, b, c, d, e, f, g, h])
         == a + 0x100 * b + 0x1_0000 * c + 0x100_0000 * d + 0x1_0000_0000 * e + 0x100_0000_0000 * f
            + 0x1_0000_0000_0000 * g + 0x100_0000_0000_0000 * h
  {
    Prepend(h, []);
    Prepend(g, [h]);
    Prepend(f, [g, h]);
    Prepend(e, [f, g, h]);
    Prepend(d, [e, f, g, h]);
    Prepend(c, [d, e, f, g, h]);
    Prepend(b, [c, d, e, f, g, h]);
    Prepend(a, [b, c, d, e, f, g, h]);
  }

  lemma Prepend(d: nat, ds: seq<nat>)
    ensures Value(256, [d] + ds) == d + 256 * Value(256, ds)
    ensures ds == [] ==> Value(256, ds) == 0
  {
  }

  function Joined(a: byte, b: byte, c: byte, d: byte, e: byte, f: byte, g: byte, h: byte): u64 {
    (a as u64) | ((b as u64) << 8) | ((c as u64) << 16) | ((d as u64) << 24)
    | ((e as u64) << 32) | ((f as u64) << 40) | ((g as u64) << 48) | ((h as u64) << 56)
  }

  lemma JoinedBytes(a: byte, b: byte, c: byte, d: byte, e: byte, f: byte, g: byte, h: byte)
    ensures var w := Joined(a, b, c, d, e, f, g, h);
      && ByteOf(w, 0) == a && ByteOf(w, 1) == b && ByteOf(w, 2) == c && ByteOf(w, 3) == d
      && ByteOf(w, 4) == e && ByteOf(w, 5) == f && ByteOf(w, 6) == g && ByteOf(w, 7) == h
  {
  }

  /** A word as its eight bytes, the lowest first. */
  datatype Spelling = Spelling(a: byte, b: byte, c: byte, d: byte, e: byte, f: byte, g: byte, h: byte) {
    function Word(): u64 {
      Joined(a, b, c, d, e, f, g, h)
    }

    function Spelled(): nat {
      a as nat + 0x100 * (b as nat) + 0x1_0000 * (c as nat) + 0x100_0000 * (d as nat) + 0x1_0000_0000 * (e as nat)
      + 0x100_0000_0000 * (f as nat) + 0x1_0000_0000_0000 * (g as nat) + 0x100_0000_0000_0000 * (h as nat)
    }
  }

  lemma BytesOfWord(w: Spelling)
    ensures Le64(w.Word()) == [w.a, w.b, w.c, w.d, w.e, w.f, w.g, w.h]
  {
    hide ByteOf, Joined;
    JoinedBytes(w.a, w.b, w.c, w.d, w.e, w.f, w.g, w.h);
  }

  lemma NumsAt(b: seq<byte>, i: nat)
    requires i < |b|
    ensures Nums(b)[i] == b[i] as nat
  {
  }

  lemma NumberIsSpelled(w: Spelling)
    ensures Number(w.Word()) == w.Spelled()
  {
    hide Le64, Nums, Value, Spelling.Word;
    BytesOfWord(w);
    var b := [w.a, w.b, w.c, w.d, w.e, w.f, w.g, w.h];
    var n := Nums(b);
    EightDigits(n[0], n[1], n[2], n[3], n[4], n[5], n[6], n[7]);
    assert n == [n[0], n[1], n[2], n[3], n[4], n[5], n[6], n[7]];
    forall i | 0 <= i < 8 ensures n[i] == b[i] as nat {
      NumsAt(b, i);
    }
  }

  /** The word is none of the source's samples. */
  ghost predicate Missed(w: nat) {
    forall i | 0 <= i < SAMPLES :: Samples()[i] != w
  }

  /** A word whose counter comes after the last sample is no sample. */
  lemma NotDrawn(word: Spelling, counter: Spelling)
    requires Mix64(counter.Word()) == word.Word() && Position(counter.Spelled()) > SAMPLES
    ensures Missed(word.Spelled())
  {
    hide Number, U64, Mix64, Rng, Position, Spelling.Word, Spelling.Spelled;
    NumberIsSpelled(word);
    NumberIsSpelled(counter);
    forall i | 0 <= i < SAMPLES ensures Samples()[i] != word.Spelled() {
      var drawn := Rng(i + 1);
      if Number(Mix64(U64(drawn))) == Number(word.Word()) {
        NumberInjective(Mix64(U64(drawn)), word.Word());
        MixInjective(U64(drawn), counter.Word());
        NumberOfU64(drawn);
        PositionOfCounter(i + 1);
      }
    }
  }

  // Each wrong word, with the counter that would give it.

  lemma Missed0()
    ensures Missed(WrongWord(0))
  {
    hide Missed;
    NotDrawn(Spelling(0x79, 0x0B, 0x55, 0xF3, 0xFF, 0xFF, 0xFF, 0xFF),
             Spelling(0xD8, 0x23, 0xEB, 0xB1, 0x73, 0x0E, 0x88, 0x6B));
  }

  lemma Missed1()
    ensures Missed(WrongWord(1))
  {
    hide Missed;
    NotDrawn(Spelling(0x9C, 0x46, 0x0D, 0x07, 0xFF, 0xFF, 0xFF, 0xFF),
             Spelling(0x03, 0xBA, 0x5D, 0xE3, 0xA0, 0x61, 0xDE, 0x26));
  }

  lemma Missed2()
    ensures Missed(WrongWord(2))
  {
    hide Missed;
    NotDrawn(Spelling(0xBF, 0x81, 0xC5, 0x1A, 0xFE, 0xFF, 0xFF, 0xFF),
             Spelling(0x3C, 0x45, 0x6F, 0x91, 0x7D, 0x6E, 0xC3, 0xD0));
  }

  lemma Missed3()
    ensures Missed(WrongWord(3))
  {
    hide Missed;
    NotDrawn(Spelling(0xE2, 0xBC, 0x7D, 0x2E, 0xFD, 0xFF, 0xFF, 0xFF),
             Spelling(0xA6, 0x70, 0x49, 0x1C, 0x51, 0xF6, 0x55, 0xA8));
  }

  lemma Missed4()
    ensures Missed(WrongWord(4))
  {
    hide Missed;
    NotDrawn(Spelling(0x05, 0xF8, 0x35, 0x42, 0xFC, 0xFF, 0xFF, 0xFF),
             Spelling(0x4E, 0xE2, 0x1F, 0x69, 0x92, 0xBB, 0x6C, 0x49));
  }

  lemma Missed5()
    ensures Missed(WrongWord(5))
  {
    hide Missed;
    NotDrawn(Spelling(0x28, 0x33, 0xEE, 0x55, 0xFB, 0xFF, 0xFF, 0xFF),
             Spelling(0xAC, 0x12, 0xC7, 0xE0, 0xC1, 0x6C, 0x7E, 0x51));
  }

  lemma Missed6()
    ensures Missed(WrongWord(6))
  {
    hide Missed;
    NotDrawn(Spelling(0x4B, 0x6E, 0xA6, 0x69, 0xFA, 0xFF, 0xFF, 0xFF),
             Spelling(0xEC, 0x05, 0x03, 0x07, 0xFE, 0xD3, 0xC5, 0x30));
  }

  lemma Missed7()
    ensures Missed(WrongWord(7))
  {
    hide Missed;
    NotDrawn(Spelling(0x6E, 0xA9, 0x5E, 0x7D, 0xF9, 0xFF, 0xFF, 0xFF),
             Spelling(0x40, 0x6F, 0x02, 0x10, 0xC9, 0x6E, 0x00, 0x14));
  }

  lemma Missed8()
    ensures Missed(WrongWord(8))
  {
    hide Missed;
    NotDrawn(Spelling(0x91, 0xE4, 0x16, 0x91, 0xF8, 0xFF, 0xFF, 0xFF),
             Spelling(0x46, 0xD7, 0x77, 0x3D, 0xD7, 0x54, 0x9C, 0x50));
  }

  /** None of the source's samples is one of the wrong words. */
  lemma SamplesMissThem(i: nat)
    requires i < SAMPLES
    ensures Samples()[i] < TWO64 && !Wrong(CONSTANT, DIVISOR, Samples()[i])
  {
    hide Number, U64, Mix64, Rng, Wrong, WrongWord;
    NumberIsWord(Mix64(U64(Rng(i + 1))));
    AllMissed();
    WrongExactlyOn(Samples()[i]);
  }

  lemma AllMissed()
    ensures forall j | 0 <= j < 9 :: Missed(WrongWord(j))
  {
    hide Missed, WrongWord;
    Missed0();
    Missed1();
    Missed2();
    Missed3();
    Missed4();
    Missed5();
    Missed6();
    Missed7();
    Missed8();
  }

  /** The source's self-test, with its own million samples, passes this constant, and the constant is wrong. */
  lemma SelfTestPassesWrongConstant()
    ensures DIVISOR < 0x1_0000_0000 && IsReciprocal(CONSTANT, DIVISOR) && Verified(CONSTANT, DIVISOR, Samples())
    ensures forall j | 0 <= j < 9 :: FastMod(WrongWord(j), CONSTANT, DIVISOR) != WrongWord(j) % DIVISOR
  {
    hide FastMod, Wrong, Samples, IsReciprocal, Verified, WrongWord;
    ConstantIsReciprocal();
    forall i | 0 <= i < SAMPLES ensures Samples()[i] < TWO64 && !Wrong(CONSTANT, DIVISOR, Samples()[i]) {
      SamplesMissThem(i);
    }
    SamplesDecide(CONSTANT, DIVISOR, Samples());
    forall j | 0 <= j < 9 ensures FastMod(WrongWord(j), CONSTANT, DIVISOR) != WrongWord(j) % DIVISOR {
      WrongExactlyOn(WrongWord(j));
      WrongIff(CONSTANT, DIVISOR, WrongWord(j));
    }
  }

  lemma SameConstant(m: Magic)
    requires IsReciprocal(m, DIVISOR)
    ensures m == CONSTANT
  {
    hide Pow2, Log2;
    ConstantIsReciprocal();
    PowersOfTheCase();
  }

  /** So `mod_magic` returns it: the returned constant is nonzero, and its remainder is not always `%`. */
  method InexactConstant() returns (m: Magic)
    ensures m == CONSTANT
    ensures exists a: nat | a < TWO64 :: FastMod(a, m, DIVISOR) != a % DIVISOR
  {
    hide FastMod, IsReciprocal, Verified, CandidateMagic, Log2, Pow2, WrongWord;
    SelfTestPassesWrongConstant();
    ConstantIsReciprocal();
    m := FindMagic(DIVISOR, Samples());
    SameConstant(m);
    assert FastMod(WrongWord(0), m, DIVISOR) != WrongWord(0) % DIVISOR;
  }
}
