/** The mix64 folds: walk seed, walk transition and pow value. */
module Mix {
  import opened Bytes

  const SEED_FOLD_SALT: u64 := 0x4B65727978531
  const POW_SALT_0: u64 := 0x9E3779B97F4A7C15
  const POW_SALT_1: u64 := 0xC2B2AE3D27D4EB4F
  const POW_SALT_2: u64 := 0x165667B19E3779F9
  const POW_SALT_3: u64 := 0xD6E8FEB86659FD93

  /** Exclusive or, as an operation whose laws are lemmas. */
  function Xor(a: u64, b: u64): u64 {
    a ^ b
  }

  lemma XorRaw(a: u64, b: u64, c: u64)
    ensures a ^ b ^ c == a ^ (b ^ c)
    ensures b ^ c == c ^ b
    ensures a ^ 0 == a
  {
  }

  lemma XorAssociates(a: u64, b: u64, c: u64)
    ensures Xor(Xor(a, b), c) == Xor(a, Xor(b, c))
  {
    XorRaw(a, b, c);
    assert Xor(a, b) == a ^ b && Xor(b, c) == b ^ c;
  }

  lemma XorCommutes(a: u64, b: u64)
    ensures Xor(a, b) == Xor(b, a)
  {
    XorRaw(0, a, b);
  }

  lemma XorZero(a: u64)
    ensures Xor(a, 0) == a
  {
    XorRaw(a, 0, 0);
  }

  lemma XorExchange(a: u64, b: u64, c: u64)
    ensures Xor(Xor(a, b), c) == Xor(Xor(a, c), b)
  {
    hide Xor;
    XorAssociates(a, b, c);
    XorAssociates(a, c, b);
    XorCommutes(b, c);
  }

  lemma XorSelf(a: u64)
    ensures Xor(a, a) == 0
  {
  }

  lemma XorUndone(a: u64, c: u64)
    ensures Xor(Xor(a, c), c) == a
  {
    hide Xor;
    XorAssociates(a, c, c);
    XorSelf(c);
    XorZero(a);
  }

  lemma XorCancels(a: u64, b: u64, c: u64)
    ensures Xor(a, c) == Xor(b, c) ==> a == b
    ensures Xor(c, a) == Xor(c, b) ==> a == b
  {
    hide Xor;
    XorUndone(a, c);
    XorUndone(b, c);
    XorCommutes(a, c);
    XorCommutes(b, c);
  }

  function XorShift30(x: u64): u64 {
    x ^ (x >> 30)
  }

  function UndoShift30(y: u64): u64 {
    y ^ (y >> 30) ^ (y >> 60)
  }

  lemma ShiftRaw30(x: u64)
    ensures (x ^ (x >> 30)) ^ ((x ^ (x >> 30)) >> 30) ^ ((x ^ (x >> 30)) >> 60) == x
    ensures (x ^ (x >> 30) ^ (x >> 60)) ^ ((x ^ (x >> 30) ^ (x >> 60)) >> 30) == x
  {
  }

  lemma ShiftInverse30(x: u64)
    ensures UndoShift30(XorShift30(x)) == x
    ensures XorShift30(UndoShift30(x)) == x
  {
    ShiftRaw30(x);
    assert XorShift30(x) == x ^ (x >> 30);
    assert UndoShift30(x) == x ^ (x >> 30) ^ (x >> 60);
  }

  function XorShift27(x: u64): u64 {
    x ^ (x >> 27)
  }

  function UndoShift27(y: u64): u64 {
    y ^ (y >> 27) ^ (y >> 54)
  }

  lemma ShiftRaw27(x: u64)
    ensures (x ^ (x >> 27)) ^ ((x ^ (x >> 27)) >> 27) ^ ((x ^ (x >> 27)) >> 54) == x
    ensures (x ^ (x >> 27) ^ (x >> 54)) ^ ((x ^ (x >> 27) ^ (x >> 54)) >> 27) == x
  {
  }

  lemma ShiftInverse27(x: u64)
    ensures UndoShift27(XorShift27(x)) == x
    ensures XorShift27(UndoShift27(x)) == x
  {
    ShiftRaw27(x);
    assert XorShift27(x) == x ^ (x >> 27);
    assert UndoShift27(x) == x ^ (x >> 27) ^ (x >> 54);
  }

  function XorShift31(x: u64): u64 {
    x ^ (x >> 31)
  }

  function UndoShift31(y: u64): u64 {
    y ^ (y >> 31) ^ (y >> 62)
  }

  lemma ShiftRaw31(x: u64)
    ensures (x ^ (x >> 31)) ^ ((x ^ (x >> 31)) >> 31) ^ ((x ^ (x >> 31)) >> 62) == x
    ensures (x ^ (x >> 31) ^ (x >> 62)) ^ ((x ^ (x >> 31) ^ (x >> 62)) >> 31) == x
  {
  }

  lemma ShiftInverse31(x: u64)
    ensures UndoShift31(XorShift31(x)) == x
    ensures XorShift31(UndoShift31(x)) == x
  {
    ShiftRaw31(x);
    assert XorShift31(x) == x ^ (x >> 31);
    assert UndoShift31(x) == x ^ (x >> 31) ^ (x >> 62);
  }

  function Times1(x: u64): u64 {
    x * 0xbf58476d1ce4e5b9
  }

  function UndoTimes1(y: u64): u64 {
    y * 0x96de1b173f119089
  }

  lemma TimesRaw1(x: u64)
    ensures x * 0xbf58476d1ce4e5b9 * 0x96de1b173f119089 == x
    ensures x * 0x96de1b173f119089 * 0xbf58476d1ce4e5b9 == x
  {
  }

  lemma TimesInverse1(x: u64)
    ensures UndoTimes1(Times1(x)) == x
    ensures Times1(UndoTimes1(x)) == x
  {
    TimesRaw1(x);
    assert Times1(x) == x * 0xbf58476d1ce4e5b9;
    assert UndoTimes1(x) == x * 0x96de1b173f119089;
  }

  function Times2(x: u64): u64 {
    x * 0x94d049bb133111eb
  }

  function UndoTimes2(y: u64): u64 {
    y * 0x319642b2d24d8ec3
  }

  lemma TimesRaw2(x: u64)
    ensures x * 0x94d049bb133111eb * 0x319642b2d24d8ec3 == x
    ensures x * 0x319642b2d24d8ec3 * 0x94d049bb133111eb == x
  {
  }

  lemma TimesInverse2(x: u64)
    ensures UndoTimes2(Times2(x)) == x
    ensures Times2(UndoTimes2(x)) == x
  {
    TimesRaw2(x);
    assert Times2(x) == x * 0x94d049bb133111eb;
    assert UndoTimes2(x) == x * 0x319642b2d24d8ec3;
  }

  function Mix64(x: u64): u64 {
    XorShift31(Times2(XorShift27(Times1(XorShift30(x)))))
  }

  /** The inverse: xor-shifts undone by repeating them, odd factors by their inverses modulo 2^64. */
  function Unmix64(y: u64): u64 {
    UndoShift30(UndoTimes1(UndoShift27(UndoTimes2(UndoShift31(y)))))
  }

  lemma UnmixMix(x: u64)
    ensures Unmix64(Mix64(x)) == x
  {
    ShiftInverse30(x);
    TimesInverse1(XorShift30(x));
    ShiftInverse27(Times1(XorShift30(x)));
    TimesInverse2(XorShift27(Times1(XorShift30(x))));
    ShiftInverse31(Times2(XorShift27(Times1(XorShift30(x)))));
  }

  lemma MixUnmix(y: u64)
    ensures Mix64(Unmix64(y)) == y
  {
    ShiftInverse31(y);
    TimesInverse2(UndoShift31(y));
    ShiftInverse27(UndoTimes2(UndoShift31(y)));
    TimesInverse1(UndoShift27(UndoTimes2(UndoShift31(y))));
    ShiftInverse30(UndoTimes1(UndoShift27(UndoTimes2(UndoShift31(y)))));
  }

  /** `mix64` is a permutation of the 64-bit words: `Unmix64` is its inverse on both sides. */
  lemma MixIsPermutation(x: u64)
    ensures Unmix64(Mix64(x)) == x
    ensures Mix64(Unmix64(x)) == x
  {
    hide Mix64, Unmix64;
    UnmixMix(x);
    MixUnmix(x);
  }

  lemma MixInjective(x: u64, y: u64)
    requires Mix64(x) == Mix64(y)
    ensures x == y
  {
    hide Mix64, Unmix64;
    MixIsPermutation(x);
    MixIsPermutation(y);
  }

  /** One step of a fold: mix the running value with a word. */
  function FoldWord(s: u64, m: u64): u64 {
    Mix64(Xor(s, m))
  }

  lemma FoldWordInjective(s: u64, t: u64, m: u64)
    requires FoldWord(s, m) == FoldWord(t, m)
    ensures s == t
  {
    hide Mix64, Xor;
    MixInjective(Xor(s, m), Xor(t, m));
    XorCancels(s, t, m);
  }

  /** The kernel's `pom_seed_fold`. */
  function SeedFold(nonce: u64, timestamp: u64, p0: u64, p1: u64, p2: u64, p3: u64): u64 {
    FoldWord(FoldWord(FoldWord(FoldWord(FoldWord(FoldWord(nonce, SEED_FOLD_SALT), timestamp), p0), p1), p2), p3)
  }

  /** `pom_block_seed`. */
  function PomBlockSeed(prePow: Bytes32, timestamp: u64, nonce: u64): u64 {
    var p := ChunkToWords(prePow);
    SeedFold(nonce, timestamp, p[0], p[1], p[2], p[3])
  }

  /** One step of a fold undone. */
  function UnfoldWord(y: u64, m: u64): u64 {
    Xor(Unmix64(y), m)
  }

  lemma UnfoldIsInverse(s: u64, m: u64)
    ensures UnfoldWord(FoldWord(s, m), m) == s
  {
    hide Mix64, Unmix64, Xor;
    MixIsPermutation(Xor(s, m));
    XorUndone(s, m);
  }

  /** Undoing the fold word by word, the header's last word first, gives the nonce back. */
  lemma SeedUnfolds(prePow: Bytes32, timestamp: u64, nonce: u64)
    ensures var p, seed := ChunkToWords(prePow), PomBlockSeed(prePow, timestamp, nonce);
      var header := UnfoldWord(UnfoldWord(UnfoldWord(UnfoldWord(seed, p[3]), p[2]), p[1]), p[0]);
      UnfoldWord(UnfoldWord(header, timestamp), 0x4B65727978531) == nonce
  {
    hide ChunkToWords, FoldWord, UnfoldWord;
    var p := ChunkToWords(prePow);
    var s0 := FoldWord(nonce, SEED_FOLD_SALT);
    var s1 := FoldWord(s0, timestamp);
    var s2 := FoldWord(s1, p[0]);
    var s3 := FoldWord(s2, p[1]);
    var s4 := FoldWord(s3, p[2]);
    UnfoldIsInverse(s4, p[3]);
    UnfoldIsInverse(s3, p[2]);
    UnfoldIsInverse(s2, p[1]);
    UnfoldIsInverse(s1, p[0]);
    UnfoldIsInverse(s0, timestamp);
    UnfoldIsInverse(nonce, SEED_FOLD_SALT);
  }

  lemma FoldWordBinds(s: u64, m: u64, n: u64)
    requires FoldWord(s, m) == FoldWord(s, n)
    ensures m == n
  {
    hide Mix64, Xor;
    MixInjective(Xor(s, m), Xor(s, n));
    XorCancels(m, n, s);
  }

  /** The seed depends on the timestamp. */
  lemma SeedBindsTimestamp(prePow: Bytes32, nonce: u64, t: u64, u: u64)
    requires PomBlockSeed(prePow, t, nonce) == PomBlockSeed(prePow, u, nonce)
    ensures t == u
  {
    hide FoldWord, ChunkToWords;
    var p, s := ChunkToWords(prePow), FoldWord(nonce, SEED_FOLD_SALT);
    var t1, u1 := FoldWord(s, t), FoldWord(s, u);
    HeaderFoldInjective(t1, u1, p[0], p[1], p[2], p[3]);
    FoldWordBinds(s, t, u);
  }

  lemma HeaderFoldInjective(s: u64, t: u64, p0: u64, p1: u64, p2: u64, p3: u64)
    requires FoldWord(FoldWord(FoldWord(FoldWord(s, p0), p1), p2), p3)
          == FoldWord(FoldWord(FoldWord(FoldWord(t, p0), p1), p2), p3)
    ensures s == t
  {
    hide FoldWord;
    var s1, t1 := FoldWord(s, p0), FoldWord(t, p0);
    var s2, t2 := FoldWord(s1, p1), FoldWord(t1, p1);
    FoldWordInjective(FoldWord(s2, p2), FoldWord(t2, p2), p3);
    FoldWordInjective(s2, t2, p2);
    FoldWordInjective(s1, t1, p1);
    FoldWordInjective(s, t, p0);
  }

  /** The seed depends on every word of the header: headers that differ in one word have different seeds. */
  lemma SeedBindsHeader(a: Bytes32, b: Bytes32, timestamp: u64, nonce: u64, i: nat)
    requires i < 4 && ChunkToWords(b) == ChunkToWords(a)[i := ChunkToWords(b)[i]] && a != b
    ensures PomBlockSeed(a, timestamp, nonce) != PomBlockSeed(b, timestamp, nonce)
  {
    hide FoldWord, ChunkToWords;
    var p, q := ChunkToWords(a), ChunkToWords(b);
    if p[i] == q[i] {
      assert p == q;
      ChunkRoundTrip(a);
      ChunkRoundTrip(b);
    } else if PomBlockSeed(a, timestamp, nonce) == PomBlockSeed(b, timestamp, nonce) {
      HeaderWordBinds(FoldWord(FoldWord(nonce, SEED_FOLD_SALT), timestamp), p, q, i);
    }
  }

  lemma HeaderWordBinds(s: u64, p: Words, q: Words, i: nat)
    requires i < 4 && q == p[i := q[i]]
    requires FoldWord(FoldWord(FoldWord(FoldWord(s, p[0]), p[1]), p[2]), p[3])
          == FoldWord(FoldWord(FoldWord(FoldWord(s, q[0]), q[1]), q[2]), q[3])
    ensures p[i] == q[i]
  {
    hide FoldWord;
    var p1, q1 := FoldWord(s, p[0]), FoldWord(s, q[0]);
    var p2, q2 := FoldWord(p1, p[1]), FoldWord(q1, q[1]);
    var p3, q3 := FoldWord(p2, p[2]), FoldWord(q2, q[2]);
    if i == 3 {
      FoldWordBinds(p3, p[3], q[3]);
    } else {
      FoldWordInjective(p3, q3, p[3]);
      if i == 2 {
        FoldWordBinds(p2, p[2], q[2]);
      } else {
        FoldWordInjective(p2, q2, p[2]);
        if i == 1 {
          FoldWordBinds(p1, p[1], q[1]);
        } else {
          FoldWordInjective(p1, q1, p[1]);
          FoldWordBinds(s, p[0], q[0]);
        }
      }
    }
  }

  /** For a fixed header and timestamp, distinct nonces walk from distinct seeds. */
  lemma SeedInjective(prePow: Bytes32, timestamp: u64, m: u64, n: u64)
    requires PomBlockSeed(prePow, timestamp, m) == PomBlockSeed(prePow, timestamp, n)
    ensures m == n
  {
    hide SeedFold, ChunkToWords;
    var p := ChunkToWords(prePow);
    SeedFoldInjective(timestamp, p[0], p[1], p[2], p[3], m, n);
  }

  lemma SeedFoldInjective(timestamp: u64, p0: u64, p1: u64, p2: u64, p3: u64, m: u64, n: u64)
    requires SeedFold(m, timestamp, p0, p1, p2, p3) == SeedFold(n, timestamp, p0, p1, p2, p3)
    ensures m == n
  {
    hide FoldWord;
    var m0, n0 := FoldWord(m, SEED_FOLD_SALT), FoldWord(n, SEED_FOLD_SALT);
    var m1, n1 := FoldWord(m0, timestamp), FoldWord(n0, timestamp);
    var m2, n2 := FoldWord(m1, p0), FoldWord(n1, p0);
    var m3, n3 := FoldWord(m2, p1), FoldWord(n2, p1);
    FoldWordInjective(FoldWord(m3, p2), FoldWord(n3, p2), p3);
    FoldWordInjective(m3, n3, p2);
    FoldWordInjective(m2, n2, p1);
    FoldWordInjective(m1, n1, p0);
    FoldWordInjective(m0, n0, timestamp);
    FoldWordInjective(m, n, SEED_FOLD_SALT);
  }

  function FourWords(w0: u64, w1: u64, w2: u64, w3: u64): Words {
    [w0, w1, w2, w3]
  }

  /** The kernel's `pom_pow_fold`: the four words of the pow value. */
  function PowFold(finalState: u64, p0: u64, p1: u64, p2: u64, p3: u64): Words {
    var o0 := FoldWord(Xor(finalState, p0), POW_SALT_0);
    var o1 := FoldWord(Xor(o0, p1), POW_SALT_1);
    var o2 := FoldWord(Xor(o1, p2), POW_SALT_2);
    var o3 := FoldWord(Xor(o2, p3), POW_SALT_3);
    FourWords(o0, o1, o2, o3)
  }

  function PowWords(finalState: u64, prePow: Bytes32): Words {
    var p := ChunkToWords(prePow);
    PowFold(finalState, p[0], p[1], p[2], p[3])
  }

  /** `pom_pow_value`. */
  function PomPowValue(finalState: u64, prePow: Bytes32): Bytes32 {
    WordsToBytes(PowWords(finalState, prePow))
  }

  lemma FoldUnmixes(s: u64, m: u64, y: u64)
    requires y == FoldWord(s, m)
    ensures Unmix64(y) == Xor(s, m)
  {
    hide Mix64, Unmix64, Xor;
    MixIsPermutation(Xor(s, m));
  }

  lemma PowFoldUnfolds(s: u64, p0: u64, p1: u64, p2: u64, p3: u64)
    ensures var o := PowFold(s, p0, p1, p2, p3);
      && Unmix64(o[0]) == Xor(Xor(s, p0), 0x9E3779B97F4A7C15)
      && Unmix64(o[1]) == Xor(Xor(o[0], p1), 0xC2B2AE3D27D4EB4F)
      && Unmix64(o[2]) == Xor(Xor(o[1], p2), 0x165667B19E3779F9)
      && Unmix64(o[3]) == Xor(Xor(o[2], p3), 0xD6E8FEB86659FD93)
  {
    hide FoldWord, Unmix64, Xor;
    var o := PowFold(s, p0, p1, p2, p3);
    FoldUnmixes(Xor(s, p0), POW_SALT_0, o[0]);
    FoldUnmixes(Xor(o[0], p1), POW_SALT_1, o[1]);
    FoldUnmixes(Xor(o[1], p2), POW_SALT_2, o[2]);
    FoldUnmixes(Xor(o[2], p3), POW_SALT_3, o[3]);
  }

  /** Each word of the pow value, unmixed, gives back the one before it, and the first the final state: no word of
      the header and no salt can be left out or exchanged. */
  lemma PowUnfolds(finalState: u64, prePow: Bytes32)
    ensures var p, o := ChunkToWords(prePow), ChunkToWords(PomPowValue(finalState, prePow));
      && Unmix64(o[0]) == Xor(Xor(finalState, p[0]), 0x9E3779B97F4A7C15)
      && Unmix64(o[1]) == Xor(Xor(o[0], p[1]), 0xC2B2AE3D27D4EB4F)
      && Unmix64(o[2]) == Xor(Xor(o[1], p[2]), 0x165667B19E3779F9)
      && Unmix64(o[3]) == Xor(Xor(o[2], p[3]), 0xD6E8FEB86659FD93)
  {
    hide ChunkToWords, WordsToBytes, PowFold, Unmix64, Xor;
    var p, o := ChunkToWords(prePow), PowWords(finalState, prePow);
    WordsRoundTrip(o);
    PowFoldUnfolds(finalState, p[0], p[1], p[2], p[3]);
  }

  /** The pow value determines the final state. */
  lemma PowInjective(prePow: Bytes32, s: u64, t: u64)
    requires PomPowValue(s, prePow) == PomPowValue(t, prePow)
    ensures s == t
  {
    hide PowFold, ChunkToWords, WordsToBytes, PowWords;
    WordsRoundTrip(PowWords(s, prePow));
    WordsRoundTrip(PowWords(t, prePow));
    PowWordsInjective(prePow, s, t);
  }

  lemma PowWordsInjective(prePow: Bytes32, s: u64, t: u64)
    requires PowWords(s, prePow) == PowWords(t, prePow)
    ensures s == t
  {
    hide PowFold, ChunkToWords;
    var p := ChunkToWords(prePow);
    PowFoldInjective(p[0], p[1], p[2], p[3], s, t);
  }

  lemma PowFoldInjective(p0: u64, p1: u64, p2: u64, p3: u64, s: u64, t: u64)
    requires PowFold(s, p0, p1, p2, p3) == PowFold(t, p0, p1, p2, p3)
    ensures s == t
  {
    hide FoldWord, Xor;
    assert PowFold(s, p0, p1, p2, p3)[0] == PowFold(t, p0, p1, p2, p3)[0];
    FoldWordInjective(Xor(s, p0), Xor(t, p0), POW_SALT_0);
    XorCancels(s, t, p0);
  }

  /** `transition`: xor in the four words of the chunk, then mix. */
  function Transition(state: u64, chunk: Words): u64 {
    Mix64(XorWords(state, chunk[0], chunk[1], chunk[2], chunk[3]))
  }

  function XorWords(state: u64, w0: u64, w1: u64, w2: u64, w3: u64): u64 {
    Xor(Xor(Xor(Xor(state, w0), w1), w2), w3)
  }

  /** `transition` as the loop over the words of the chunk. */
  method MixChunk(state: u64, chunk: Words) returns (next: u64)
    ensures next == Transition(state, chunk)
  {
    hide Mix64, Xor;
    var h := state;
    for i := 0 to 4
      invariant i == 0 ==> h == state
      invariant i == 1 ==> h == Xor(state, chunk[0])
      invariant i == 2 ==> h == Xor(Xor(state, chunk[0]), chunk[1])
      invariant i == 3 ==> h == Xor(Xor(Xor(state, chunk[0]), chunk[1]), chunk[2])
      invariant i == 4 ==> h == XorWords(state, chunk[0], chunk[1], chunk[2], chunk[3])
    {
      h := Xor(h, chunk[i]);
    }
    next := Mix64(h);
  }

  /** Known values of `mix64`; the second is the first output of splitmix64 from zero. */
  lemma KnownMixes()
    ensures Mix64(1) == 0x5692161D100B05E5 && Mix64(0x9E3779B97F4A7C15) == 0xE220A8397B1DCDAF
  {
  }

  /** The words of a chunk, combined. */
  function XorOf(chunk: Words): u64 {
    Xor(Xor(Xor(chunk[0], chunk[1]), chunk[2]), chunk[3])
  }

  lemma CombinedWords(s: u64, c: Words)
    ensures XorWords(s, c[0], c[1], c[2], c[3]) == Xor(s, XorOf(c))
  {
    hide Xor;
    XorAssociates(s, c[0], c[1]);
    XorAssociates(s, Xor(c[0], c[1]), c[2]);
    XorAssociates(s, Xor(Xor(c[0], c[1]), c[2]), c[3]);
  }

  /** Two transitions meet if and only if their states and chunks combine to the same word. */
  lemma TransitionsMeetIff(s: u64, c: Words, t: u64, d: Words)
    ensures Transition(s, c) == Transition(t, d) <==> Xor(s, XorOf(c)) == Xor(t, XorOf(d))
  {
    hide Mix64, Xor, XorOf, XorWords;
    CombinedWords(s, c);
    CombinedWords(t, d);
    if Transition(s, c) == Transition(t, d) {
      MixInjective(Xor(s, XorOf(c)), Xor(t, XorOf(d)));
    }
  }

  /** A word may be moved from the chunk into the state; a chunk of zeros leaves the mix of the state alone. */
  lemma TransitionMovesWord(s: u64, c: Words, i: nat)
    requires i < 4
    ensures Transition(s, c) == Transition(Xor(s, c[i]), c[i := 0])
    ensures Transition(s, [0, 0, 0, 0]) == Mix64(s)
  {
    hide Mix64, Xor;
    WordMoves(s, c, i);
    XorZero(s);
  }

  lemma WordMoves(s: u64, c: Words, i: nat)
    requires i < 4
    ensures var d := c[i := 0];
      XorWords(s, c[0], c[1], c[2], c[3]) == XorWords(Xor(s, c[i]), d[0], d[1], d[2], d[3])
  {
    hide Xor;
    var w := c[i];
    var s0 := if i > 0 then Xor(s, c[0]) else s;
    var s1 := if i > 1 then Xor(s0, c[1]) else s0;
    var s2 := if i > 2 then Xor(s1, c[2]) else s1;
    XorExchange(s, c[0], w);
    XorExchange(s0, c[1], w);
    XorExchange(s1, c[2], w);
    XorZero(Xor(s2, w));
  }

  /** Chunks that differ in exactly one word lead to different states. */
  lemma OneWordDecides(s: u64, c: Words, d: Words, i: nat)
    requires i < 4 && d == c[i := d[i]] && c[i] != d[i]
    ensures Transition(s, c) != Transition(s, d)
  {
    hide Mix64, Xor, XorOf;
    CombinedDecides(c, d, i);
    XorCancels(XorOf(c), XorOf(d), s);
    TransitionsMeetIff(s, c, s, d);
  }

  lemma CombinedDecides(c: Words, d: Words, i: nat)
    requires i < 4 && d == c[i := d[i]] && c[i] != d[i]
    ensures XorOf(c) != XorOf(d)
  {
    hide Xor;
    var c0, c1, c2, c3 := c[0], c[1], c[2], c[3];
    ChainCancels(c0, c1, c2, c3, d[i]);
    assert (i == 0 || d[0] == c0) && (i == 1 || d[1] == c1) && (i == 2 || d[2] == c2) && (i == 3 || d[3] == c3);
  }

  /** Replacing one member of a combination by a different word changes it. */
  lemma ChainCancels(a: u64, b: u64, c: u64, d: u64, v: u64)
    ensures Xor(Xor(Xor(a, b), c), d) == Xor(Xor(Xor(v, b), c), d) ==> a == v
    ensures Xor(Xor(Xor(a, b), c), d) == Xor(Xor(Xor(a, v), c), d) ==> b == v
    ensures Xor(Xor(Xor(a, b), c), d) == Xor(Xor(Xor(a, b), v), d) ==> c == v
    ensures Xor(Xor(Xor(a, b), c), d) == Xor(Xor(Xor(a, b), c), v) ==> d == v
  {
    hide Xor;
    XorCancels(Xor(Xor(a, b), c), Xor(Xor(v, b), c), d);
    XorCancels(Xor(a, b), Xor(v, b), c);
    XorCancels(a, v, b);
    XorCancels(Xor(Xor(a, b), c), Xor(Xor(a, v), c), d);
    XorCancels(Xor(a, b), Xor(a, v), c);
    XorCancels(b, v, a);
    XorCancels(Xor(Xor(a, b), c), Xor(Xor(a, b), v), d);
    XorCancels(c, v, Xor(a, b));
    XorCancels(d, v, Xor(Xor(a, b), c));
  }
}
