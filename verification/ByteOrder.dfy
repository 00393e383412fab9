/** Comparing little-endian numbers: byte by byte on the host, word by word in the kernel. */
module ByteOrder {
  import opened Arith
  import opened Bytes
  import opened Digits

  lemma HighestByteDecides(a: seq<byte>, b: seq<byte>, i: nat)
    requires |a| == |b| && i < |a| && a[i] < b[i] && (forall j | i < j < |a| :: a[j] == b[j])
    ensures LeValue(a) < LeValue(b)
  {
    ByteLess(a[i], b[i]);
    NumsBelow(a);
    HighestDigitDecides(256, Nums(a), Nums(b), i);
  }

  /** `le_leq`: the scan from the last byte down decides the numeric order. */
  method LeLeq(a: Bytes32, b: Bytes32) returns (leq: bool)
    ensures leq <==> LeValue(a) <= LeValue(b)
  {
    var i := 32;
    while i > 0
      invariant 0 <= i <= 32 && forall j | i <= j < 32 :: a[j] == b[j]
    {
      i := i - 1;
      if a[i] < b[i] {
        HighestByteDecides(a, b, i);
        return true;
      }
      if a[i] > b[i] {
        HighestByteDecides(b, a, i);
        return false;
      }
    }
    assert a == b;
    return true;
  }

  // ---------------------------------------------------------------------------------------------
  // Words

  lemma Byte0Decides(v: u64, w: u64)
    requires (v & 0xFF) <= (w & 0xFF)
    ensures ByteOf(v, 0) <= ByteOf(w, 0)
  {
  }

  lemma Byte1Decides(v: u64, w: u64)
    requires (v & 0xFFFF) <= (w & 0xFFFF)
    ensures ByteOf(v, 1) < ByteOf(w, 1) || (ByteOf(v, 1) == ByteOf(w, 1) && (v & 0xFF) <= (w & 0xFF))
  {
  }

  lemma Byte2Decides(v: u64, w: u64)
    requires (v & 0xFFFFFF) <= (w & 0xFFFFFF)
    ensures ByteOf(v, 2) < ByteOf(w, 2) || (ByteOf(v, 2) == ByteOf(w, 2) && (v & 0xFFFF) <= (w & 0xFFFF))
  {
  }

  lemma Byte3Decides(v: u64, w: u64)
    requires (v & 0xFFFFFFFF) <= (w & 0xFFFFFFFF)
    ensures ByteOf(v, 3) < ByteOf(w, 3) || (ByteOf(v, 3) == ByteOf(w, 3) && (v & 0xFFFFFF) <= (w & 0xFFFFFF))
  {
  }

  lemma Byte4Decides(v: u64, w: u64)
    requires (v & 0xFFFFFFFFFF) <= (w & 0xFFFFFFFFFF)
    ensures ByteOf(v, 4) < ByteOf(w, 4) || (ByteOf(v, 4) == ByteOf(w, 4) && (v & 0xFFFFFFFF) <= (w & 0xFFFFFFFF))
  {
  }

  lemma Byte5Decides(v: u64, w: u64)
    requires (v & 0xFFFFFFFFFFFF) <= (w & 0xFFFFFFFFFFFF)
    ensures ByteOf(v, 5) < ByteOf(w, 5) || (ByteOf(v, 5) == ByteOf(w, 5) && (v & 0xFFFFFFFFFF) <= (w & 0xFFFFFFFFFF))
  {
  }

  lemma Byte6Decides(v: u64, w: u64)
    requires (v & 0xFFFFFFFFFFFFFF) <= (w & 0xFFFFFFFFFFFFFF)
    ensures ByteOf(v, 6) < ByteOf(w, 6)
            || (ByteOf(v, 6) == ByteOf(w, 6) && (v & 0xFFFFFFFFFFFF) <= (w & 0xFFFFFFFFFFFF))
  {
  }

  lemma Byte7Decides(v: u64, w: u64)
    requires v <= w
    ensures ByteOf(v, 7) < ByteOf(w, 7)
            || (ByteOf(v, 7) == ByteOf(w, 7) && (v & 0xFFFFFFFFFFFFFF) <= (w & 0xFFFFFFFFFFFFFF))
  {
  }

  /** The number formed by the low `n` bytes is no greater. */
  predicate LowLeq(v: u64, w: u64, n: nat)
    requires n <= 8
  {
    if n == 8 then v <= w
    else if n == 7 then (v & 0xFFFFFFFFFFFFFF) <= (w & 0xFFFFFFFFFFFFFF)
    else if n == 6 then (v & 0xFFFFFFFFFFFF) <= (w & 0xFFFFFFFFFFFF)
    else if n == 5 then (v & 0xFFFFFFFFFF) <= (w & 0xFFFFFFFFFF)
    else if n == 4 then (v & 0xFFFFFFFF) <= (w & 0xFFFFFFFF)
    else if n == 3 then (v & 0xFFFFFF) <= (w & 0xFFFFFF)
    else if n == 2 then (v & 0xFFFF) <= (w & 0xFFFF)
    else if n == 1 then (v & 0xFF) <= (w & 0xFF)
    else true
  }

  lemma LowLeqStep(v: u64, w: u64, k: nat)
    requires k < 8 && LowLeq(v, w, k + 1)
    ensures ByteOf(v, k) < ByteOf(w, k) || (ByteOf(v, k) == ByteOf(w, k) && LowLeq(v, w, k))
            || (k == 0 && ByteOf(v, k) <= ByteOf(w, k))
  {
    hide ByteOf;
    if k == 7 {
      Byte7Decides(v, w);
    } else if k == 6 {
      Byte6Decides(v, w);
    } else if k == 5 {
      Byte5Decides(v, w);
    } else if k == 4 {
      Byte4Decides(v, w);
    } else if k == 3 {
      Byte3Decides(v, w);
    } else if k == 2 {
      Byte2Decides(v, w);
    } else if k == 1 {
      Byte1Decides(v, w);
    } else {
      Byte0Decides(v, w);
    }
  }

  /** When the low bytes are no greater, the highest of them that differs is less. */
  lemma {:induction false} DifferingByteLess(v: u64, w: u64, n: nat, i: nat)
    requires i < n <= 8 && LowLeq(v, w, n)
    requires ByteOf(v, i) != ByteOf(w, i) && (forall j | i < j < n :: ByteOf(v, j) == ByteOf(w, j))
    ensures ByteOf(v, i) < ByteOf(w, i)
  {
    hide ByteOf, LowLeq;
    LowLeqStep(v, w, n - 1);
    ByteStrict(ByteOf(v, n - 1), ByteOf(w, n - 1));
    if i < n - 1 {
      DifferingByteLess(v, w, n - 1, i);
    }
  }

  lemma ByteStrict(a: byte, b: byte)
    ensures a != b && a <= b ==> a < b
    ensures a == b ==> !(a < b)
  {
  }

  /** Different words differ in a byte; this is the highest. */
  lemma {:induction false} HighestByte(v: u64, w: u64, n: nat) returns (i: nat)
    requires v != w && n <= 8 && (forall j | n <= j < 8 :: ByteOf(v, j) == ByteOf(w, j))
    ensures i < 8 && ByteOf(v, i) != ByteOf(w, i) && (forall j | i < j < 8 :: ByteOf(v, j) == ByteOf(w, j))
  {
    hide ByteOf;
    i := 0;
    if n == 0 {
      assert Le64(v) == Le64(w);
      Le64Injective(v, w);
    } else if ByteOf(v, n - 1) != ByteOf(w, n - 1) {
      i := n - 1;
    } else {
      i := HighestByte(v, w, n - 1);
    }
  }

  predicate WordLess(v: u64, w: u64) {
    v < w
  }

  predicate WordLeq(v: u64, w: u64) {
    v <= w
  }

  /** `pom_le_leq`. */
  predicate PomLeLeq(a: Words, b: Words) {
    if a[3] != b[3] then WordLess(a[3], b[3])
    else if a[2] != b[2] then WordLess(a[2], b[2])
    else if a[1] != b[1] then WordLess(a[1], b[1])
    else WordLeq(a[0], b[0])
  }

  lemma LeqIsLow(v: u64, w: u64)
    requires WordLeq(v, w)
    ensures LowLeq(v, w, 8)
  {
  }

  lemma WordDecides(a: Words, b: Words, k: nat)
    requires k < 4 && a[k] != b[k] && WordLeq(a[k], b[k]) && (forall j | k < j < 4 :: a[j] == b[j])
    ensures LeValue(WordsToBytes(a)) < LeValue(WordsToBytes(b))
  {
    hide ByteOf, WordsToBytes, LeValue, LowLeq, WordLeq;
    var i := HighestByte(a[k], b[k], 8);
    LeqIsLow(a[k], b[k]);
    DifferingByteLess(a[k], b[k], 8, i);
    WordByteDecides(a, b, k, i);
  }

  lemma WordByteDecides(a: Words, b: Words, k: nat, i: nat)
    requires k < 4 && i < 8 && ByteOf(a[k], i) < ByteOf(b[k], i)
    requires forall j | i < j < 8 :: ByteOf(a[k], j) == ByteOf(b[k], j)
    requires forall j | k < j < 4 :: a[j] == b[j]
    ensures LeValue(WordsToBytes(a)) < LeValue(WordsToBytes(b))
  {
    hide ByteOf, WordsToBytes, LeValue;
    forall j | 0 <= j < 32
      ensures WordsToBytes(a)[j] == ByteOf(a[j / 8], j % 8) && WordsToBytes(b)[j] == ByteOf(b[j / 8], j % 8)
    {
      ByteOfWord(a, j);
      ByteOfWord(b, j);
    }
    HighestByteDecides(WordsToBytes(a), WordsToBytes(b), 8 * k + i);
  }

  lemma ByteOfWord(a: Words, j: nat)
    requires j < 32
    ensures WordsToBytes(a)[j] == ByteOf(a[j / 8], j % 8)
  {
  }

  lemma LessIsLeq(v: u64, w: u64)
    requires WordLess(v, w)
    ensures WordLeq(v, w)
  {
  }

  lemma LessIsNotGreater(v: u64, w: u64)
    ensures WordLess(v, w) <==> !WordLeq(w, v)
  {
  }

  /** Words above `k` agree and word `k` differs: both tests decide on it. */
  lemma DecideAt(a: Words, b: Words, k: nat)
    requires k < 4 && a[k] != b[k] && (forall j | k < j < 4 :: a[j] == b[j])
    ensures PomLeLeq(a, b) <==> LeValue(WordsToBytes(a)) <= LeValue(WordsToBytes(b))
  {
    hide WordsToBytes, LeValue, WordLess, WordLeq;
    LessIsNotGreater(a[k], b[k]);
    LessIsNotGreater(b[k], a[k]);
    assert PomLeLeq(a, b) <==> if k > 0 then WordLess(a[k], b[k]) else WordLeq(a[0], b[0]);
    if PomLeLeq(a, b) {
      if k > 0 {
        LessIsLeq(a[k], b[k]);
      }
      WordDecides(a, b, k);
    } else {
      if k == 0 {
        LessIsLeq(b[0], a[0]);
      }
      WordDecides(b, a, k);
    }
  }

  /** The kernel's word-wise test decides the order of the 256-bit numbers, as `le_leq` does. */
  lemma PomLeLeqIsNumeric(a: Words, b: Words)
    ensures PomLeLeq(a, b) <==> LeValue(WordsToBytes(a)) <= LeValue(WordsToBytes(b))
  {
    hide WordsToBytes, LeValue, WordLess;
    if a[3] != b[3] {
      DecideAt(a, b, 3);
    } else if a[2] != b[2] {
      DecideAt(a, b, 2);
    } else if a[1] != b[1] {
      DecideAt(a, b, 1);
    } else if a[0] != b[0] {
      DecideAt(a, b, 0);
    } else {
      assert WordLeq(a[0], b[0]);
      assert a == b;
    }
  }
}
