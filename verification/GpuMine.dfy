/** The GPU search: the gather built on the host, the kernel's tensor search and walk, and the winner cell. */
module GpuMine {
  import opened Arith
  import opened Bytes
  import opened ByteOrder
  import opened Mix
  import opened Canonical
  import opened ModMagic
  import opened Possession
  import opened Mining
  import WeightIndex

  const TWO32: nat := 0x1_0000_0000

  /** Unrolled steps of `find_tensor`. */
  const SEARCH_STEPS: nat := 10

  // ---------------------------------------------------------------------------------------------
  // The gather

  /** `bases[t]` stands for the device pointer to the bytes of the `t`-th nonempty tensor. */
  datatype GatherTable = GatherTable(bases: seq<seq<byte>>, prefix: seq<nat>)

  /** Increasing chunk boundaries, one more than there are tensors. */
  ghost predicate Boundaries(prefix: seq<nat>) {
    && prefix != [] && prefix[0] == 0
    && forall i | 0 <= i < |prefix| - 1 :: prefix[i] < prefix[i + 1]
  }

  ghost predicate Holds(g: GatherTable, t: nat, chunks: seq<Bytes32>)
    requires t < |g.bases| && |g.prefix| == |g.bases| + 1
  {
    && g.prefix[t] + |g.bases[t]| / 32 == g.prefix[t + 1]
    && g.prefix[t + 1] <= |chunks|
    && forall c | 0 <= c < |g.bases[t]| / 32 :: g.bases[t][32 * c..32 * c + 32] == chunks[g.prefix[t] + c]
  }

  /** The gather lays out exactly the canonical chunks. */
  ghost predicate Gathers(g: GatherTable, chunks: seq<Bytes32>) {
    && |g.prefix| == |g.bases| + 1 && Boundaries(g.prefix)
    && g.prefix[|g.bases|] == |chunks|
    && forall t | 0 <= t < |g.bases| :: Holds(g, t, chunks)
  }

  lemma GatherGrows(g: GatherTable, chunks: seq<Bytes32>, t: Tensor)
    requires Gathers(g, chunks) && t.Full() > 0
    ensures Gathers(GatherTable(g.bases + [t.data], g.prefix + [|chunks| + t.Full()]), chunks + t.Chunks())
  {
    var more := GatherTable(g.bases + [t.data], g.prefix + [|chunks| + t.Full()]);
    forall i | 0 <= i < |more.bases|
      ensures Holds(more, i, chunks + t.Chunks())
    {
      if i < |g.bases| {
        assert Holds(g, i, chunks);
      } else {
        forall c | 0 <= c < t.Full()
          ensures t.data[32 * c..32 * c + 32] == (chunks + t.Chunks())[|chunks| + c]
        {
          assert t.Chunk(c) == t.Chunks()[c];
        }
      }
    }
  }

  /** A number kept in 32 bits. */
  function Wrap32(n: nat): (r: nat)
    ensures r < TWO32
    ensures r == n <==> n < TWO32
  {
    n % TWO32
  }

  lemma WrapSum(a: nat, b: nat)
    ensures Wrap32(Wrap32(a) + Wrap32(b)) == Wrap32(a + b)
  {
  }

  lemma GatherSkips(chunks: seq<Bytes32>, t: Tensor)
    requires t.Full() == 0
    ensures chunks + t.Chunks() == chunks
  {
  }

  /** `load`: chunk counts and their running sum are 32-bit. If the total equals the true chunk count,
      as `ensure_installed` checks, nothing was truncated and the gather is the canonical layout. */
  method LoadGather(ts: seq<Tensor>) returns (g: GatherTable)
    ensures |g.prefix| == |g.bases| + 1 && g.prefix[|g.bases|] == Wrap32(|Chunks(ts)|)
    ensures g.prefix[|g.bases|] == |Chunks(ts)| ==> Gathers(g, Chunks(ts))
  {
    hide Wrap32, Gathers;
    g := GatherTable([], [0]);
    NothingGathered();
    for j := 0 to |ts|
      invariant |g.prefix| == |g.bases| + 1 && g.prefix[|g.bases|] == Wrap32(|Chunks(ts[..j])|)
      invariant |Chunks(ts[..j])| < TWO32 ==> Gathers(g, Chunks(ts[..j]))
    {
      ChunksStep(ts[..j + 1]);
      assert ts[..j + 1][..j] == ts[..j];
      var count := Wrap32(ts[j].Full());
      WrapSum(|Chunks(ts[..j])|, ts[j].Full());
      if |Chunks(ts[..j + 1])| < TWO32 {
        if count > 0 {
          GatherGrows(g, Chunks(ts[..j]), ts[j]);
        } else {
          GatherSkips(Chunks(ts[..j]), ts[j]);
        }
      }
      if count > 0 {
        var last := g.prefix[|g.bases|];
        g := GatherTable(g.bases + [ts[j].data], g.prefix + [Wrap32(last + count)]);
      }
    }
    assert ts[..|ts|] == ts;
  }

  lemma NothingGathered()
    ensures Gathers(GatherTable([], [0]), []) && Wrap32(0) == 0
  {
  }

  /** `load`: refused exactly when the 32-bit total is zero. */
  method Load(ts: seq<Tensor>) returns (r: Option<GatherTable>)
    ensures r.Some? <==> Wrap32(|Chunks(ts)|) != 0
    ensures r.Some? && |Chunks(ts)| < TWO32 ==> Gathers(r.value, Chunks(ts))
  {
    var g := LoadGather(ts);
    r := if g.prefix[|g.bases|] == 0 then None else Some(g);
  }

  // ---------------------------------------------------------------------------------------------
  // The tensor search

  /** `steps` predicated halvings of `[lo, hi]`. */
  function Halve(prefix: seq<nat>, lo: nat, hi: nat, off: nat, steps: nat): (t: nat)
    requires lo <= hi < |prefix|
    ensures lo <= t <= hi
    decreases steps
  {
    if steps == 0 then lo
    else
      var mid := (lo + hi) / 2;
      if prefix[mid] <= off then Halve(prefix, mid, hi, off, steps - 1) else Halve(prefix, lo, mid, off, steps - 1)
  }

  /** The repeated line of `find_tensor`: both bounds move by predicated selects. */
  method HalvingSteps(prefix: seq<nat>, t: nat, off: nat, steps: nat) returns (lo: nat)
    requires |prefix| == t + 1
    ensures lo == Halve(prefix, 0, t, off, steps)
  {
    lo := 0;
    var hi: nat := t;
    for step := 0 to steps
      invariant lo <= hi <= t
      invariant Halve(prefix, lo, hi, off, steps - step) == Halve(prefix, 0, t, off, steps)
    {
      var mid := (lo + hi) / 2;
      var pred := prefix[mid] <= off;
      lo := if pred then mid else lo;
      hi := if pred then hi else mid;
    }
  }

  /** Chunk `off` lies in tensor `t`. */
  ghost predicate Located(prefix: seq<nat>, off: nat, t: nat) {
    t + 1 < |prefix| && prefix[t] <= off < prefix[t + 1]
  }

  lemma {:induction false} BoundariesAscend(prefix: seq<nat>, i: nat, j: nat)
    requires Boundaries(prefix) && i < j < |prefix|
    ensures prefix[i] < prefix[j]
    decreases j
  {
    if i + 1 < j {
      BoundariesAscend(prefix, i, j - 1);
    }
  }

  /** Enough halvings for the width find the tensor. */
  lemma {:induction false} HalvingFinds(prefix: seq<nat>, lo: nat, hi: nat, off: nat, steps: nat)
    requires lo < hi < |prefix| && prefix[lo] <= off < prefix[hi] && hi - lo <= Pow2(steps)
    ensures Located(prefix, off, Halve(prefix, lo, hi, off, steps))
    decreases steps
  {
    if steps > 0 {
      var mid := (lo + hi) / 2;
      if prefix[mid] <= off {
        HalvingFinds(prefix, mid, hi, off, steps - 1);
      } else {
        HalvingFinds(prefix, lo, mid, off, steps - 1);
      }
    }
  }

  /** Too few halvings miss the tensor of some chunk: the first chunk of some tensor in the range. */
  lemma {:induction false} HalvingMisses(prefix: seq<nat>, lo: nat, hi: nat, steps: nat) returns (t: nat)
    requires Boundaries(prefix) && lo < hi < |prefix| && hi - lo > Pow2(steps)
    ensures lo <= t < hi && Halve(prefix, lo, hi, prefix[t], steps) != t
    decreases steps
  {
    if steps == 0 {
      t := lo + 1;
    } else {
      var mid := (lo + hi) / 2;
      t := HalvingMisses(prefix, mid, hi, steps - 1);
      if mid < t {
        BoundariesAscend(prefix, mid, t);
      }
    }
  }

  lemma TenSteps()
    ensures Pow2(10) == 1024
  {
    assert Pow2(5) == 32;
    assert Pow2(10) == 32 * Pow2(5);
  }

  lemma LocatedUnique(prefix: seq<nat>, off: nat, s: nat, t: nat)
    requires Boundaries(prefix) && Located(prefix, off, s) && Located(prefix, off, t)
    ensures s == t
  {
    if s + 1 < t {
      BoundariesAscend(prefix, s + 1, t);
    } else if t + 1 < s {
      BoundariesAscend(prefix, t + 1, s);
    }
  }

  /** The ten unrolled steps of `find_tensor` find the tensor of chunk `off`. */
  ghost predicate FoundInTen(prefix: seq<nat>, off: nat)
    requires prefix != []
  {
    Located(prefix, off, Halve(prefix, 0, |prefix| - 1, off, SEARCH_STEPS))
  }

  /** The ten-step search finds the tensor of every chunk if and only if there are at most 1024 tensors. */
  lemma TenStepsSufficeIff(prefix: seq<nat>)
    requires Boundaries(prefix) && |prefix| >= 2
    ensures (forall off: nat | off < prefix[|prefix| - 1] :: FoundInTen(prefix, off)) <==> |prefix| - 1 <= 1024
  {
    TenSteps();
    var t := |prefix| - 1;
    if t <= 1024 {
      forall off: nat | off < prefix[t]
        ensures FoundInTen(prefix, off)
      {
        HalvingFinds(prefix, 0, t, off, 10);
      }
    } else {
      var miss := HalvingMisses(prefix, 0, t, 10);
      var off := prefix[miss];
      BoundariesAscend(prefix, miss, t);
      BoundariesAscend(prefix, miss, miss + 1);
      assert Located(prefix, off, miss);
      if FoundInTen(prefix, off) {
        LocatedUnique(prefix, off, miss, Halve(prefix, 0, t, off, 10));
      }
    }
  }

  // ---------------------------------------------------------------------------------------------
  // The kernel

  lemma HasTensor(g: GatherTable, chunks: seq<Bytes32>)
    requires Gathers(g, chunks) && chunks != []
    ensures g.bases != []
  {
  }

  /** The search never passes the end of the table nor the chunk it looks for. */
  lemma {:induction false} HalvingStaysBelow(prefix: seq<nat>, lo: nat, hi: nat, off: nat, steps: nat)
    requires lo < hi < |prefix| && prefix[lo] <= off
    ensures var t := Halve(prefix, lo, hi, off, steps); t < hi && prefix[t] <= off
    decreases steps
  {
    if steps > 0 {
      var mid := (lo + hi) / 2;
      if prefix[mid] <= off {
        HalvingStaysBelow(prefix, mid, hi, off, steps - 1);
      } else {
        HalvingStaysBelow(prefix, lo, mid, off, steps - 1);
      }
    }
  }

  /** A read at a tensor found below the chunk stays inside its bytes exactly when it is the chunk's own tensor. */
  lemma ReadIsInsideIff(g: GatherTable, off: nat, chunks: seq<Bytes32>, lo: nat)
    requires Gathers(g, chunks) && lo < |g.bases| && g.prefix[lo] <= off
    ensures 32 * (off - g.prefix[lo]) + 32 <= |g.bases[lo]| <==> Located(g.prefix, off, lo)
  {
    assert Holds(g, lo, chunks);
  }

  lemma LocatedIsChunk(g: GatherTable, off: nat, chunks: seq<Bytes32>, lo: nat)
    requires Gathers(g, chunks) && Located(g.prefix, off, lo)
    ensures off < |chunks|
  {
    assert Holds(g, lo, chunks);
  }

  lemma LocatedChunk(g: GatherTable, off: nat, chunks: seq<Bytes32>, lo: nat)
    requires Gathers(g, chunks) && off < |chunks| && Located(g.prefix, off, lo)
    ensures lo < |g.bases| && 32 * (off - g.prefix[lo]) + 32 <= |g.bases[lo]|
    ensures g.bases[lo][32 * (off - g.prefix[lo])..32 * (off - g.prefix[lo]) + 32] == chunks[off]
  {
    assert Holds(g, lo, chunks);
    assert g.prefix[lo] + (off - g.prefix[lo]) == off;
  }

  /** The gather of one 32-byte chunk: the one the host reads, or a read outside the tensor found, exactly when the
      ten steps do not find the tensor of a chunk in range. */
  method LoadChunk(g: GatherTable, off: nat, ghost chunks: seq<Bytes32>) returns (words: Option<Words>)
    requires Gathers(g, chunks) && chunks != []
    ensures words == if off < |chunks| && FoundInTen(g.prefix, off) then Some(ChunkToWords(chunks[off])) else None
  {
    hide ChunkToWords, Halve, Located;
    HasTensor(g, chunks);
    HalvingStaysBelow(g.prefix, 0, |g.bases|, off, SEARCH_STEPS);
    var lo := HalvingSteps(g.prefix, |g.bases|, off, SEARCH_STEPS);
    ReadIsInsideIff(g, off, chunks, lo);
    var local: nat := off - g.prefix[lo];
    if 32 * local + 32 > |g.bases[lo]| {
      return None;
    }
    LocatedIsChunk(g, off, chunks, lo);
    LocatedChunk(g, off, chunks, lo);
    words := Some(ChunkToWords(g.bases[lo][32 * local..32 * local + 32]));
  }

  ghost predicate ExactModulo(m: Magic, n: nat)
    requires n > 0
  {
    forall a: nat | a < TWO64 :: FastMod(a, m, n) == a % n
  }

  /** The constant the host finds makes the kernel's remainder exact if and only if it is zero, which means
      plain `%`, or its rounding error meets the closed form; the self-test alone does not decide this. */
  lemma ExactModuloIff(m: Magic, n: nat)
    requires 0 < n < TWO64 && (m.magic == 0 || IsReciprocal(m, n))
    ensures ExactModulo(m, n) <==> m.magic == 0 || Excess(m, n) * LastBelowMultiple(n) < Pow2(64 + m.shift)
  {
    if m.magic != 0 {
      hide FastMod, Excess, LastBelowMultiple, Pow2;
      ExactEverywhereIff(m, n);
    }
  }

  /** What `mod_magic` returns for `n`. */
  ghost predicate IsReturned(m: Magic, n: nat) {
    m.magic == 0 || IsReciprocal(m, n)
  }

  /** From this state the kernel reads the chunk the host reads: its remainder is right and its search finds the
      tensor. */
  ghost predicate StepSound(g: GatherTable, m: Magic, chunks: seq<Bytes32>, state: u64)
    requires chunks != [] && g.prefix != []
  {
    && FastMod(Number(state), m, |chunks|) == Offset(state, |chunks|)
    && FoundInTen(g.prefix, Offset(state, |chunks|))
  }

  /** So it does at each of the first `k` states of the walk. */
  ghost predicate WalkSound(g: GatherTable, m: Magic, chunks: seq<Bytes32>, seed: u64, k: nat)
    requires chunks != [] && g.prefix != []
  {
    forall i | 0 <= i < k :: StepSound(g, m, chunks, Walk(chunks, seed, i))
  }

  /** The remainder is the host's offset, or it is past every chunk. */
  lemma OffsetOrPast(m: Magic, n: nat, state: u64)
    requires 0 < n < TWO32 && IsReturned(m, n)
    ensures FastMod(Number(state), m, n) == Offset(state, n) || FastMod(Number(state), m, n) >= n
  {
    var a := Number(state);
    assert a < TWO64;
    if m.magic != 0 {
      WrongIsPast(m, n, a);
    }
  }

  lemma WrongIsPast(m: Magic, n: nat, a: nat)
    requires IsReciprocal(m, n) && n < TWO32 && a < TWO64
    ensures FastMod(a, m, n) == a % n || FastMod(a, m, n) >= n
  {
    hide FastMod, IsReciprocal, Excess, Pow2;
    ReductionIsExactExcept(a, m, n);
  }

  /** The kernel's walk: `K` steps over the gather with the fast remainder end where the host's walk ends, if and only
      if every step on the way reads the host's chunk; otherwise some read is outside its tensor. */
  method KernelWalk(g: GatherTable, m: Magic, seed: u64, k: nat, ghost chunks: seq<Bytes32>) returns (r: Option<u64>)
    requires Gathers(g, chunks) && 0 < |chunks| < TWO32 && IsReturned(m, |chunks|)
    ensures r == if WalkSound(g, m, chunks, seed, k) then Some(Walk(chunks, seed, k)) else None
  {
    hide FastMod, ChunkToWords, Mix64, Gathers, Offset, FoundInTen, IsReturned;
    GatherTotal(g, chunks);
    var state := seed;
    var n := g.prefix[|g.bases|];
    var off := FastMod(Number(state), m, n);
    for i := 0 to k
      invariant state == Walk(chunks, seed, i) && off == FastMod(Number(state), m, n)
      invariant WalkSound(g, m, chunks, seed, i)
    {
      OffsetOrPast(m, n, state);
      OffsetInRange(state, n);
      var w := LoadChunk(g, off, chunks);
      if w.None? {
        assert !StepSound(g, m, chunks, Walk(chunks, seed, i));
        return None;
      }
      state := Mix64(XorWords(state, w.value[0], w.value[1], w.value[2], w.value[3]));
      off := FastMod(Number(state), m, n);
    }
    r := Some(state);
  }

  lemma OffsetInRange(state: u64, n: nat)
    requires n > 0
    ensures Offset(state, n) < n
  {
  }

  /** With an exact remainder and at most 1024 tensors every walk is sound. */
  lemma SoundEverywhere(g: GatherTable, m: Magic, chunks: seq<Bytes32>, seed: u64, k: nat)
    requires Gathers(g, chunks) && chunks != [] && ExactModulo(m, |chunks|) && |g.bases| <= 1024
    ensures WalkSound(g, m, chunks, seed, k)
  {
    hide FastMod, Gathers, Walk, FoundInTen;
    GatherTotal(g, chunks);
    SearchIsComplete(g, chunks);
    forall i | 0 <= i < k ensures StepSound(g, m, chunks, Walk(chunks, seed, i)) {
      var state := Walk(chunks, seed, i);
      assert Number(state) < TWO64;
      OffsetInRange(state, |chunks|);
      assert FastMod(Number(state), m, |chunks|) == Offset(state, |chunks|);
    }
  }

  lemma SearchIsComplete(g: GatherTable, chunks: seq<Bytes32>)
    requires Gathers(g, chunks) && chunks != [] && |g.bases| <= 1024
    ensures forall off: nat | off < |chunks| :: FoundInTen(g.prefix, off)
  {
    HasTensor(g, chunks);
    TenStepsSufficeIff(g.prefix);
  }

  lemma GatherTotal(g: GatherTable, chunks: seq<Bytes32>)
    requires Gathers(g, chunks)
    ensures |g.prefix| == |g.bases| + 1 && g.prefix[|g.bases|] == |chunks|
  {
  }

  function NonceOf(start: nat, gid: nat): nat {
    (start + gid) % TWO64
  }

  function SeedOf(prePow: Bytes32, timestamp: u64, start: nat, gid: nat): u64 {
    PomBlockSeed(prePow, timestamp, U64(NonceOf(start, gid)))
  }

  /** One thread of `pom_mine`: whether it offers its nonce to the winner cell, or none if it reads outside a tensor. */
  method KernelThread(g: GatherTable, m: Magic, prePow: Bytes32, timestamp: u64, target: Bytes32, k: nat,
                      start: nat, batch: nat, gid: nat, ghost chunks: seq<Bytes32>) returns (offers: Option<bool>)
    requires Gathers(g, chunks) && 0 < |chunks| < TWO32 && IsReturned(m, |chunks|)
    ensures offers.None? <==> gid < batch && !WalkSound(g, m, chunks, SeedOf(prePow, timestamp, start, gid), k)
    ensures offers.Some? ==>
              (offers.value <==> gid < batch && Wins(chunks, prePow, timestamp, target, k, NonceOf(start, gid)))
  {
    hide SeedFold, PowFold, ChunkToWords, Walk, PomLeLeq, U64, NonceOf, Gathers, IsReturned, WalkSound;
    if gid >= batch {
      return Some(false);
    }
    var nonce := NonceOf(start, gid);
    var p := ChunkToWords(prePow);
    var r := KernelWalk(g, m, SeedFold(U64(nonce), timestamp, p[0], p[1], p[2], p[3]), k, chunks);
    if r.None? {
      return None;
    }
    offers := Some(PomLeLeq(PowFold(r.value, p[0], p[1], p[2], p[3]), ChunkToWords(target)));
    KernelTestIsHostTest(r.value, prePow, target);
  }

  lemma KernelTestIsHostTest(state: u64, prePow: Bytes32, target: Bytes32)
    ensures PomLeLeq(PowWords(state, prePow), ChunkToWords(target))
            <==> LeValue(PomPowValue(state, prePow)) <= LeValue(target)
  {
    hide PowWords, ChunkToWords, PomLeLeq, LeValue, WordsToBytes;
    PomLeLeqIsNumeric(PowWords(state, prePow), ChunkToWords(target));
    ChunkRoundTrip(target);
  }

  /** Threads launched: a 32-bit number of blocks of 128. */
  function Threads(batch: nat): nat {
    (batch + 127) % TWO64 / 128 % TWO32 * 128
  }

  /** The cell holds the least offered nonce, or the sentinel when none below it was offered. */
  ghost predicate CellIsLeast(wins: nat -> bool, start: nat, batch: nat, done: seq<nat>, cell: nat) {
    && cell < TWO64
    && (forall gid | gid in done && gid < batch && wins(NonceOf(start, gid)) :: cell <= NonceOf(start, gid))
    && (cell != TWO64 - 1 ==> exists gid :: gid in done && gid < batch && cell == NonceOf(start, gid) && wins(cell))
  }

  /** What a launch leaves: nothing can be said once a thread read outside a tensor. */
  datatype Outcome = Stray | Winner(nonce: Option<nat>)

  /** `w` is the least winning nonce that a thread holds, wrapped to 64 bits; the largest word is never reported. */
  ghost predicate LeastOffered(wins: nat -> bool, start: nat, count: nat, w: Option<nat>) {
    match w
    case None =>
      forall gid | 0 <= gid < count && wins(NonceOf(start, gid)) :: NonceOf(start, gid) == TWO64 - 1
    case Some(nonce) =>
      && nonce < TWO64 - 1 && wins(nonce)
      && (exists gid :: 0 <= gid < count && NonceOf(start, gid) == nonce)
      && (forall gid | 0 <= gid < count && wins(NonceOf(start, gid)) :: nonce <= NonceOf(start, gid))
  }

  /** Some thread of the batch reads outside a tensor. */
  ghost predicate SomeStray(g: GatherTable, m: Magic, chunks: seq<Bytes32>, prePow: Bytes32, timestamp: u64, k: nat,
                            start: nat, count: nat)
    requires chunks != [] && g.prefix != []
  {
    exists gid :: 0 <= gid < count && !WalkSound(g, m, chunks, SeedOf(prePow, timestamp, start, gid), k)
  }

  /** The launch: threads reach `atomicMin` in any order, some perhaps more than once. */
  method Launch(g: GatherTable, m: Magic, prePow: Bytes32, timestamp: u64, target: Bytes32, k: nat,
                start: nat, batch: nat, order: seq<nat>, ghost chunks: seq<Bytes32>) returns (r: Outcome)
    requires Gathers(g, chunks) && 0 < |chunks| < TWO32 && IsReturned(m, |chunks|)
    requires forall gid: nat :: gid in order <==> gid < Threads(batch)
    ensures r.Stray? <==> SomeStray(g, m, chunks, prePow, timestamp, k, start, Min(batch, Threads(batch)))
    ensures r.Winner? ==>
              LeastOffered(Winning(chunks, prePow, timestamp, target, k), start, Min(batch, Threads(batch)), r.nonce)
    ensures r.Winner? && start + batch < TWO64 ==>
              LeastWinner(Winning(chunks, prePow, timestamp, target, k), start, start + Min(batch, Threads(batch)),
                          r.nonce)
  {
    hide Wins, Gathers, IsReturned, NonceOf, Threads, WalkSound, SeedOf, CellIsLeast, LeastOffered, LeastWinner;
    GatherTotal(g, chunks);
    ghost var wins := Winning(chunks, prePow, timestamp, target, k);
    var cell: nat := TWO64 - 1;
    NothingOffered(wins, start, batch);
    for i := 0 to |order|
      invariant CellIsLeast(wins, start, batch, order[..i], cell)
      invariant forall gid | gid in order[..i] && gid < batch ::
                  WalkSound(g, m, chunks, SeedOf(prePow, timestamp, start, gid), k)
    {
      var gid := order[i];
      var offers := KernelThread(g, m, prePow, timestamp, target, k, start, batch, gid, chunks);
      if offers.None? {
        assert gid in order && 0 <= gid < Min(batch, Threads(batch));
        return Stray;
      }
      assert order[..i + 1] == order[..i] + [gid];
      OfferNonce(wins, start, batch, order[..i], gid, cell);
      if offers.value {
        cell := Min(cell, NonceOf(start, gid));
      }
    }
    assert order[..|order|] == order;
    r := Winner(if cell == TWO64 - 1 then None else Some(cell));
    CellIsOffered(wins, start, batch, order, cell);
    if start + batch < TWO64 {
      CellIsWinner(wins, start, batch, order, cell);
    }
  }

  lemma NothingOffered(wins: nat -> bool, start: nat, batch: nat)
    ensures CellIsLeast(wins, start, batch, [], TWO64 - 1)
  {
  }

  lemma CellIsOffered(wins: nat -> bool, start: nat, batch: nat, order: seq<nat>, cell: nat)
    requires forall gid: nat :: gid in order <==> gid < Threads(batch)
    requires CellIsLeast(wins, start, batch, order, cell)
    ensures LeastOffered(wins, start, Min(batch, Threads(batch)), if cell == TWO64 - 1 then None else Some(cell))
  {
    hide Threads, NonceOf;
    forall gid: nat | gid < Min(batch, Threads(batch)) && wins(NonceOf(start, gid))
      ensures cell <= NonceOf(start, gid) < TWO64
    {
      assert gid in order;
      NonceIsWord(start, gid);
    }
    if cell != TWO64 - 1 {
      var gid: nat :| gid in order && gid < batch && cell == NonceOf(start, gid) && wins(cell);
      assert gid < Min(batch, Threads(batch));
    }
  }

  lemma NonceIsWord(start: nat, gid: nat)
    ensures NonceOf(start, gid) < TWO64
  {
  }

  lemma NonceUnwrapped(start: nat, gid: nat)
    requires start + gid < TWO64
    ensures NonceOf(start, gid) == start + gid
  {
  }

  lemma OfferNonce(wins: nat -> bool, start: nat, batch: nat, done: seq<nat>, gid: nat, cell: nat)
    requires CellIsLeast(wins, start, batch, done, cell)
    ensures var offers := gid < batch && wins(NonceOf(start, gid));
            CellIsLeast(wins, start, batch, done + [gid], if offers then Min(cell, NonceOf(start, gid)) else cell)
  {
    NonceIsWord(start, gid);
    hide NonceOf;
    var offers := gid < batch && wins(NonceOf(start, gid));
    var after := if offers then Min(cell, NonceOf(start, gid)) else cell;
    if after != TWO64 - 1 {
      if after == cell {
        var g :| g in done && g < batch && cell == NonceOf(start, g) && wins(cell);
        assert g in done + [gid];
      } else {
        assert gid in done + [gid];
      }
    }
  }

  lemma CellIsWinner(wins: nat -> bool, start: nat, batch: nat, order: seq<nat>, cell: nat)
    requires start + batch < TWO64
    requires forall gid: nat :: gid in order <==> gid < Threads(batch)
    requires CellIsLeast(wins, start, batch, order, cell)
    ensures LeastWinner(wins, start, start + Min(batch, Threads(batch)),
                        if cell == TWO64 - 1 then None else Some(cell))
  {
    hide Threads, NonceOf;
    forall n: nat | start <= n < start + Min(batch, Threads(batch)) && wins(n) ensures cell <= n {
      NonceUnwrapped(start, n - start);
      assert n - start in order;
    }
    if cell != TWO64 - 1 {
      var gid: nat :| gid in order && gid < batch && cell == NonceOf(start, gid) && wins(cell);
      NonceUnwrapped(start, gid);
    }
  }

  /** When they fit, the blocks are as few as can hold the batch. */
  lemma ThreadsAreEnough(batch: nat)
    requires batch + 127 < 128 * TWO32
    ensures batch <= Threads(batch) < batch + 128 && Threads(batch) % 128 == 0
  {
  }

  /** Every nonce of the batch has a thread if and only if the number of blocks fits 32 bits. */
  lemma BatchIsCoveredIff(batch: nat)
    requires batch < TWO64
    ensures Threads(batch) >= batch <==> batch + 127 < 128 * TWO32
  {
  }

  /** The least winner of a range is unique, so kernel and host searches of one range agree. */
  lemma LeastWinnerUnique(wins: nat -> bool, lo: nat, hi: nat, v: Option<nat>, w: Option<nat>)
    requires LeastWinner(wins, lo, hi, v) && LeastWinner(wins, lo, hi, w)
    ensures v == w
  {
    if v.Some? && w.Some? {
      assert wins(v.value) && wins(w.value);
    }
  }

  lemma NoneStray(g: GatherTable, m: Magic, chunks: seq<Bytes32>, prePow: Bytes32, timestamp: u64, k: nat,
                  start: nat, count: nat)
    requires Gathers(g, chunks) && chunks != [] && ExactModulo(m, |chunks|) && |g.bases| <= 1024
    ensures g.prefix != [] && !SomeStray(g, m, chunks, prePow, timestamp, k, start, count)
  {
    hide ExactModulo, WalkSound, Gathers, SeedOf;
    GatherTotal(g, chunks);
    forall gid: nat | gid < count ensures WalkSound(g, m, chunks, SeedOf(prePow, timestamp, start, gid), k) {
      SoundEverywhere(g, m, chunks, SeedOf(prePow, timestamp, start, gid), k);
    }
  }

  /** One launch over a covered batch that does not wrap and `mine_pom` over the same range find the same nonce, or both
      none, unless some thread reads outside a tensor. With an exact remainder and at most 1024 tensors none does. */
  method KernelAndHost(h: Hash, idx: WeightIndex.Index, tier: nat, g: GatherTable, m: Magic, prePow: Bytes32,
                       timestamp: u64, target: Bytes32, k: nat, t: nat, start: nat, batch: nat, order: seq<nat>,
                       ghost ts: seq<Tensor>)
    returns (r: Outcome, nonce: Option<nat>, proof: Option<PomProof>)
    requires WeightIndex.Describes(idx, ts) && (t > 0 ==> k > 0)
    requires Gathers(g, Chunks(ts)) && |Chunks(ts)| < TWO32 && IsReturned(m, |Chunks(ts)|)
    requires forall gid: nat :: gid in order <==> gid < Threads(batch)
    ensures r.Winner? && start + batch < TWO64 && batch + 127 < 128 * TWO32 ==> r.nonce == nonce
    ensures ExactModulo(m, |Chunks(ts)|) && |g.bases| <= 1024 ==> r.Winner?
  {
    hide LeastWinner, LeastOffered, Winning, Gathers, ExactModulo, IsReturned, Threads, ProvesNonce, WalkSound,
         SomeStray, Chunks;
    GatherTotal(g, Chunks(ts));
    r := Launch(g, m, prePow, timestamp, target, k, start, batch, order, Chunks(ts));
    nonce, proof := MinePom(h, idx, tier, prePow, timestamp, target, k, t, start, batch, ts);
    if r.Winner? && start + batch < TWO64 && batch + 127 < 128 * TWO32 {
      BatchIsCoveredIff(batch);
      LeastWinnerUnique(Winning(Chunks(ts), prePow, timestamp, target, k), start, start + batch, r.nonce, nonce);
    }
    if ExactModulo(m, |Chunks(ts)|) && |g.bases| <= 1024 {
      NoneStray(g, m, Chunks(ts), prePow, timestamp, k, start, Min(batch, Threads(batch)));
    }
  }
}
