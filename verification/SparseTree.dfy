/** The checkpoint file: how it is filled level by level, and what its regions hold.
    The file is a sequence of nodes; a byte offset is 32 times a node index. */
module SparseTree {
  import opened Arith
  import opened Merkle
  import opened Checkpoints

  /** The first checkpoint is written by folding six rounds, even when the root lies below level six. */
  function HeldLevel(level: nat): nat {
    if level < CHECKPOINT_INTERVAL then CHECKPOINT_INTERVAL else level
  }

  ghost predicate Stored<D>(pair: (D, D) -> D, leaves: seq<D>, cp: StoredLevel, file: seq<D>) {
    && cp.offset / 32 + cp.count <= |file|
    && file[cp.offset / 32..cp.offset / 32 + cp.count] == LevelAt(pair, leaves, HeldLevel(cp.level))
  }

  /** The whole file: every stored level in its region, and nothing after the root. */
  ghost predicate Holds<D>(pair: (D, D) -> D, leaves: seq<D>, cps: seq<StoredLevel>, file: seq<D>)
    requires cps != []
  {
    && (forall i | 0 <= i < |cps| :: Stored(pair, leaves, cps[i], file))
    && |file| == FileNodes(cps)
  }

  lemma StoredNode<D>(pair: (D, D) -> D, leaves: seq<D>, cp: StoredLevel, file: seq<D>, i: nat)
    requires Stored(pair, leaves, cp, file) && i < cp.count
    ensures i < |LevelAt(pair, leaves, HeldLevel(cp.level))|
    ensures file[cp.offset / 32 + i] == LevelAt(pair, leaves, HeldLevel(cp.level))[i]
  {
    assert file[cp.offset / 32..cp.offset / 32 + cp.count][i] == file[cp.offset / 32 + i];
  }

  lemma StoredAfterAppend<D>(pair: (D, D) -> D, leaves: seq<D>, cp: StoredLevel, file: seq<D>, more: seq<D>)
    requires Stored(pair, leaves, cp, file)
    ensures Stored(pair, leaves, cp, file + more)
  {
    var a, b := cp.offset / 32, cp.offset / 32 + cp.count;
    assert (file + more)[a..b] == file[a..b];
  }

  /** A batch of at most `2^k` leaves after a whole number of batches adds one node to level `k`. */
  lemma BatchAppended<D>(pair: (D, D) -> D, done: seq<D>, batch: seq<D>, q: nat, k: nat)
    requires |done| == q * Pow2(k) && 0 < |batch| <= Pow2(k)
    ensures LevelAt(pair, done + batch, k) == LevelAt(pair, done, k) + [LevelAt(pair, batch, k)[0]]
  {
    LevelAppend(pair, done, batch, q, k);
    LevelSize(pair, batch, k);
    SpanStartsInRange(|batch|, 1, k);
  }

  /** The state of phase 0: whole batches are folded into `file`, the rest waits in `batch`. */
  ghost predicate Folded<D>(pair: (D, D) -> D, leaves: seq<D>, k: nat, file: seq<D>, batch: seq<D>) {
    && |batch| < Pow2(k) && |batch| <= |leaves|
    && batch == leaves[|leaves| - |batch|..]
    && |leaves| - |batch| == |file| * Pow2(k)
    && file == LevelAt(pair, leaves[..|leaves| - |batch|], k)
  }

  lemma {:induction false} EmptyLevel<D>(pair: (D, D) -> D, k: nat)
    ensures LevelAt(pair, [], k) == []
  {
    if k > 0 {
      assert NextLevel(pair, []) == [];
      EmptyLevel(pair, k - 1);
    }
  }

  lemma FoldedStarts<D>(pair: (D, D) -> D, k: nat)
    ensures Folded(pair, [], k, [], [])
  {
    EmptyLevel(pair, k);
    var none: seq<D> := [];
    assert none[..0] == none;
  }

  lemma FoldedGrows<D>(pair: (D, D) -> D, leaves: seq<D>, k: nat, file: seq<D>, batch: seq<D>, leaf: D)
    requires Folded(pair, leaves, k, file, batch)
    ensures if |batch| + 1 == Pow2(k)
            then Folded(pair, leaves + [leaf], k, file + [LevelAt(pair, batch + [leaf], k)[0]], [])
            else Folded(pair, leaves + [leaf], k, file, batch + [leaf])
  {
    if |batch| + 1 == Pow2(k) {
      BatchFull(pair, leaves, k, file, batch, leaf);
    } else {
      BatchGrows(pair, leaves, k, file, batch, leaf);
    }
  }

  lemma BatchGrows<D>(pair: (D, D) -> D, leaves: seq<D>, k: nat, file: seq<D>, batch: seq<D>, leaf: D)
    requires Folded(pair, leaves, k, file, batch) && |batch| + 1 < Pow2(k)
    ensures Folded(pair, leaves + [leaf], k, file, batch + [leaf])
  {
    hide Pow2, LevelAt;
    var d := |leaves| - |batch|;
    assert (leaves + [leaf])[..d] == leaves[..d];
    assert (leaves + [leaf])[d..] == leaves[d..] + [leaf];
  }

  lemma BatchFull<D>(pair: (D, D) -> D, leaves: seq<D>, k: nat, file: seq<D>, batch: seq<D>, leaf: D)
    requires Folded(pair, leaves, k, file, batch) && |batch| + 1 == Pow2(k)
    ensures Folded(pair, leaves + [leaf], k, file + [LevelAt(pair, batch + [leaf], k)[0]], [])
  {
    hide Pow2, LevelAt;
    var done, more := leaves[..|leaves| - |batch|], leaves + [leaf];
    assert more == done + (batch + [leaf]);
    BatchAppended(pair, done, batch + [leaf], |file|, k);
    NextProduct(|file|, Pow2(k));
    assert more[..|more| - 0] == more && more[|more| - 0..] == [];
  }

  lemma FoldedEnds<D>(pair: (D, D) -> D, leaves: seq<D>, k: nat, file: seq<D>, batch: seq<D>)
    requires Folded(pair, leaves, k, file, batch)
    ensures LevelAt(pair, leaves, k) == file + if batch == [] then [] else [LevelAt(pair, batch, k)[0]]
  {
    var done := leaves[..|leaves| - |batch|];
    assert leaves == done + batch;
    if batch == [] {
      assert done == leaves;
    } else {
      BatchAppended(pair, done, batch, |file|, k);
    }
  }

  /** The next batch is a span, so its fold is the next node of the level `rounds` up. */
  lemma BatchIsNextNode<D>(pair: (D, D) -> D, prev: seq<D>, rounds: nat, b: nat, readIdx: nat, take: nat)
    requires readIdx == b * Pow2(rounds) < |prev| && take == Min(Pow2(rounds), |prev| - readIdx)
    ensures prev[readIdx..readIdx + take] == Span(prev, b, rounds)
    ensures b < |LevelAt(pair, prev, rounds)|
    ensures LevelAt(pair, prev[readIdx..readIdx + take], rounds)[0] == LevelAt(pair, prev, rounds)[b]
    ensures readIdx + take == Min((b + 1) * Pow2(rounds), |prev|)
  {
    NextProduct(b, Pow2(rounds));
    FoldSpan(pair, prev, b, rounds);
  }

  /** When every source node is consumed, every node of the level has been written. */
  lemma BatchesCoverLevel<D>(pair: (D, D) -> D, prev: seq<D>, rounds: nat, b: nat)
    requires b * Pow2(rounds) >= |prev| && b <= |LevelAt(pair, prev, rounds)|
    ensures b == |LevelAt(pair, prev, rounds)|
  {
    LevelSize(pair, prev, rounds);
    SpanStartsInRange(|prev|, b, rounds);
  }

  /** Reading a part of a region does not see what was appended after it. */
  lemma SliceOfSlice<D>(file: seq<D>, tail: seq<D>, start: nat, count: nat, i: nat, take: nat)
    requires start + count <= |file| && i + take <= count
    ensures (file + tail)[start + i..start + i + take] == file[start..start + count][i..i + take]
  {
    SubSlice(file, start, count, i, i + take);
    assert (file + tail)[start + i..start + i + take] == file[start + i..start + i + take];
  }

  /** One pass of `finalize_checkpoint_upper`: read a stored level in batches, append the level above. */
  method AppendFoldedLevel<D>(pair: (D, D) -> D, file: seq<D>, prevOffset: nat, prevCount: nat, rounds: nat)
    returns (longer: seq<D>)
    requires prevOffset / 32 + prevCount <= |file|
    ensures longer == file + LevelAt(pair, file[prevOffset / 32..prevOffset / 32 + prevCount], rounds)
  {
    hide LevelAt, Span, Pow2;
    ghost var prev := file[prevOffset / 32..prevOffset / 32 + prevCount];
    ghost var above := LevelAt(pair, prev, rounds);
    var batchSize := Pow2(rounds);
    var readIdx := 0;
    ghost var b := 0;
    longer := file;
    LevelSize(pair, prev, rounds);
    while readIdx < prevCount
      invariant 0 <= b <= |above| && readIdx == Min(b * Pow2(rounds), prevCount)
      invariant longer == file + above[..b]
      decreases prevCount - readIdx
    {
      var take := Min(batchSize, prevCount - readIdx);
      var batch := longer[prevOffset / 32 + readIdx..prevOffset / 32 + readIdx + take];
      SliceOfSlice(file, above[..b], prevOffset / 32, prevCount, readIdx, take);
      BatchIsNextNode(pair, prev, rounds, b, readIdx, take);
      var parent := FoldLevels(pair, batch, rounds);
      assert above[..b + 1] == above[..b] + [parent];
      longer := longer + [parent];
      readIdx := readIdx + take;
      b := b + 1;
    }
    BatchesCoverLevel(pair, prev, rounds, b);
  }

  lemma FirstLevelStored<D>(pair: (D, D) -> D, leaves: seq<D>, cps: seq<StoredLevel>)
    requires leaves != [] && IsLayout(|leaves|, cps)
    ensures Stored(pair, leaves, cps[0], LevelAt(pair, leaves, 6))
    ensures |LevelAt(pair, leaves, 6)| == cps[0].count
  {
    LevelSize(pair, leaves, 6);
    DepthIsLevel(|leaves|, 6);
    DepthIsLevel(|leaves|, Depth(|leaves|));
  }

  lemma NextLevelStored<D>(pair: (D, D) -> D, leaves: seq<D>, cps: seq<StoredLevel>, i: nat, file: seq<D>)
    requires leaves != [] && IsLayout(|leaves|, cps) && 0 < i < |cps|
    requires Stored(pair, leaves, cps[i - 1], file) && |file| == cps[i - 1].offset / 32 + cps[i - 1].count
    ensures cps[i - 1].level < cps[i].level
    ensures var prev := file[cps[i - 1].offset / 32..cps[i - 1].offset / 32 + cps[i - 1].count];
            var longer := file + LevelAt(pair, prev, cps[i].level - cps[i - 1].level);
            && Stored(pair, leaves, cps[i], longer)
            && |longer| == cps[i].offset / 32 + cps[i].count
  {
    var low, high := cps[i - 1].level, cps[i].level;
    var prev := file[cps[i - 1].offset / 32..cps[i - 1].offset / 32 + cps[i - 1].count];
    assert prev == LevelAt(pair, leaves, low);
    LevelCompose(pair, leaves, low, high - low);
    LevelSize(pair, leaves, high);
    var above := LevelAt(pair, prev, high - low);
    assert above == LevelAt(pair, leaves, high);
    assert cps[i].offset / 32 == |file|;
    assert (file + above)[|file|..|file| + cps[i].count] == above;
  }

  /** The first `i` stored levels are in the file, and nothing else. */
  ghost predicate FilledTo<D>(pair: (D, D) -> D, leaves: seq<D>, cps: seq<StoredLevel>, i: nat, file: seq<D>)
    requires 0 < i <= |cps|
  {
    && |file| == cps[i - 1].offset / 32 + cps[i - 1].count
    && (forall j | 0 <= j < i :: Stored(pair, leaves, cps[j], file))
  }

  lemma FillNext<D>(pair: (D, D) -> D, leaves: seq<D>, cps: seq<StoredLevel>, i: nat, file: seq<D>)
    requires leaves != [] && IsLayout(|leaves|, cps) && 0 < i < |cps|
    requires FilledTo(pair, leaves, cps, i, file)
    ensures cps[i - 1].level < cps[i].level
    ensures var prev := file[cps[i - 1].offset / 32..cps[i - 1].offset / 32 + cps[i - 1].count];
            FilledTo(pair, leaves, cps, i + 1, file + LevelAt(pair, prev, cps[i].level - cps[i - 1].level))
  {
    NextLevelStored(pair, leaves, cps, i, file);
    var prev := file[cps[i - 1].offset / 32..cps[i - 1].offset / 32 + cps[i - 1].count];
    var above := LevelAt(pair, prev, cps[i].level - cps[i - 1].level);
    forall j | 0 <= j < i
      ensures Stored(pair, leaves, cps[j], file + above)
    {
      StoredAfterAppend(pair, leaves, cps[j], file, above);
    }
  }

  /** `finalize_checkpoint_upper`, started on the level-six nodes. */
  method FinalizeCheckpointUpper<D>(pair: (D, D) -> D, file: seq<D>, n: nat, ghost leaves: seq<D>)
    returns (full: seq<D>, cps: seq<StoredLevel>, totalLevels: nat, rT: D)
    requires n == |leaves| > 0 && file == LevelAt(pair, leaves, 6)
    ensures IsLayout(n, cps) && totalLevels == Depth(n) + 1
    ensures Holds(pair, leaves, cps, full)
    ensures rT == full[cps[|cps| - 1].offset / 32]
  {
    hide LevelAt, Stored, Depth, CountAt;
    cps, totalLevels := ComputeCheckpointOffsets(n);
    FirstLevelStored(pair, leaves, cps);
    full := file;
    var prevOffset, prevCount, prevLevel := cps[0].offset, cps[0].count, cps[0].level;
    for i := 1 to |cps|
      invariant prevOffset == cps[i - 1].offset && prevCount == cps[i - 1].count && prevLevel == cps[i - 1].level
      invariant FilledTo(pair, leaves, cps, i, full)
    {
      FillNext(pair, leaves, cps, i, full);
      full := AppendFoldedLevel(pair, full, prevOffset, prevCount, cps[i].level - prevLevel);
      prevOffset, prevCount, prevLevel := cps[i].offset, cps[i].count, cps[i].level;
    }
    FileIsSmall(n, cps);
    rT := full[cps[|cps| - 1].offset / 32];
  }
}
