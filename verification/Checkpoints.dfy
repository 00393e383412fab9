/** The layout of the sparse checkpoint file: every sixth level of the tree, and its root. */
module Checkpoints {
  import opened Arith
  import opened Merkle

  const CHECKPOINT_INTERVAL: nat := 6

  /** One level stored in the file: `offset` is in bytes, 32 for each node. */
  datatype StoredLevel = StoredLevel(level: nat, offset: nat, count: nat)

  /** How many levels are stored for a tree of this depth. */
  function StoredLevels(depth: nat): (m: nat)
    ensures m >= 1
  {
    if depth == 0 then 1 else (depth + 5) / 6
  }

  function LevelOf(depth: nat, i: nat): nat {
    if i == StoredLevels(depth) - 1 then depth else 6 * (i + 1)
  }

  ghost predicate Contiguous(cps: seq<StoredLevel>) {
    forall i | 0 < i < |cps| :: cps[i].offset == cps[i - 1].offset + 32 * cps[i - 1].count
  }

  /** Multiples of six below the depth, then the depth itself; contiguous from offset zero. */
  ghost predicate IsLayout(n: nat, cps: seq<StoredLevel>) {
    && |cps| == StoredLevels(Depth(n))
    && cps[0].offset == 0
    && (forall i | 0 <= i < |cps| ::
          && cps[i].level == LevelOf(Depth(n), i)
          && cps[i].count == CountAt(n, cps[i].level)
          && cps[i].offset % 32 == 0)
    && Contiguous(cps)
  }

  /** Nodes in the file. */
  function FileNodes(cps: seq<StoredLevel>): nat
    requires cps != []
  {
    cps[|cps| - 1].offset / 32 + 1
  }

  lemma NextCount(n: nat, l: nat)
    ensures CountAt(n, l + 1) == (CountAt(n, l) + 1) / 2
  {
    CountCompose(n, l, 1);
  }

  ghost predicate EntriesBelow(n: nat, cps: seq<StoredLevel>) {
    forall i | 0 <= i < |cps| ::
      cps[i].level == 6 * (i + 1) && cps[i].count == CountAt(n, cps[i].level) && cps[i].offset % 32 == 0
  }

  /** The levels stored below `level`, and the offset at which the next one goes. */
  ghost predicate StoredBelow(n: nat, cps: seq<StoredLevel>, level: nat, off: nat) {
    && |cps| == (if level == 0 then 0 else (level - 1) / 6)
    && off % 32 == 0
    && (if cps == [] then off == 0
        else cps[0].offset == 0 && off == cps[|cps| - 1].offset + 32 * cps[|cps| - 1].count)
    && EntriesBelow(n, cps)
    && Contiguous(cps)
  }

  lemma StoreLevel(n: nat, cps: seq<StoredLevel>, level: nat, off: nat)
    requires StoredBelow(n, cps, level, off) && level > 0 && level % 6 == 0
    ensures StoredBelow(n, cps + [StoredLevel(level, off, CountAt(n, level))], level + 1, off + CountAt(n, level) * 32)
  {
    hide CountAt;
    var more := cps + [StoredLevel(level, off, CountAt(n, level))];
    SixthLevel(level, |cps|);
    ExtendEntries(n, cps, level, off);
    ExtendChain(cps, more[|cps|]);
  }

  lemma SixthLevel(level: nat, m: nat)
    requires level > 0 && level % 6 == 0 && (level - 1) / 6 == m
    ensures level == 6 * (m + 1) && level / 6 == m + 1
  {
  }

  lemma ExtendEntries(n: nat, cps: seq<StoredLevel>, level: nat, off: nat)
    requires EntriesBelow(n, cps) && level == 6 * (|cps| + 1) && off % 32 == 0
    ensures EntriesBelow(n, cps + [StoredLevel(level, off, CountAt(n, level))])
  {
  }

  lemma ExtendChain(cps: seq<StoredLevel>, cp: StoredLevel)
    requires Contiguous(cps) && (cps != [] ==> cp.offset == cps[|cps| - 1].offset + 32 * cps[|cps| - 1].count)
    ensures Contiguous(cps + [cp])
  {
    var more := cps + [cp];
    forall i | 0 < i < |more|
      ensures more[i].offset == more[i - 1].offset + 32 * more[i - 1].count
    {
      assert more[i - 1] == cps[i - 1];
    }
  }

  lemma SkipLevel(n: nat, cps: seq<StoredLevel>, level: nat, off: nat)
    requires StoredBelow(n, cps, level, off) && !(level > 0 && level % 6 == 0)
    ensures StoredBelow(n, cps, level + 1, off)
  {
  }

  lemma StoreRoot(n: nat, cps: seq<StoredLevel>, off: nat)
    requires n > 0 && StoredBelow(n, cps, Depth(n), off)
    ensures IsLayout(n, cps + [StoredLevel(Depth(n), off, CountAt(n, Depth(n)))])
  {
    var all := cps + [StoredLevel(Depth(n), off, CountAt(n, Depth(n)))];
    assert forall i | 0 <= i < |cps| :: all[i] == cps[i];
  }

  lemma NothingStored(n: nat)
    ensures StoredBelow(n, [], 0, 0) && CountAt(n, 0) == n
  {
  }

  method ComputeCheckpointOffsets(n: nat) returns (cps: seq<StoredLevel>, totalLevels: nat)
    requires n > 0
    ensures IsLayout(n, cps)
    ensures totalLevels == Depth(n) + 1
  {
    hide StoredBelow, IsLayout, CountAt, Depth;
    cps := [];
    var count, off, level := n, 0, 0;
    NothingStored(n);
    while true
      invariant level <= Depth(n) && count == CountAt(n, level)
      invariant StoredBelow(n, cps, level, off)
      decreases Depth(n) - level
    {
      DepthIsLevel(n, level);
      var isCheckpoint := (level > 0 && level % CHECKPOINT_INTERVAL == 0) || count == 1;
      ghost var below := cps;
      if isCheckpoint {
        cps := cps + [StoredLevel(level, off, count)];
      }
      if count == 1 {
        StoreRoot(n, below, off);
        break;
      }
      if isCheckpoint {
        StoreLevel(n, below, level, off);
        off := off + count * 32;
      } else {
        SkipLevel(n, cps, level, off);
      }
      NextCount(n, level);
      count := (count + 1) / 2;
      level := level + 1;
    }
    totalLevels := level + 1;
  }

  /** Levels ascend and each stored region ends where the next begins, so regions do not overlap. */
  lemma {:induction false} LayoutAscends(n: nat, cps: seq<StoredLevel>, i: nat, j: nat)
    requires n > 0 && IsLayout(n, cps) && i < j < |cps|
    ensures cps[i].level < cps[j].level
    ensures cps[i].offset + 32 * cps[i].count <= cps[j].offset
    decreases j
  {
    if j > i + 1 {
      LayoutAscends(n, cps, i, j - 1);
    }
  }

  /** Halving `r` times and scaling back overshoots by less than `2^r`. */
  lemma {:induction false} CountUpperBound(n: nat, r: nat)
    ensures CountAt(n, r) * Pow2(r) <= n + Pow2(r) - 1
    decreases r
  {
    if r > 0 {
      CountUpperBound((n + 1) / 2, r - 1);
      DoubleProduct(CountAt(n, r), Pow2(r - 1));
    }
  }

  lemma SixtyFour()
    ensures Pow2(6) == 64
  {
    assert Pow2(3) == 8;
    assert Pow2(6) == 8 * Pow2(3);
  }

  lemma SixLevelsUp(n: nat, l: nat)
    ensures 64 * CountAt(n, l + 6) <= CountAt(n, l) + 63
  {
    CountCompose(n, l, 6);
    CountUpperBound(CountAt(n, l), 6);
    SixtyFour();
  }

  lemma {:induction false} OffsetBound(n: nat, cps: seq<StoredLevel>, i: nat)
    requires n > 0 && IsLayout(n, cps) && i < |cps|
    ensures 63 * (cps[i].offset / 32) + 64 * cps[i].count <= n + 63 * (i + 1)
  {
    DepthIsLevel(n, Depth(n));
    if i == 0 {
      SixLevelsUp(n, 0);
    } else {
      OffsetBound(n, cps, i - 1);
      SixLevelsUp(n, cps[i - 1].level);
      assert cps[i].offset / 32 == cps[i - 1].offset / 32 + cps[i - 1].count;
    }
  }

  /** The file holds at most a 63rd of the leaves, plus one node for each stored level. */
  lemma FileIsSmall(n: nat, cps: seq<StoredLevel>)
    requires n > 0 && IsLayout(n, cps)
    ensures FileNodes(cps) <= (n - 1) / 63 + |cps|
    ensures cps[|cps| - 1].count == 1
  {
    DepthIsLevel(n, Depth(n));
    OffsetBound(n, cps, |cps| - 1);
  }

  /** The layout is a function of the number of chunks: rebuilding and reopening cannot disagree. */
  lemma LayoutUnique(n: nat, a: seq<StoredLevel>, b: seq<StoredLevel>)
    requires n > 0 && IsLayout(n, a) && IsLayout(n, b)
    ensures a == b
  {
    forall i | 0 <= i < |a|
      ensures a[i] == b[i]
    {
      OffsetUnique(n, a, b, i);
    }
  }

  lemma {:induction false} OffsetUnique(n: nat, a: seq<StoredLevel>, b: seq<StoredLevel>, i: nat)
    requires n > 0 && IsLayout(n, a) && IsLayout(n, b) && i < |a|
    ensures a[i].offset == b[i].offset
  {
    if i > 0 {
      OffsetUnique(n, a, b, i - 1);
    }
  }

  /** `find_checkpoint`; the source panics when the level is not stored. */
  method FindCheckpoint(cps: seq<StoredLevel>, level: nat) returns (i: nat)
    requires exists j | 0 <= j < |cps| :: cps[j].level == level
    ensures i < |cps| && cps[i].level == level
  {
    i := 0;
    while cps[i].level != level
      invariant i < |cps|
      invariant exists j | i <= j < |cps| :: cps[j].level == level
      decreases |cps| - i
    {
      i := i + 1;
    }
  }

  method CountAtLevel(n: nat, level: nat) returns (count: nat)
    ensures count == CountAt(n, level)
  {
    count := n;
    for l := 0 to level
      invariant count == CountAt(n, l)
    {
      NextCount(n, l);
      count := (count + 1) / 2;
    }
  }
}
