/** The miner's weight index: built from the model's tensors, reopened from its checkpoint file,
    and asked for inclusion paths. */
module WeightIndex {
  import opened Arith
  import opened Bytes
  import opened Merkle
  import opened Canonical
  import opened Checkpoints
  import opened SparseTree

  /** `hash_pair` over a given hash. */
  function Node(h: Hash): (Bytes32, Bytes32) -> Bytes32 {
    (left: Bytes32, right: Bytes32) => h(left + right)
  }

  /** The tree's leaves: the hash of each chunk. */
  function Leaves(h: Hash, chunks: seq<Bytes32>): (ls: seq<Bytes32>)
    ensures |ls| == |chunks|
  {
    HashAll(h, chunks)
  }

  datatype Index = Index(
    nChunks: nat,
    rT: Bytes32,
    gguf: seq<byte>,
    table: seq<TableEntry>,
    treeFile: seq<Bytes32>,
    checkpoints: seq<StoredLevel>,
    totalLevels: nat)

  datatype IndexError = NoChunks | LegacyFullTree | SizeMismatch

  datatype Result<+T> = Ok(value: T) | Err(error: IndexError)

  /** The index of model `ts`, whatever the file's content. */
  ghost predicate Describes(idx: Index, ts: seq<Tensor>) {
    && InFile(idx.gguf, ts) && idx.table == Table(ts)
    && idx.nChunks == |Chunks(ts)| > 0
    && IsLayout(idx.nChunks, idx.checkpoints)
    && idx.totalLevels == Depth(idx.nChunks) + 1
    && |idx.treeFile| == FileNodes(idx.checkpoints)
    && idx.rT == idx.treeFile[|idx.treeFile| - 1]
  }

  /** Its checkpoint file holds the levels of the dense tree over the model's chunks. */
  ghost predicate Valid(h: Hash, idx: Index, ts: seq<Tensor>) {
    && Describes(idx, ts)
    && Holds(Node(h), Leaves(h, Chunks(ts)), idx.checkpoints, idx.treeFile)
  }

  // ---------------------------------------------------------------------------------------------
  // Building

  lemma LeavesAppend(h: Hash, a: seq<Bytes32>, b: seq<Bytes32>)
    ensures Leaves(h, a + b) == Leaves(h, a) + Leaves(h, b)
  {
  }

  /** Phase 0 of `build_from_gguf` on one tensor: hash its chunks, fold each full batch. */
  method HashTensor(h: Hash, t: Tensor, k: nat, file: seq<Bytes32>, batch: seq<Bytes32>, ghost leaves: seq<Bytes32>)
    returns (file': seq<Bytes32>, batch': seq<Bytes32>)
    requires Folded(Node(h), leaves, k, file, batch)
    ensures Folded(Node(h), leaves + Leaves(h, t.Chunks()), k, file', batch')
  {
    file', batch' := file, batch;
    ghost var own := Leaves(h, t.Chunks());
    assert leaves + own[..0] == leaves;
    for c := 0 to t.Full()
      invariant Folded(Node(h), leaves + own[..c], k, file', batch')
    {
      var leaf := h(t.Chunk(c));
      FoldedGrows(Node(h), leaves + own[..c], k, file', batch', leaf);
      assert leaves + own[..c + 1] == leaves + own[..c] + [leaf];
      batch' := batch' + [leaf];
      if |batch'| == Pow2(k) {
        var node := FoldLevels(Node(h), batch', k);
        file' := file' + [node];
        batch' := [];
      }
    }
    assert own[..t.Full()] == own;
  }

  /** Phase 0 of `build_from_gguf`: the file gets the nodes of level `k`. */
  method HashChunks(h: Hash, ts: seq<Tensor>, k: nat) returns (file: seq<Bytes32>, table: seq<TableEntry>, nChunks: nat)
    ensures file == LevelAt(Node(h), Leaves(h, Chunks(ts)), k)
    ensures table == Table(ts)
    ensures nChunks == |Chunks(ts)|
  {
    file, table, nChunks := [], [], 0;
    var batch: seq<Bytes32> := [];
    FoldedStarts(Node(h), k);
    for j := 0 to |ts|
      invariant nChunks == |Chunks(ts[..j])| && table == Table(ts[..j])
      invariant Folded(Node(h), Leaves(h, Chunks(ts[..j])), k, file, batch)
    {
      assert ts[..j + 1][..j] == ts[..j];
      LeavesAppend(h, Chunks(ts[..j]), ts[j].Chunks());
      if ts[j].Full() > 0 {
        table := table + [TableEntry(nChunks, ts[j].fileOff)];
      }
      file, batch := HashTensor(h, ts[j], k, file, batch, Leaves(h, Chunks(ts[..j])));
      nChunks := nChunks + ts[j].Full();
    }
    assert ts[..|ts|] == ts;
    FoldedEnds(Node(h), Leaves(h, Chunks(ts)), k, file, batch);
    if batch != [] {
      var node := FoldLevels(Node(h), batch, k);
      file := file + [node];
    }
  }

  /** `open_existing_tree`: recompute the layout from the model, accept the file on its size alone. */
  method OpenExistingTree(gguf: seq<byte>, ts: seq<Tensor>, treeFile: seq<Bytes32>) returns (r: Result<Index>)
    requires InFile(gguf, ts)
    ensures r.Ok? ==> Describes(r.value, ts) && r.value.treeFile == treeFile && r.value.gguf == gguf
    ensures r.Ok? <==> Chunks(ts) != [] && exists cps :: IsLayout(|Chunks(ts)|, cps) && |treeFile| == FileNodes(cps)
    ensures Chunks(ts) == [] ==> r == Err(NoChunks)
  {
    hide InFile, Depth;
    var nChunks := 0;
    var table: seq<TableEntry> := [];
    for j := 0 to |ts|
      invariant nChunks == |Chunks(ts[..j])| && table == Table(ts[..j])
    {
      assert ts[..j + 1][..j] == ts[..j];
      var full := |ts[j].data| / 32;
      if full > 0 {
        table := table + [TableEntry(nChunks, ts[j].fileOff)];
      }
      nChunks := nChunks + full;
    }
    assert ts[..|ts|] == ts;
    if nChunks == 0 {
      return Err(NoChunks);
    }
    var cps, totalLevels := ComputeCheckpointOffsets(nChunks);
    forall other | IsLayout(nChunks, other)
      ensures other == cps
    {
      LayoutUnique(nChunks, other, cps);
    }
    var expectedSize := cps[|cps| - 1].offset + 32;
    var actualSize := 32 * |treeFile|;
    if actualSize > expectedSize + expectedSize {
      return Err(LegacyFullTree);
    }
    if actualSize != expectedSize {
      return Err(SizeMismatch);
    }
    return Ok(Index(nChunks, treeFile[cps[|cps| - 1].offset / 32], gguf, table, treeFile, cps, totalLevels));
  }

  /** `build_from_gguf` without a cached tree. */
  method BuildFresh(h: Hash, gguf: seq<byte>, ts: seq<Tensor>) returns (r: Result<Index>)
    requires InFile(gguf, ts)
    ensures r.Ok? <==> Chunks(ts) != []
    ensures r.Ok? ==> Valid(h, r.value, ts) && r.value.gguf == gguf
    ensures r.Err? ==> r.error == NoChunks
  {
    var file, table, nChunks := HashChunks(h, ts, CHECKPOINT_INTERVAL);
    if nChunks == 0 {
      return Err(NoChunks);
    }
    var full, cps, totalLevels, rT := FinalizeCheckpointUpper(Node(h), file, nChunks, Leaves(h, Chunks(ts)));
    return Ok(Index(nChunks, rT, gguf, table, full, cps, totalLevels));
  }

  /** The cached file has the size of the model's layout. */
  ghost predicate FitsLayout(cached: Option<seq<Bytes32>>, ts: seq<Tensor>) {
    cached.Some? && exists cps :: IsLayout(|Chunks(ts)|, cps) && |cached.value| == FileNodes(cps)
  }

  /** `build_from_gguf`: reuse a cached tree that opens, otherwise build one. */
  method BuildFromGguf(h: Hash, gguf: seq<byte>, ts: seq<Tensor>,
          cached: Option<seq<Bytes32>>) returns (r: Result<Index>)
    requires InFile(gguf, ts)
    ensures r.Ok? <==> Chunks(ts) != []
    ensures r.Ok? ==> Describes(r.value, ts)
    ensures r.Ok? && FitsLayout(cached, ts) ==> r.value.treeFile == cached.value
    ensures r.Ok? && !FitsLayout(cached, ts) ==> Valid(h, r.value, ts)
  {
    if cached.Some? {
      r := OpenExistingTree(gguf, ts, cached.value);
      if r.Ok? {
        return;
      }
    }
    r := BuildFresh(h, gguf, ts);
  }

  /** A file just built passes the size check and reopens as the very same index. */
  method Reopen(h: Hash, gguf: seq<byte>, ts: seq<Tensor>) returns (built: Result<Index>, reopened: Result<Index>)
    requires InFile(gguf, ts) && Chunks(ts) != []
    ensures built.Ok? && reopened == built
  {
    built := BuildFresh(h, gguf, ts);
    reopened := OpenExistingTree(gguf, ts, built.value.treeFile);
    SameIndex(built.value, reopened.value, ts);
  }

  /** Everything but the file's content is determined by the model. */
  lemma SameIndex(a: Index, b: Index, ts: seq<Tensor>)
    requires Describes(a, ts) && Describes(b, ts) && a.gguf == b.gguf && a.treeFile == b.treeFile
    ensures a == b
  {
    LayoutUnique(a.nChunks, a.checkpoints, b.checkpoints);
  }

  // ---------------------------------------------------------------------------------------------
  // The root

  /** The root in the file is the dense root when the tree is at least six levels deep,
      and otherwise the node `6` rounds above the leaves. */
  lemma RootInFile(h: Hash, idx: Index, ts: seq<Tensor>)
    requires Valid(h, idx, ts)
    ensures [idx.rT] == LevelAt(Node(h), Leaves(h, Chunks(ts)), HeldLevel(Depth(idx.nChunks)))
    ensures Depth(idx.nChunks) >= 6 ==> idx.rT == Root(Node(h), Leaves(h, Chunks(ts)))
  {
    var leaves := Leaves(h, Chunks(ts));
    var cps := idx.checkpoints;
    FileIsSmall(idx.nChunks, cps);
    var root := cps[|cps| - 1];
    assert root.level == Depth(idx.nChunks);
    assert Stored(Node(h), leaves, root, idx.treeFile);
    StoredNode(Node(h), leaves, root, idx.treeFile, 0);
    LevelSize(Node(h), leaves, HeldLevel(root.level));
    DepthIsLevel(idx.nChunks, HeldLevel(root.level));
    RootIsLevel(Node(h), leaves);
  }

  /** What the build writes as the root of a tree over `chunks`. */
  function WrittenRoot(h: Hash, chunks: seq<Bytes32>): Bytes32
    requires chunks != []
  {
    LevelAt(Node(h), Leaves(h, chunks), HeldLevel(Depth(|chunks|)))[0]
  }

  function DenseRoot(h: Hash, chunks: seq<Bytes32>): Bytes32
    requires chunks != []
  {
    Root(Node(h), Leaves(h, chunks))
  }

  lemma SixLevelsNeed33(n: nat)
    requires n > 0
    ensures Depth(n) >= 6 <==> n >= 33
  {
    DepthIsLevel(n, 5);
    SpanStartsInRange(n, 1, 5);
    assert Pow2(5) == 32 by { assert Pow2(3) == 8; assert Pow2(5) == 4 * Pow2(3); }
  }

  /** A hash under which carrying a lone node is always visible: the first byte goes up by one. */
  function Bump(): Hash {
    (b: seq<byte>) => (if b == [] then [0] else [b[0] + 1]) + seq(31, _ => 0)
  }

  function AddOnes(b: byte, r: nat): byte
    decreases r
  {
    if r == 0 then b else AddOnes(b + 1, r - 1)
  }

  lemma {:induction false} CarryAddsRounds(x: Bytes32, r: nat)
    ensures |LevelAt(Node(Bump()), [x], r)| == 1
    ensures LevelAt(Node(Bump()), [x], r)[0][0] == AddOnes(x[0], r)
    decreases r
  {
    if r > 0 {
      var y := Node(Bump())(x, x);
      assert (x + x)[0] == x[0];
      assert NextLevel(Node(Bump()), [x]) == [y];
      CarryAddsRounds(y, r - 1);
    }
  }

  lemma FewOnesChange(b: byte, r: nat)
    requires 1 <= r <= 6
    ensures AddOnes(b, r) != b
  {
    assert AddOnes(b, 1) == b + 1;
    assert AddOnes(b, 2) == b + 1 + 1;
    assert AddOnes(b, 3) == b + 1 + 1 + 1;
    assert AddOnes(b, 4) == b + 1 + 1 + 1 + 1;
    assert AddOnes(b, 5) == b + 1 + 1 + 1 + 1 + 1;
    assert AddOnes(b, 6) == b + 1 + 1 + 1 + 1 + 1 + 1;
  }

  /** The written root is the dense root for every hash and every model of `n` chunks
      if and only if there are at least 33 chunks. */
  lemma RootIsDenseIff33(n: nat)
    requires n > 0
    ensures (forall h: Hash, chunks: seq<Bytes32> | |chunks| == n :: WrittenRoot(h, chunks) == DenseRoot(h, chunks))
            <==> n >= 33
  {
    SixLevelsNeed33(n);
    if n >= 33 {
      forall h: Hash, chunks: seq<Bytes32> | |chunks| == n
        ensures WrittenRoot(h, chunks) == DenseRoot(h, chunks)
      {
        RootIsLevel(Node(h), Leaves(h, chunks));
      }
    } else {
      var chunks: seq<Bytes32> := seq(n, _ => seq(32, _ => 0));
      ShallowRootDiffers(chunks);
    }
  }

  lemma ShallowRootDiffers(chunks: seq<Bytes32>)
    requires 0 < |chunks| && Depth(|chunks|) < 6
    ensures WrittenRoot(Bump(), chunks) != DenseRoot(Bump(), chunks)
  {
    var d := Depth(|chunks|);
    var r := CHECKPOINT_INTERVAL - d;
    RootIsLevel(Node(Bump()), Leaves(Bump(), chunks));
    CarriedRoot(Leaves(Bump(), chunks), d, r, DenseRoot(Bump(), chunks));
    assert HeldLevel(d) == d + r;
  }

  lemma CarriedRoot(leaves: seq<Bytes32>, d: nat, r: nat, root: Bytes32)
    requires leaves != [] && 1 <= r <= 6 && LevelAt(Node(Bump()), leaves, d) == [root]
    ensures LevelAt(Node(Bump()), leaves, d + r)[0] != root
  {
    LevelCompose(Node(Bump()), leaves, d, r);
    CarryAddsRounds(root, r);
    FewOnesChange(root[0], r);
  }

  // ---------------------------------------------------------------------------------------------
  // Inclusion paths

  function TrailingZeros(n: nat): nat {
    if n == 0 || n % 2 == 1 then 0 else 1 + TrailingZeros(n / 2)
  }

  lemma {:induction false} TrailingZerosOfPower(r: nat)
    ensures TrailingZeros(Pow2(r)) == r
  {
    if r > 0 {
      TrailingZerosOfPower(r - 1);
    }
  }

  // The tree as the index sees it: leaves from the model, stored levels from the file, whatever that holds.

  /** The stored level that `level` is rebuilt from is in the layout. */
  lemma CheckpointAt(n: nat, cps: seq<StoredLevel>, level: nat)
    requires n > 0 && IsLayout(n, cps) && 0 < level < Depth(n) && level % 6 == 0
    ensures level / 6 - 1 < |cps| - 1
    ensures var cp := cps[level / 6 - 1]; cp.level == level && cp.count == CountAt(n, level) && cp.offset % 32 == 0
  {
  }

  /** Its region is in the file. */
  lemma RegionInFile(n: nat, cps: seq<StoredLevel>, i: nat)
    requires n > 0 && IsLayout(n, cps) && i < |cps| - 1
    ensures cps[i].offset / 32 + cps[i].count < FileNodes(cps)
  {
    LayoutAscends(n, cps, i, |cps| - 1);
  }

  predicate IsSource(n: nat, level: nat) {
    level == 0 || (0 < level < Depth(n) && level % 6 == 0)
  }

  /** The nodes `compute_subtree_hash` folds: re-hashed chunks, or the file's nodes of a stored level. */
  ghost function Source(h: Hash, idx: Index, ts: seq<Tensor>, level: nat): (nodes: seq<Bytes32>)
    requires Describes(idx, ts) && IsSource(idx.nChunks, level)
    ensures |nodes| == CountAt(idx.nChunks, level)
  {
    if level == 0 then Leaves(h, Chunks(ts))
    else
      CheckpointAt(idx.nChunks, idx.checkpoints, level);
      RegionInFile(idx.nChunks, idx.checkpoints, level / 6 - 1);
      var cp := idx.checkpoints[level / 6 - 1];
      idx.treeFile[cp.offset / 32..cp.offset / 32 + cp.count]
  }

  function SourceBelow(level: nat): (src: nat)
    ensures src <= level && src % 6 == 0
  {
    level / CHECKPOINT_INTERVAL * CHECKPOINT_INTERVAL
  }

  /** A level of the tree as rebuilt from the source at or below it. */
  ghost function SeenLevel(h: Hash, idx: Index, ts: seq<Tensor>, level: nat): (nodes: seq<Bytes32>)
    requires Describes(idx, ts) && level < Depth(idx.nChunks)
    ensures |nodes| == CountAt(idx.nChunks, level)
  {
    var src := SourceBelow(level);
    var source := Source(h, idx, ts, src);
    LevelSize(Node(h), source, level - src);
    CountCompose(idx.nChunks, src, level - src);
    LevelAt(Node(h), source, level - src)
  }

  /** The ancestors of a leaf are in their levels. */
  lemma AncestorInRange(n: nat, off: nat, l: nat)
    requires off < n
    ensures Ancestor(off, l) < CountAt(n, l)
    decreases l
  {
  }

  /** The inclusion path as rebuilt from the file. */
  ghost function FilePath(h: Hash, idx: Index, ts: seq<Tensor>, off: nat): (path: seq<Bytes32>)
    requires Describes(idx, ts) && off < idx.nChunks
    ensures |path| == Depth(idx.nChunks)
  {
    seq(Depth(idx.nChunks), l requires 0 <= l < Depth(idx.nChunks) =>
      AncestorInRange(idx.nChunks, off, l);
      SiblingNode(SeenLevel(h, idx, ts, l), Ancestor(off, l)))
  }

  /** The file holds the dense levels below the root. */
  ghost predicate HoldsBelowRoot(h: Hash, idx: Index, ts: seq<Tensor>) {
    forall i | 0 <= i < |idx.checkpoints| - 1 ::
      Stored(Node(h), Leaves(h, Chunks(ts)), idx.checkpoints[i], idx.treeFile)
  }

  lemma SourceIsDense(h: Hash, idx: Index, ts: seq<Tensor>, src: nat)
    requires Describes(idx, ts) && HoldsBelowRoot(h, idx, ts) && IsSource(idx.nChunks, src)
    ensures Source(h, idx, ts, src) == LevelAt(Node(h), Leaves(h, Chunks(ts)), src)
  {
    hide Chunks, Leaves, LevelAt, Table, InFile, Depth;
    if src > 0 {
      CheckpointAt(idx.nChunks, idx.checkpoints, src);
      assert Stored(Node(h), Leaves(h, Chunks(ts)), idx.checkpoints[src / 6 - 1], idx.treeFile);
    } else {
      LevelZero(Node(h), Leaves(h, Chunks(ts)));
    }
  }

  /** Seen through such a file, every level is the dense one. */
  lemma SeenIsDense(h: Hash, idx: Index, ts: seq<Tensor>, level: nat)
    requires Describes(idx, ts) && HoldsBelowRoot(h, idx, ts) && level < Depth(idx.nChunks)
    ensures SeenLevel(h, idx, ts, level) == LevelAt(Node(h), Leaves(h, Chunks(ts)), level)
  {
    hide Chunks, Leaves, LevelAt, Source, Describes, HoldsBelowRoot, Depth;
    var src := SourceBelow(level);
    SourceIsDense(h, idx, ts, src);
    LevelCompose(Node(h), Leaves(h, Chunks(ts)), src, level - src);
  }

  lemma LevelZero<D>(pair: (D, D) -> D, leaves: seq<D>)
    ensures LevelAt(pair, leaves, 0) == leaves
  {
  }

  /** Node `l` of the two paths. */
  lemma PathNodesSeen(h: Hash, idx: Index, ts: seq<Tensor>, off: nat, l: nat)
    requires Describes(idx, ts) && off < idx.nChunks && l < Depth(idx.nChunks)
    ensures var dense := LevelAt(Node(h), Leaves(h, Chunks(ts)), l);
      && |dense| == CountAt(idx.nChunks, l) && Ancestor(off, l) < |dense|
      && |Path(Node(h), Leaves(h, Chunks(ts)), off)| == Depth(idx.nChunks)
      && Path(Node(h), Leaves(h, Chunks(ts)), off)[l] == SiblingNode(dense, Ancestor(off, l))
      && FilePath(h, idx, ts, off)[l] == SiblingNode(SeenLevel(h, idx, ts, l), Ancestor(off, l))
  {
    hide Chunks, Leaves, LevelAt, SeenLevel;
    AncestorInRange(idx.nChunks, off, l);
    PathNodes(Node(h), Leaves(h, Chunks(ts)), off, l);
    LevelSize(Node(h), Leaves(h, Chunks(ts)), l);
  }

  lemma FilePathIsDense(h: Hash, idx: Index, ts: seq<Tensor>, off: nat)
    requires Describes(idx, ts) && HoldsBelowRoot(h, idx, ts) && off < idx.nChunks
    ensures FilePath(h, idx, ts, off) == Path(Node(h), Leaves(h, Chunks(ts)), off)
  {
    hide Chunks, Leaves, LevelAt, SeenLevel, FilePath, Path, HoldsBelowRoot;
    var a, b := FilePath(h, idx, ts, off), Path(Node(h), Leaves(h, Chunks(ts)), off);
    PathNodes(Node(h), Leaves(h, Chunks(ts)), off, 0);
    forall l | 0 <= l < Depth(idx.nChunks) ensures a[l] == b[l] {
      PathNodesSeen(h, idx, ts, off, l);
      SeenIsDense(h, idx, ts, l);
    }
  }

  /** Some node of a level has this one as its sibling. */
  function SiblingOf(n: nat, j: nat): (i: nat)
    requires j < n
    ensures i < n
  {
    if Sibling(j) < n then Sibling(j) else j
  }

  lemma SiblingBack<D>(level: seq<D>, j: nat)
    requires j < |level|
    ensures SiblingNode(level, SiblingOf(|level|, j)) == level[j]
  {
  }

  /** The first leaf under node `i` of level `l`. */
  lemma {:induction false} FirstLeafUnder(n: nat, i: nat, l: nat)
    requires i < CountAt(n, l)
    ensures Times(i, Pow2(l)) < n && Ancestor(Times(i, Pow2(l)), l) == i
    decreases l
  {
    SpanStartsInRange(n, i, l);
    if l > 0 {
      DoubleProduct(i, Pow2(l - 1));
      FirstLeafUnder((n + 1) / 2, i, l - 1);
      assert Times(i, Pow2(l)) / 2 == Times(i, Pow2(l - 1));
    }
  }

  /** The paths of all chunks fix every node of a stored level. */
  lemma StoredIsDense(h: Hash, idx: Index, ts: seq<Tensor>, c: nat)
    requires Describes(idx, ts) && c < |idx.checkpoints| - 1
    requires forall off | 0 <= off < idx.nChunks ::
               FilePath(h, idx, ts, off) == Path(Node(h), Leaves(h, Chunks(ts)), off)
    ensures Stored(Node(h), Leaves(h, Chunks(ts)), idx.checkpoints[c], idx.treeFile)
  {
    hide Chunks, Leaves, LevelAt, FilePath, Path, Times, Pow2;
    var level := 6 * (c + 1);
    RegionInFile(idx.nChunks, idx.checkpoints, c);
    assert idx.checkpoints[c].level == level < Depth(idx.nChunks);
    LevelZero(Node(h), Source(h, idx, ts, level));
    assert SeenLevel(h, idx, ts, level) == Source(h, idx, ts, level) by { assert SourceBelow(level) == level; }
    var seen, dense := Source(h, idx, ts, level), LevelAt(Node(h), Leaves(h, Chunks(ts)), level);
    LevelSize(Node(h), Leaves(h, Chunks(ts)), level);
    forall j | 0 <= j < |seen| ensures seen[j] == dense[j] {
      var i := SiblingOf(|seen|, j);
      FirstLeafUnder(idx.nChunks, i, level);
      PathNodesSeen(h, idx, ts, Times(i, Pow2(level)), level);
      SiblingBack(seen, j);
      SiblingBack(dense, j);
    }
    assert seen == dense;
  }

  /** The rebuilt paths are the dense paths for every chunk if and only if the file holds the dense levels below the
      root: what a cached file, accepted on its size, has to satisfy. */
  lemma FilePathsDenseIff(h: Hash, idx: Index, ts: seq<Tensor>)
    requires Describes(idx, ts)
    ensures (forall off | 0 <= off < idx.nChunks ::
               FilePath(h, idx, ts, off) == Path(Node(h), Leaves(h, Chunks(ts)), off))
            <==> HoldsBelowRoot(h, idx, ts)
  {
    hide Chunks, Leaves, FilePath, Path;
    if HoldsBelowRoot(h, idx, ts) {
      forall off | 0 <= off < idx.nChunks
        ensures FilePath(h, idx, ts, off) == Path(Node(h), Leaves(h, Chunks(ts)), off)
      {
        FilePathIsDense(h, idx, ts, off);
      }
    } else {
      var c :| 0 <= c < |idx.checkpoints| - 1
               && !Stored(Node(h), Leaves(h, Chunks(ts)), idx.checkpoints[c], idx.treeFile);
      if forall off | 0 <= off < idx.nChunks ::
           FilePath(h, idx, ts, off) == Path(Node(h), Leaves(h, Chunks(ts)), off) {
        StoredIsDense(h, idx, ts, c);
      }
    }
  }

  lemma ValidHoldsBelowRoot(h: Hash, idx: Index, ts: seq<Tensor>)
    requires Valid(h, idx, ts)
    ensures HoldsBelowRoot(h, idx, ts)
  {
  }

  // The loops.

  function Zeros(): Bytes32 {
    seq(32, _ => 0)
  }

  method ReadLeaf(h: Hash, idx: Index, i: nat, ghost ts: seq<Tensor>) returns (leaf: Bytes32)
    requires Describes(idx, ts) && i < idx.nChunks
    ensures i < |Chunks(ts)| && leaf == Leaves(h, Chunks(ts))[i]
  {
    hide Chunks, Table, InFile, Depth;
    var chunk := ReadChunkBytes(idx.gguf, idx.table, i, ts);
    leaf := h(chunk);
  }

  method ReadLeaves(h: Hash, idx: Index, start: nat, end: nat, ghost ts: seq<Tensor>) returns (nodes: seq<Bytes32>)
    requires Describes(idx, ts) && start <= end <= idx.nChunks
    ensures |Chunks(ts)| == idx.nChunks && nodes == Leaves(h, Chunks(ts))[start..end]
  {
    hide Leaves, Table, InFile, Depth, Chunks;
    ghost var leaves := Leaves(h, Chunks(ts));
    nodes := [];
    for i := start to end
      invariant nodes == leaves[start..i]
    {
      var leaf := ReadLeaf(h, idx, i, ts);
      assert leaves[start..i + 1] == leaves[start..i] + [leaf];
      nodes := nodes + [leaf];
    }
  }

  /** One node of a stored level, read from the file. */
  method ReadStoredNode(h: Hash, idx: Index, level: nat, i: nat, ghost ts: seq<Tensor>) returns (node: Bytes32)
    requires Describes(idx, ts) && 0 < level && IsSource(idx.nChunks, level) && i < CountAt(idx.nChunks, level)
    ensures node == Source(h, idx, ts, level)[i]
  {
    hide Table, InFile, Depth, Chunks, CountAt;
    CheckpointAt(idx.nChunks, idx.checkpoints, level);
    RegionInFile(idx.nChunks, idx.checkpoints, level / 6 - 1);
    var c := FindCheckpoint(idx.checkpoints, level);
    SameCheckpoint(idx.nChunks, idx.checkpoints, c, level / 6 - 1);
    node := idx.treeFile[idx.checkpoints[c].offset / 32 + i];
  }

  lemma SameCheckpoint(n: nat, cps: seq<StoredLevel>, a: nat, b: nat)
    requires n > 0 && IsLayout(n, cps) && a < |cps| && b < |cps| && cps[a].level == cps[b].level
    ensures a == b
  {
    if a < b {
      LayoutAscends(n, cps, a, b);
    } else if b < a {
      LayoutAscends(n, cps, b, a);
    }
  }

  method ReadStored(h: Hash, idx: Index, level: nat, start: nat, end: nat, ghost ts: seq<Tensor>)
    returns (nodes: seq<Bytes32>)
    requires Describes(idx, ts) && 0 < level && IsSource(idx.nChunks, level)
    requires start <= end <= CountAt(idx.nChunks, level)
    ensures nodes == Source(h, idx, ts, level)[start..end]
  {
    hide Describes, Source, IsSource, CountAt;
    ghost var stored := Source(h, idx, ts, level);
    nodes := [];
    for i := start to end
      invariant nodes == stored[start..i]
    {
      var node := ReadStoredNode(h, idx, level, i, ts);
      assert stored[start..i + 1] == stored[start..i] + [node];
      nodes := nodes + [node];
    }
  }

  /** How many nodes the source level has: every chunk, or the count of the stored level. */
  method SourceCount(h: Hash, idx: Index, srcLevel: nat, ghost ts: seq<Tensor>) returns (count: nat)
    requires Describes(idx, ts) && IsSource(idx.nChunks, srcLevel)
    ensures count == |Source(h, idx, ts, srcLevel)|
  {
    hide Table, InFile, Chunks, Depth;
    count := idx.nChunks;
    if srcLevel != 0 {
      CheckpointAt(idx.nChunks, idx.checkpoints, srcLevel);
      var c := FindCheckpoint(idx.checkpoints, srcLevel);
      SameCheckpoint(idx.nChunks, idx.checkpoints, c, srcLevel / 6 - 1);
      count := idx.checkpoints[c].count;
    }
  }

  method ReadSource(h: Hash, idx: Index, srcLevel: nat, start: nat, end: nat, ghost ts: seq<Tensor>)
    returns (nodes: seq<Bytes32>)
    requires Describes(idx, ts) && IsSource(idx.nChunks, srcLevel)
    requires start <= end <= |Source(h, idx, ts, srcLevel)|
    ensures nodes == Source(h, idx, ts, srcLevel)[start..end]
  {
    hide Table, InFile, Chunks, Depth;
    if srcLevel == 0 {
      nodes := ReadLeaves(h, idx, start, end, ts);
    } else {
      nodes := ReadStored(h, idx, srcLevel, start, end, ts);
    }
  }

  /** `compute_subtree_hash`: node `j` of the level `log2(span)` above the source level. */
  method SubtreeHash(h: Hash, idx: Index, start: nat, span: nat, srcLevel: nat, ghost j: nat, ghost r: nat,
          ghost ts: seq<Tensor>)
    returns (node: Bytes32)
    requires Describes(idx, ts) && IsSource(idx.nChunks, srcLevel)
    requires span == Pow2(r) && start == Times(j, Pow2(r))
    ensures var level := LevelAt(Node(h), Source(h, idx, ts, srcLevel), r);
            node == if j < |level| then level[j] else Zeros()
  {
    hide LevelAt, Source, Pow2, Describes, IsSource, TrailingZeros, Zeros;
    ghost var source := Source(h, idx, ts, srcLevel);
    var rounds := TrailingZeros(span);
    TrailingZerosOfPower(r);
    var sourceCount := SourceCount(h, idx, srcLevel, ts);
    LevelSize(Node(h), source, r);
    SpanStartsInRange(sourceCount, j, r);
    if start >= sourceCount {
      return Zeros();
    }
    var nodes := ReadSource(h, idx, srcLevel, start, Min(start + span, sourceCount), ts);
    FoldSpan(Node(h), source, j, r);
    node := FoldLevels(Node(h), nodes, rounds);
  }

  /** A sibling on a stored level, read from the file. */
  method StoredSibling(h: Hash, idx: Index, level: nat, i: nat, ghost ts: seq<Tensor>) returns (node: Bytes32)
    requires Describes(idx, ts) && 0 < level < Depth(idx.nChunks) && level % 6 == 0 && i < CountAt(idx.nChunks, level)
    ensures node == SiblingNode(SeenLevel(h, idx, ts, level), i)
  {
    var sibIdx := Sibling(i);
    var count := SourceCount(h, idx, level, ts);
    LevelZero(Node(h), Source(h, idx, ts, level));
    assert SourceBelow(level) == level;
    node := ReadStoredNode(h, idx, level, if sibIdx < count then sibIdx else i, ts);
  }

  /** A sibling on a level that is not stored, rebuilt from the nearest source below. */
  method RebuiltSibling(h: Hash, idx: Index, level: nat, i: nat, ghost ts: seq<Tensor>) returns (node: Bytes32)
    requires Describes(idx, ts) && level < Depth(idx.nChunks) && i < CountAt(idx.nChunks, level)
    ensures node == SiblingNode(SeenLevel(h, idx, ts, level), i)
  {
    hide LevelAt, Leaves, Chunks, CountAt, Depth, Pow2, Source;
    var sibIdx := Sibling(i);
    var nodeCount := CountAtLevel(idx.nChunks, level);
    var realSibIdx := if sibIdx < nodeCount then sibIdx else i;
    var srcLevel := SourceBelow(level);
    var span := Pow2(level - srcLevel);
    node := SubtreeHash(h, idx, Times(realSibIdx, span), span, srcLevel, realSibIdx, level - srcLevel, ts);
  }

  /** `merkle_path`: the path as the file gives it; with the dense levels in the file it is the dense path node for
      node, for every number of chunks and every chunk. */
  method MerklePath(h: Hash, idx: Index, off: nat, ghost ts: seq<Tensor>) returns (path: seq<Bytes32>)
    requires Describes(idx, ts) && off < idx.nChunks
    ensures path == FilePath(h, idx, ts, off)
    ensures Valid(h, idx, ts) ==> path == Path(Node(h), Leaves(h, Chunks(ts)), off)
  {
    hide SeenLevel, Chunks, Table, InFile, CountAt, Leaves;
    path := [];
    var i := off;
    for level := 0 to idx.totalLevels
      invariant level <= Depth(idx.nChunks) && i == Ancestor(off, level)
      invariant path == FilePath(h, idx, ts, off)[..level]
    {
      if level == idx.totalLevels - 1 {
        break;
      }
      AncestorInRange(idx.nChunks, off, level);
      var node: Bytes32;
      if level > 0 && (level % CHECKPOINT_INTERVAL == 0 || level == idx.totalLevels - 1) {
        node := StoredSibling(h, idx, level, i, ts);
      } else {
        node := RebuiltSibling(h, idx, level, i, ts);
      }
      AncestorStep(off, level);
      path := path + [node];
      i := i / 2;
    }
    if Valid(h, idx, ts) {
      ValidHoldsBelowRoot(h, idx, ts);
      FilePathIsDense(h, idx, ts, off);
    }
  }
}
