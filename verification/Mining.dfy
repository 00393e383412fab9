/** The miner's loops: the search walk, the proof builder and the nonce search. */
module Mining {
  import opened Bytes
  import opened ByteOrder
  import opened Mix
  import opened Merkle
  import opened Canonical
  import opened WeightIndex
  import opened Possession

  /** The body of both walking loops: read the chunk at `off` and move on. */
  method StepAt(idx: Index, state: u64, off: nat, ghost ts: seq<Tensor>) returns (next: u64, nextOff: nat)
    requires Describes(idx, ts) && off == Offset(state, idx.nChunks)
    ensures next == Step(Chunks(ts), state) && nextOff == Offset(next, idx.nChunks)
  {
    hide Transition, ChunkToWords, Offset;
    var chunk := ReadChunkBytes(idx.gguf, idx.table, off, ts);
    next := MixChunk(state, ChunkToWords(chunk));
    nextOff := Offset(next, idx.nChunks);
  }

  /** `walk_final`: the hot walk over the index's chunks. */
  method WalkFinal(idx: Index, seed: u64, k: nat, ghost ts: seq<Tensor>) returns (state: u64)
    requires Describes(idx, ts)
    ensures state == Walk(Chunks(ts), seed, k)
  {
    hide Step, Offset;
    state := seed;
    var off := Offset(state, idx.nChunks);
    for i := 0 to k
      invariant state == Walk(Chunks(ts), seed, i) && off == Offset(state, idx.nChunks)
    {
      state, off := StepAt(idx, state, off, ts);
    }
  }

  lemma TraceGrows(chunks: seq<Bytes32>, seed: u64, i: nat)
    requires chunks != []
    ensures Trace(chunks, seed, i + 1) == Trace(chunks, seed, i) + [Step(chunks, Walk(chunks, seed, i))]
  {
    hide Step;
  }

  /** The first half of `build_proof`: the walk again, recording every state. */
  method RecordTrace(idx: Index, seed: u64, k: nat, ghost ts: seq<Tensor>) returns (trace: seq<u64>)
    requires Describes(idx, ts)
    ensures trace == Trace(Chunks(ts), seed, k)
  {
    hide Step, Offset;
    var state := seed;
    trace := [state];
    var off := Offset(state, idx.nChunks);
    for i := 0 to k
      invariant state == Walk(Chunks(ts), seed, i) && off == Offset(state, idx.nChunks)
      invariant trace == Trace(Chunks(ts), seed, i)
    {
      TraceGrows(Chunks(ts), seed, i);
      state, off := StepAt(idx, state, off, ts);
      trace := trace + [state];
    }
  }

  method OpenStep(h: Hash, idx: Index, trace: seq<u64>, traceLeaves: seq<Bytes32>, i: nat, ghost ts: seq<Tensor>)
    returns (op: PomOpening)
    requires Describes(idx, ts) && i + 1 < |trace| && traceLeaves == TraceLeaves(h, trace)
    ensures op == OpeningWith(h, Chunks(ts), trace, i, FilePath(h, idx, ts, Offset(trace[i], idx.nChunks)))
  {
    hide TraceLeaf, ChunkToWords, WordsToBytes, Offset, FilePath;
    var off := Offset(trace[i], idx.nChunks);
    var chunk := ReadChunkBytes(idx.gguf, idx.table, off, ts);
    ChunkRoundTrip(chunk);
    var weightPath := MerklePath(h, idx, off, ts);
    var before := MerkleProof(Node(h), traceLeaves, i);
    var after := MerkleProof(Node(h), traceLeaves, i + 1);
    op := PomOpening(trace[i], WordsToBytes(ChunkToWords(chunk)), weightPath, before, after);
  }

  /** The index's paths of the opened chunks, as its file gives them. */
  ghost function FilePaths(h: Hash, idx: Index, ts: seq<Tensor>, prePow: Bytes32, nonce: u64, seed: u64, k: nat, t: nat)
    : (paths: seq<seq<Bytes32>>)
    requires Describes(idx, ts) && (t > 0 ==> k > 0)
    ensures |paths| == t
  {
    seq(t, j requires 0 <= j < t =>
      FilePath(h, idx, ts, OpenedChunk(h, prePow, nonce, seed, Chunks(ts), k, t, j)))
  }

  /** With the dense levels in the file these are the dense paths. */
  lemma FilePathsAreDense(h: Hash, idx: Index, ts: seq<Tensor>, prePow: Bytes32, nonce: u64, seed: u64, k: nat, t: nat)
    requires Valid(h, idx, ts) && (t > 0 ==> k > 0)
    ensures FilePaths(h, idx, ts, prePow, nonce, seed, k, t)
         == DensePaths(h, prePow, nonce, seed, Chunks(ts), k, t)
  {
    hide FilePath, OpenedChunk, Path, Chunks, Leaves;
    ValidHoldsBelowRoot(h, idx, ts);
    forall j | 0 <= j < t
      ensures FilePaths(h, idx, ts, prePow, nonce, seed, k, t)[j]
           == DensePaths(h, prePow, nonce, seed, Chunks(ts), k, t)[j]
    {
      FilePathIsDense(h, idx, ts, OpenedChunk(h, prePow, nonce, seed, Chunks(ts), k, t, j));
    }
  }

  /** `build_proof`, reading chunks and weight paths from the index. */
  method BuildProof(h: Hash, idx: Index, tier: nat, prePow: Bytes32, nonce: u64, seed: u64, k: nat, t: nat,
                    ghost ts: seq<Tensor>) returns (proof: PomProof)
    requires Describes(idx, ts) && (t > 0 ==> k > 0)
    ensures proof == ProofWith(h, tier, prePow, nonce, seed, Chunks(ts), k, t,
                               FilePaths(h, idx, ts, prePow, nonce, seed, k, t))
    ensures Valid(h, idx, ts) ==> proof == HonestProof(h, tier, prePow, nonce, seed, Chunks(ts), k, t)
  {
    hide TraceLeaf, PomPowValue, Challenges, OpeningWith, Walk, FilePath, Offset, Chunks, Path, Root, DensePaths;
    var trace := RecordTrace(idx, seed, k, ts);
    var leaves := TraceLeaves(h, trace);
    var traceRoot := MerkleRoot(Node(h), leaves);
    var powValue := PomPowValue(trace[k], prePow);
    var chs := Challenges(h, prePow, nonce, traceRoot, powValue, t, k);
    var openings: seq<PomOpening> := [];
    for j := 0 to t
      invariant |openings| == j
      invariant forall m | 0 <= m < j ::
                  openings[m] == OpeningWith(h, Chunks(ts), trace, chs[m],
                                             FilePath(h, idx, ts, Offset(trace[chs[m]], idx.nChunks)))
    {
      var op := OpenStep(h, idx, trace, leaves, chs[j], ts);
      openings := openings + [op];
    }
    var initial := MerkleProof(Node(h), leaves, 0);
    var final := MerkleProof(Node(h), leaves, k);
    proof := PomProof(tier, traceRoot, powValue, trace[k], initial, final, openings);
    assert openings == ProofWith(h, tier, prePow, nonce, seed, Chunks(ts), k, t,
                                 FilePaths(h, idx, ts, prePow, nonce, seed, k, t)).openings;
    if Valid(h, idx, ts) {
      FilePathsAreDense(h, idx, ts, prePow, nonce, seed, k, t);
    }
  }

  // ---------------------------------------------------------------------------------------------
  // The search

  /** `u64::saturating_add`. */
  function SaturatingAdd(a: nat, b: nat): nat {
    if a + b < TWO64 then a + b else TWO64 - 1
  }

  /** The last word is never in a searched range. */
  lemma SaturatedRange(a: nat, b: nat, n: nat)
    ensures a <= n < SaturatingAdd(a, b) <==> a <= n < a + b && n < 0xFFFF_FFFF_FFFF_FFFF
  {
  }

  /** The nonce's walk ends in a state whose pow value meets the target. */
  ghost predicate Wins(chunks: seq<Bytes32>, prePow: Bytes32, timestamp: u64, target: Bytes32, k: nat, nonce: nat)
    requires chunks != []
  {
    LeValue(PomPowValue(Walk(chunks, PomBlockSeed(prePow, timestamp, U64(nonce)), k), prePow)) <= LeValue(target)
  }

  /** The nonces that win a search. */
  ghost function Winning(chunks: seq<Bytes32>, prePow: Bytes32, timestamp: u64, target: Bytes32, k: nat): nat -> bool
    requires chunks != []
  {
    (nonce: nat) => Wins(chunks, prePow, timestamp, target, k, nonce)
  }

  /** `w` is the least winning nonce of the range, or there is none. */
  ghost predicate LeastWinner(wins: nat -> bool, lo: nat, hi: nat, w: Option<nat>) {
    match w
    case None => forall m | lo <= m < hi :: !wins(m)
    case Some(nonce) => lo <= nonce < hi && wins(nonce) && forall m | lo <= m < nonce :: !wins(m)
  }

  method TryNonce(idx: Index, prePow: Bytes32, timestamp: u64, target: Bytes32, k: nat, n: nat, ghost ts: seq<Tensor>)
    returns (wins: bool)
    requires Describes(idx, ts)
    ensures wins <==> Wins(Chunks(ts), prePow, timestamp, target, k, n)
  {
    hide PomBlockSeed, PomPowValue, Walk, LeValue, U64;
    var seed := PomBlockSeed(prePow, timestamp, U64(n));
    var finalState := WalkFinal(idx, seed, k, ts);
    wins := LeLeq(PomPowValue(finalState, prePow), target);
  }

  /** The proof for `nonce` carries the file's paths, and is accepted against the index's own root exactly when each of
      them reaches it. With the dense levels in the file it is the honest proof, accepted exactly when that root is the
      dense one or nothing is opened, so always from 33 chunks on. */
  ghost predicate ProvesNonce(h: Hash, idx: Index, ts: seq<Tensor>, tier: nat, prePow: Bytes32, timestamp: u64,
                              target: Bytes32, k: nat, t: nat, nonce: nat, proof: PomProof)
    requires Describes(idx, ts) && (t > 0 ==> k > 0)
  {
    var chunks, seed := Chunks(ts), PomBlockSeed(prePow, timestamp, U64(nonce));
    var paths := FilePaths(h, idx, ts, prePow, U64(nonce), seed, k, t);
    var accepted := Accepts(h, prePow, U64(nonce), seed, proof, |chunks|, k, t, idx.rT, target);
    && proof == ProofWith(h, tier, prePow, U64(nonce), seed, chunks, k, t, paths)
    && (accepted <==> forall j | 0 <= j < t ::
          PathReaches(h, prePow, U64(nonce), seed, chunks, k, t, j, paths[j], idx.rT))
    && (Valid(h, idx, ts) ==>
          && proof == HonestProof(h, tier, prePow, U64(nonce), seed, chunks, k, t)
          && (accepted <==> t == 0 || idx.rT == DenseRoot(h, chunks))
          && (|chunks| >= 33 ==> accepted))
  }

  method ProveNonce(h: Hash, idx: Index, tier: nat, prePow: Bytes32, timestamp: u64, target: Bytes32, k: nat, t: nat,
                    n: nat, ghost ts: seq<Tensor>) returns (proof: PomProof)
    requires Describes(idx, ts) && (t > 0 ==> k > 0) && Wins(Chunks(ts), prePow, timestamp, target, k, n)
    ensures ProvesNonce(h, idx, ts, tier, prePow, timestamp, target, k, t, n, proof)
  {
    hide PomBlockSeed, PomPowValue, Walk, LeValue, U64, HonestProof, ProofWith, Accepts, DenseRoot, PathReaches,
         FilePaths, Chunks;
    var seed := PomBlockSeed(prePow, timestamp, U64(n));
    proof := BuildProof(h, idx, tier, prePow, U64(n), seed, k, t, ts);
    BuiltProofAccepted(h, tier, prePow, U64(n), seed, Chunks(ts), k, t,
                       FilePaths(h, idx, ts, prePow, U64(n), seed, k, t), idx.rT, target);
    if Valid(h, idx, ts) {
      HonestProofAccepted(h, tier, prePow, U64(n), seed, Chunks(ts), k, t, idx.rT, target);
      DenseFrom33(h, idx, ts);
    }
  }

  /** `mine_pom`: the least winning nonce of the saturated range with its proof. */
  method MinePom(h: Hash, idx: Index, tier: nat, prePow: Bytes32, timestamp: u64, target: Bytes32, k: nat, t: nat,
                 nonceStart: nat, maxNonces: nat, ghost ts: seq<Tensor>)
    returns (nonce: Option<nat>, proof: Option<PomProof>)
    requires Describes(idx, ts) && (t > 0 ==> k > 0)
    ensures LeastWinner(Winning(Chunks(ts), prePow, timestamp, target, k),
                        nonceStart, SaturatingAdd(nonceStart, maxNonces), nonce)
    ensures nonce.None? <==> proof.None?
    ensures nonce.Some? ==> ProvesNonce(h, idx, ts, tier, prePow, timestamp, target, k, t, nonce.value, proof.value)
  {
    hide Wins, ProvesNonce, Chunks, Table, InFile, Depth;
    var end := SaturatingAdd(nonceStart, maxNonces);
    var n: nat := nonceStart;
    while n < end
      invariant nonceStart <= n
      invariant forall m | nonceStart <= m < n :: !Wins(Chunks(ts), prePow, timestamp, target, k, m)
    {
      var wins := TryNonce(idx, prePow, timestamp, target, k, n, ts);
      if wins {
        var built := ProveNonce(h, idx, tier, prePow, timestamp, target, k, t, n, ts);
        return Some(n), Some(built);
      }
      n := n + 1;
    }
    return None, None;
  }

  /** From 33 chunks on the index's root is the dense root. */
  lemma DenseFrom33(h: Hash, idx: Index, ts: seq<Tensor>)
    requires Valid(h, idx, ts)
    ensures idx.nChunks >= 33 ==> idx.rT == DenseRoot(h, Chunks(ts))
  {
    RootInFile(h, idx, ts);
    SixLevelsNeed33(idx.nChunks);
  }
}
