/** The possession proof: the data-dependent walk, its trace, the Fiat-Shamir openings,
    and the check that accepts a proof. */
module Possession {
  import opened Arith
  import opened Bytes
  import opened Digits
  import opened ByteOrder
  import opened Mix
  import opened Merkle
  import opened Canonical
  import opened WeightIndex

  datatype PomOpening = PomOpening(
    stateBefore: u64,
    chunk: Bytes32,
    weightPath: seq<Bytes32>,
    tracePathBefore: seq<Bytes32>,
    tracePathAfter: seq<Bytes32>)

  datatype PomProof = PomProof(
    tier: nat,
    traceRoot: Bytes32,
    powValue: Bytes32,
    finalState: u64,
    initialTracePath: seq<Bytes32>,
    finalTracePath: seq<Bytes32>,
    openings: seq<PomOpening>)

  // ---------------------------------------------------------------------------------------------
  // The walk

  /** The chunk a state points at. */
  function Offset(state: u64, n: nat): (off: nat)
    requires n > 0
    ensures off < n
  {
    Mod(Number(state), n)
  }

  function Step(chunks: seq<Bytes32>, state: u64): u64
    requires chunks != []
  {
    Transition(state, ChunkToWords(chunks[Offset(state, |chunks|)]))
  }

  /** The state after `i` steps. */
  function Walk(chunks: seq<Bytes32>, seed: u64, i: nat): u64
    requires chunks != []
  {
    if i == 0 then seed else Step(chunks, Walk(chunks, seed, i - 1))
  }

  /** The `k + 1` states of the walk. */
  function Trace(chunks: seq<Bytes32>, seed: u64, k: nat): (trace: seq<u64>)
    requires chunks != []
    ensures |trace| == k + 1
  {
    seq(k + 1, i requires 0 <= i < k + 1 => Walk(chunks, seed, i))
  }

  /** The chunk that step `i` of the walk reads. */
  function ReadAt(chunks: seq<Bytes32>, seed: u64, i: nat): (off: nat)
    requires chunks != []
    ensures off < |chunks|
  {
    Offset(Walk(chunks, seed, i), |chunks|)
  }

  /** Two models of one size hold the same chunks wherever the walk over the first reads before step `i`. */
  ghost predicate SameReads(a: seq<Bytes32>, b: seq<Bytes32>, seed: u64, i: nat)
    requires a != [] && |a| == |b|
  {
    forall j | 0 <= j < i :: a[ReadAt(a, seed, j)] == b[ReadAt(a, seed, j)]
  }

  /** A walk depends on nothing but the chunks it reads. */
  lemma {:induction false} SameReadsSameState(a: seq<Bytes32>, b: seq<Bytes32>, seed: u64, i: nat)
    requires a != [] && |a| == |b| && SameReads(a, b, seed, i)
    ensures Walk(a, seed, i) == Walk(b, seed, i)
  {
    hide Transition, ChunkToWords, Offset;
    if i > 0 {
      SameReadsSameState(a, b, seed, i - 1);
      assert a[ReadAt(a, seed, i - 1)] == b[ReadAt(a, seed, i - 1)];
    }
  }

  /** It depends on them all: two models that agree on the chunks read before step `i` part after it if and only if
      the words of the chunk read then combine to different words. */
  lemma WalksPartIff(a: seq<Bytes32>, b: seq<Bytes32>, seed: u64, i: nat)
    requires a != [] && |a| == |b| && SameReads(a, b, seed, i)
    ensures var off := ReadAt(a, seed, i);
      Walk(a, seed, i + 1) == Walk(b, seed, i + 1) <==> XorOf(ChunkToWords(a[off])) == XorOf(ChunkToWords(b[off]))
  {
    hide Transition, ChunkToWords, Offset, XorOf, Xor;
    SameReadsSameState(a, b, seed, i);
    var state, off := Walk(a, seed, i), ReadAt(a, seed, i);
    var c, d := ChunkToWords(a[off]), ChunkToWords(b[off]);
    TransitionsMeetIff(state, c, state, d);
    XorCancels(XorOf(c), XorOf(d), state);
  }

  /** So one word of the chunk read decides: if the two chunks differ in word `w` alone, the walks part. */
  lemma OneWordParts(a: seq<Bytes32>, b: seq<Bytes32>, seed: u64, i: nat, w: nat)
    requires a != [] && |a| == |b| && SameReads(a, b, seed, i) && w < 4
    requires var c, d := ChunkToWords(a[ReadAt(a, seed, i)]), ChunkToWords(b[ReadAt(a, seed, i)]);
      d == c[w := d[w]] && c[w] != d[w]
    ensures Walk(a, seed, i + 1) != Walk(b, seed, i + 1)
  {
    hide Transition, ChunkToWords, Offset, XorOf;
    WalksPartIff(a, b, seed, i);
    CombinedDecides(ChunkToWords(a[ReadAt(a, seed, i)]), ChunkToWords(b[ReadAt(a, seed, i)]), w);
  }

  function TraceLeaf(h: Hash, state: u64): Bytes32 {
    h(Le64(state))
  }

  function TraceLeaves(h: Hash, trace: seq<u64>): (ls: seq<Bytes32>)
    ensures |ls| == |trace|
  {
    seq(|trace|, i requires 0 <= i < |trace| => TraceLeaf(h, trace[i]))
  }

  // ---------------------------------------------------------------------------------------------
  // Challenges

  function FiatShamirSeed(h: Hash, prePow: Bytes32, nonce: u64, traceRoot: Bytes32, powValue: Bytes32): Bytes32 {
    h(prePow + Le64(nonce) + traceRoot + powValue)
  }

  /** The 40 bytes hashed for challenge `j`. */
  function ChallengeInput(fsSeed: Bytes32, j: nat): seq<byte> {
    fsSeed + Le64(U64(j))
  }

  function Challenge(h: Hash, fsSeed: Bytes32, k: nat, j: nat): (i: nat)
    requires k > 0
    ensures i < k
  {
    Mod(Number(Word64(h(ChallengeInput(fsSeed, j))[..8])), k)
  }

  /** The step indices to open. */
  function Challenges(h: Hash, prePow: Bytes32, nonce: u64, traceRoot: Bytes32, powValue: Bytes32, t: nat, k: nat)
    : (chs: seq<nat>)
    requires t > 0 ==> k > 0
    ensures |chs| == t && forall j | 0 <= j < t :: chs[j] < k
  {
    var fsSeed := FiatShamirSeed(h, prePow, nonce, traceRoot, powValue);
    seq(t, j requires 0 <= j < t => Challenge(h, fsSeed, k, j))
  }

  /** The input of the Fiat-Shamir hash is 104 bytes that fix every field: two proofs with the same challenge seed
      agree on all four, or these inputs collide. */
  lemma FiatShamirBinds(h: Hash, p: Bytes32, n: u64, r: Bytes32, v: Bytes32,
                        p': Bytes32, n': u64, r': Bytes32, v': Bytes32)
    requires FiatShamirSeed(h, p, n, r, v) == FiatShamirSeed(h, p', n', r', v')
    ensures || (p == p' && n == n' && r == r' && v == v')
            || (var x, y := p + Le64(n) + r + v, p' + Le64(n') + r' + v'; x != y && h(x) == h(y))
  {
    hide ByteOf;
    var x, y := p + Le64(n) + r + v, p' + Le64(n') + r' + v';
    if x == y {
      FieldsOf(p, Le64(n), r, v);
      FieldsOf(p', Le64(n'), r', v');
      Le64Injective(n, n');
    }
  }

  lemma FieldsOf(p: Bytes32, n: seq<byte>, r: Bytes32, v: Bytes32)
    requires |n| == 8
    ensures var x := p + n + r + v; x[..32] == p && x[32..40] == n && x[40..72] == r && x[72..] == v
  {
    var pn := p + n;
    var pnr := pn + r;
    assert (pnr + v)[..72] == pnr && (pnr + v)[72..] == v;
    assert pnr[..40] == pn && pnr[40..72] == r && pn[..32] == p && pn[32..40] == n;
    assert (pnr + v)[..32] == pnr[..32] && (pnr + v)[32..40] == pnr[32..40] && (pnr + v)[40..72] == pnr[40..72];
    assert pnr[..32] == pn[..32] && pnr[32..40] == pn[32..40];
  }

  /** Challenges with different numbers or seeds hash different inputs of 40 bytes. */
  lemma ChallengeInputsDiffer(s: Bytes32, i: nat, t: Bytes32, j: nat)
    requires i < TWO64 && j < TWO64
    ensures |ChallengeInput(s, i)| == 40 && (ChallengeInput(s, i) == ChallengeInput(t, j) <==> s == t && i == j)
  {
    hide Le64, U64, Number;
    var x, y := ChallengeInput(s, i), ChallengeInput(t, j);
    if x == y {
      assert x[..32] == s && x[32..] == Le64(U64(i)) && y[..32] == t && y[32..] == Le64(U64(j));
      Le64Injective(U64(i), U64(j));
      NumberOfU64(i);
      NumberOfU64(j);
    }
  }

  /** A challenge is the little-endian number of its digest's first eight bytes, up to a multiple of `k`; no other
      value of the hash matters to it. */
  lemma ChallengeIsDigest(h: Hash, g: Hash, s: Bytes32, k: nat, j: nat)
    requires k > 0
    ensures exists q: nat :: LeValue(h(ChallengeInput(s, j))[..8]) == q * k + Challenge(h, s, k, j)
    ensures h(ChallengeInput(s, j)) == g(ChallengeInput(s, j)) ==> Challenge(h, s, k, j) == Challenge(g, s, k, j)
  {
    hide Word64, LeValue, Le64, U64;
    var bytes := h(ChallengeInput(s, j))[..8];
    NumberOfBytes(bytes);
    assert LeValue(bytes) == Times(Quot(LeValue(bytes), k), k) + Mod(LeValue(bytes), k);
  }

  // Every list of steps is asked for under some hash.

  /** A digest whose first eight bytes spell `v`. */
  function Spelling8(v: nat): Bytes32 {
    Le64(U64(v)) + seq(24, _ => 0)
  }

  /** The input is as long as a challenge's: the number in its last eight bytes. */
  function NumberAsked(b: seq<byte>): nat {
    if |b| == 40 then LeValue(b[32..]) else 0
  }

  /** A hash that makes the challenges a given list. */
  function Asking(chs: seq<nat>): Hash {
    (b: seq<byte>) => Spelling8(if NumberAsked(b) < |chs| then chs[NumberAsked(b)] else 0)
  }

  lemma AskingAsks(chs: seq<nat>, s: Bytes32, k: nat, j: nat)
    requires k <= TWO64 && j < |chs| <= TWO64 && chs[j] < k
    ensures Challenge(Asking(chs), s, k, j) == chs[j]
  {
    hide Word64, Le64, U64, LeValue, Mod;
    var x := ChallengeInput(s, j);
    assert x[32..] == Le64(U64(j));
    NumberOfU64(j);
    assert NumberAsked(x) == j;
    var v := chs[j];
    assert Spelling8(v)[..8] == Le64(U64(v));
    NumberOfU64(v);
    Le64RoundTrip(U64(v));
    ModIsIdentity(v, k);
  }

  lemma ModIsIdentity(v: nat, k: nat)
    requires v < k
    ensures Mod(v, k) == v
  {
  }

  /** Whatever the proof, every list of step indices is its challenge list under some hash: nobody can know the
      openings before the hash is taken. */
  lemma EveryListIsAsked(prePow: Bytes32, nonce: u64, traceRoot: Bytes32, powValue: Bytes32, k: nat, chs: seq<nat>)
    requires 0 < k <= TWO64 && |chs| <= TWO64 && forall j | 0 <= j < |chs| :: chs[j] < k
    ensures exists h: Hash :: Challenges(h, prePow, nonce, traceRoot, powValue, |chs|, k) == chs
  {
    hide Challenge, FiatShamirSeed;
    var h := Asking(chs);
    var s := FiatShamirSeed(h, prePow, nonce, traceRoot, powValue);
    forall j | 0 <= j < |chs| ensures Challenge(h, s, k, j) == chs[j] {
      AskingAsks(chs, s, k, j);
    }
    assert Challenges(h, prePow, nonce, traceRoot, powValue, |chs|, k) == chs;
  }

  // ---------------------------------------------------------------------------------------------
  // Acceptance

  predicate OpensStep(h: Hash, op: PomOpening, i: nat, n: nat, traceRoot: Bytes32, rT: Bytes32)
    requires n > 0
  {
    && Climb(Node(h), TraceLeaf(h, op.stateBefore), i, op.tracePathBefore) == traceRoot
    && Climb(Node(h), h(op.chunk), Offset(op.stateBefore, n), op.weightPath) == rT
    && Climb(Node(h), TraceLeaf(h, Transition(op.stateBefore, ChunkToWords(op.chunk))), i + 1, op.tracePathAfter)
       == traceRoot
  }

  /** What `verify_proof` checks. */
  ghost predicate Accepts(h: Hash, prePow: Bytes32, nonce: u64, seed: u64, proof: PomProof, n: nat, k: nat, t: nat,
                          rT: Bytes32, target: Bytes32)
    requires t > 0 ==> n > 0 && k > 0
  {
    && |proof.openings| == t
    && PomPowValue(proof.finalState, prePow) == proof.powValue
    && LeValue(proof.powValue) <= LeValue(target)
    && Climb(Node(h), TraceLeaf(h, seed), 0, proof.initialTracePath) == proof.traceRoot
    && Climb(Node(h), TraceLeaf(h, proof.finalState), k, proof.finalTracePath) == proof.traceRoot
    && var chs := Challenges(h, prePow, nonce, proof.traceRoot, proof.powValue, t, k);
       forall j | 0 <= j < t :: OpensStep(h, proof.openings[j], chs[j], n, proof.traceRoot, rT)
  }

  method VerifyProof(h: Hash, prePow: Bytes32, nonce: u64, seed: u64, proof: PomProof, n: nat, k: nat, t: nat,
                     rT: Bytes32, target: Bytes32) returns (ok: bool)
    requires t > 0 ==> n > 0 && k > 0
    ensures ok <==> Accepts(h, prePow, nonce, seed, proof, n, k, t, rT, target)
  {
    hide PomPowValue, LeValue, TraceLeaf, Transition, ChunkToWords, Challenges, Offset;
    if |proof.openings| != t {
      return false;
    }
    if PomPowValue(proof.finalState, prePow) != proof.powValue {
      return false;
    }
    var meets := LeLeq(proof.powValue, target);
    if !meets {
      return false;
    }
    var starts := VerifyMerkle(Node(h), TraceLeaf(h, seed), 0, proof.initialTracePath, proof.traceRoot);
    if !starts {
      return false;
    }
    var ends := VerifyMerkle(Node(h), TraceLeaf(h, proof.finalState), k, proof.finalTracePath, proof.traceRoot);
    if !ends {
      return false;
    }
    var chs := Challenges(h, prePow, nonce, proof.traceRoot, proof.powValue, t, k);
    for j := 0 to t
      invariant forall m | 0 <= m < j :: OpensStep(h, proof.openings[m], chs[m], n, proof.traceRoot, rT)
    {
      var opens := VerifyOpening(h, proof.openings[j], chs[j], n, proof.traceRoot, rT);
      if !opens {
        return false;
      }
    }
    return true;
  }

  /** The body of the verification loop. */
  method VerifyOpening(h: Hash, op: PomOpening, i: nat, n: nat, traceRoot: Bytes32, rT: Bytes32) returns (ok: bool)
    requires n > 0
    ensures ok <==> OpensStep(h, op, i, n, traceRoot, rT)
  {
    hide TraceLeaf, Transition, ChunkToWords, Offset;
    var before := VerifyMerkle(Node(h), TraceLeaf(h, op.stateBefore), i, op.tracePathBefore, traceRoot);
    if !before {
      return false;
    }
    var weight := VerifyMerkle(Node(h), h(op.chunk), Offset(op.stateBefore, n), op.weightPath, rT);
    if !weight {
      return false;
    }
    var stateAfter := Transition(op.stateBefore, ChunkToWords(op.chunk));
    ok := VerifyMerkle(Node(h), TraceLeaf(h, stateAfter), i + 1, op.tracePathAfter, traceRoot);
  }

  // ---------------------------------------------------------------------------------------------
  // The honest proof

  /** The opening of step `i` of a trace, with a given weight path. */
  function OpeningWith(h: Hash, chunks: seq<Bytes32>, trace: seq<u64>, i: nat, weightPath: seq<Bytes32>): PomOpening
    requires chunks != [] && i + 1 < |trace|
  {
    PomOpening(
      trace[i],
      chunks[Offset(trace[i], |chunks|)],
      weightPath,
      Path(Node(h), TraceLeaves(h, trace), i),
      Path(Node(h), TraceLeaves(h, trace), i + 1))
  }

  /** The challenges of the walk's own commitment. */
  function WalkChallenges(h: Hash, prePow: Bytes32, nonce: u64, seed: u64, chunks: seq<Bytes32>, k: nat, t: nat)
    : (chs: seq<nat>)
    requires chunks != [] && (t > 0 ==> k > 0)
    ensures |chs| == t && forall j | 0 <= j < t :: chs[j] < k
  {
    var trace := Trace(chunks, seed, k);
    Challenges(h, prePow, nonce, Root(Node(h), TraceLeaves(h, trace)), PomPowValue(trace[k], prePow), t, k)
  }

  /** The chunk that challenge `j` opens. */
  function OpenedChunk(h: Hash, prePow: Bytes32, nonce: u64, seed: u64, chunks: seq<Bytes32>, k: nat, t: nat, j: nat)
    : (off: nat)
    requires chunks != [] && j < t && k > 0
    ensures off < |chunks|
  {
    Offset(Walk(chunks, seed, WalkChallenges(h, prePow, nonce, seed, chunks, k, t)[j]), |chunks|)
  }

  /** The proof the miner builds for a nonce, with the weight paths it found. */
  function ProofWith(h: Hash, tier: nat, prePow: Bytes32, nonce: u64, seed: u64, chunks: seq<Bytes32>, k: nat, t: nat,
                     weightPaths: seq<seq<Bytes32>>): PomProof
    requires chunks != [] && (t > 0 ==> k > 0) && |weightPaths| == t
  {
    var trace := Trace(chunks, seed, k);
    var leaves := TraceLeaves(h, trace);
    var chs := WalkChallenges(h, prePow, nonce, seed, chunks, k, t);
    PomProof(
      tier,
      Root(Node(h), leaves),
      PomPowValue(trace[k], prePow),
      trace[k],
      Path(Node(h), leaves, 0),
      Path(Node(h), leaves, k),
      seq(t, j requires 0 <= j < t => OpeningWith(h, chunks, trace, chs[j], weightPaths[j])))
  }

  /** The dense paths of the opened chunks. */
  function DensePaths(h: Hash, prePow: Bytes32, nonce: u64, seed: u64, chunks: seq<Bytes32>, k: nat, t: nat)
    : (paths: seq<seq<Bytes32>>)
    requires chunks != [] && (t > 0 ==> k > 0)
    ensures |paths| == t
  {
    seq(t, j requires 0 <= j < t =>
      Path(Node(h), Leaves(h, chunks), OpenedChunk(h, prePow, nonce, seed, chunks, k, t, j)))
  }

  /** The proof over the dense tree. */
  function HonestProof(h: Hash, tier: nat, prePow: Bytes32, nonce: u64, seed: u64, chunks: seq<Bytes32>, k: nat, t: nat)
    : PomProof
    requires chunks != [] && (t > 0 ==> k > 0)
  {
    ProofWith(h, tier, prePow, nonce, seed, chunks, k, t, DensePaths(h, prePow, nonce, seed, chunks, k, t))
  }

  /** An opening of the walk passes exactly when its weight path climbs from its chunk to the root. */
  lemma OpeningOpensIff(h: Hash, chunks: seq<Bytes32>, seed: u64, k: nat, i: nat, weightPath: seq<Bytes32>, rT: Bytes32)
    requires chunks != [] && i < k
    ensures var trace := Trace(chunks, seed, k);
            var off := Offset(Walk(chunks, seed, i), |chunks|);
            OpensStep(h, OpeningWith(h, chunks, trace, i, weightPath), i, |chunks|,
                      Root(Node(h), TraceLeaves(h, trace)), rT)
            <==> Climb(Node(h), h(chunks[off]), off, weightPath) == rT
  {
    hide TraceLeaf, Transition, ChunkToWords, Offset, Climb, Path, Root, Ancestor, LevelAt;
    var trace := Trace(chunks, seed, k);
    var leaves := TraceLeaves(h, trace);
    PathClimbs(Node(h), leaves, i);
    PathClimbs(Node(h), leaves, i + 1);
    assert trace[i + 1] == Step(chunks, trace[i]);
  }

  /** The path climbs from the opened chunk to the root checked against. */
  predicate PathReaches(h: Hash, prePow: Bytes32, nonce: u64, seed: u64, chunks: seq<Bytes32>, k: nat, t: nat, j: nat,
                        path: seq<Bytes32>, rT: Bytes32)
    requires chunks != [] && j < t && k > 0
  {
    var off := OpenedChunk(h, prePow, nonce, seed, chunks, k, t, j);
    Climb(Node(h), h(chunks[off]), off, path) == rT
  }

  /** A built proof is accepted exactly when its pow value meets the target and each weight path climbs from its chunk
      to the root it is checked against. */
  lemma BuiltProofAccepted(h: Hash, tier: nat, prePow: Bytes32, nonce: u64, seed: u64, chunks: seq<Bytes32>,
                           k: nat, t: nat, weightPaths: seq<seq<Bytes32>>, rT: Bytes32, target: Bytes32)
    requires chunks != [] && (t > 0 ==> k > 0) && |weightPaths| == t
    ensures Accepts(h, prePow, nonce, seed, ProofWith(h, tier, prePow, nonce, seed, chunks, k, t, weightPaths),
                    |chunks|, k, t, rT, target)
            <==> && LeValue(PomPowValue(Walk(chunks, seed, k), prePow)) <= LeValue(target)
                 && forall j | 0 <= j < t ::
                      PathReaches(h, prePow, nonce, seed, chunks, k, t, j, weightPaths[j], rT)
  {
    hide PomPowValue, LeValue, TraceLeaf, Challenges, OpensStep, OpeningWith, Step, Walk, Climb, Root, Path, Offset;
    var trace := Trace(chunks, seed, k);
    var leaves := TraceLeaves(h, trace);
    var proof := ProofWith(h, tier, prePow, nonce, seed, chunks, k, t, weightPaths);
    PathClimbs(Node(h), leaves, 0);
    PathClimbs(Node(h), leaves, k);
    TraceEnds(chunks, seed, k);
    var chs := WalkChallenges(h, prePow, nonce, seed, chunks, k, t);
    assert chs == Challenges(h, prePow, nonce, proof.traceRoot, proof.powValue, t, k);
    forall j | 0 <= j < t
      ensures OpensStep(h, proof.openings[j], chs[j], |chunks|, proof.traceRoot, rT)
              <==> PathReaches(h, prePow, nonce, seed, chunks, k, t, j, weightPaths[j], rT)
    {
      OpeningOpensIff(h, chunks, seed, k, chs[j], weightPaths[j], rT);
    }
  }

  /** The dense path of a chunk reaches exactly the dense root. */
  lemma DensePathReaches(h: Hash, prePow: Bytes32, nonce: u64, seed: u64, chunks: seq<Bytes32>, k: nat, t: nat, j: nat,
                         rT: Bytes32)
    requires chunks != [] && j < t && k > 0
    ensures PathReaches(h, prePow, nonce, seed, chunks, k, t, j,
                        DensePaths(h, prePow, nonce, seed, chunks, k, t)[j], rT)
            <==> rT == DenseRoot(h, chunks)
  {
    hide OpenedChunk, Climb, Path, Root;
    PathClimbs(Node(h), Leaves(h, chunks), OpenedChunk(h, prePow, nonce, seed, chunks, k, t, j));
  }

  /** The honest proof is accepted exactly when its pow value meets the target and, if any step is
      opened, the root it is checked against is the dense root of the chunks. */
  lemma HonestProofAccepted(h: Hash, tier: nat, prePow: Bytes32, nonce: u64, seed: u64, chunks: seq<Bytes32>,
                            k: nat, t: nat, rT: Bytes32, target: Bytes32)
    requires chunks != [] && (t > 0 ==> k > 0)
    ensures Accepts(h, prePow, nonce, seed, HonestProof(h, tier, prePow, nonce, seed, chunks, k, t),
                    |chunks|, k, t, rT, target)
            <==> LeValue(PomPowValue(Walk(chunks, seed, k), prePow)) <= LeValue(target)
                 && (t == 0 || rT == DenseRoot(h, chunks))
  {
    hide Accepts, ProofWith, DensePaths, PathReaches, DenseRoot, LeValue, PomPowValue, Walk;
    var paths := DensePaths(h, prePow, nonce, seed, chunks, k, t);
    BuiltProofAccepted(h, tier, prePow, nonce, seed, chunks, k, t, paths, rT, target);
    forall j | 0 <= j < t
      ensures PathReaches(h, prePow, nonce, seed, chunks, k, t, j, paths[j], rT) <==> rT == DenseRoot(h, chunks)
    {
      DensePathReaches(h, prePow, nonce, seed, chunks, k, t, j, rT);
    }
    if t > 0 {
      assert PathReaches(h, prePow, nonce, seed, chunks, k, t, 0, paths[0], rT) <==> rT == DenseRoot(h, chunks);
    }
  }

  lemma TraceEnds(chunks: seq<Bytes32>, seed: u64, k: nat)
    requires chunks != []
    ensures Trace(chunks, seed, k)[0] == seed && Trace(chunks, seed, k)[k] == Walk(chunks, seed, k)
  {
  }
}
