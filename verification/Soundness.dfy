/** What an accepted possession proof binds the miner to. A hash is not injective, so every statement has
    the form: it holds, or a function of the proof computes two different inputs with one hash.
    No assumption is made on the lengths of the paths: leaves hash 8 or 32 bytes, inner nodes hash 64. */
module Soundness {
  import opened Arith
  import opened Bytes
  import opened Mix
  import opened Merkle
  import opened Binding
  import opened WeightIndex
  import opened Possession

  datatype Collision = Collision(x: seq<byte>, y: seq<byte>)

  predicate IsCollision(h: Hash, c: Collision) {
    c.x != c.y && h(c.x) == h(c.y)
  }

  /** Two inputs, if they collide. */
  function Compare(h: Hash, x: seq<byte>, y: seq<byte>): (c: Option<Collision>)
    ensures c.Some? ==> IsCollision(h, c.value)
    ensures c.None? && h(x) == h(y) ==> x == y
  {
    if x != y && h(x) == h(y) then Some(Collision(x, y)) else None
  }

  function Concat(left: Bytes32, right: Bytes32): (b: seq<byte>)
    ensures |b| == 64
  {
    left + right
  }

  /** A clash of pairs is a collision of the 64-byte inputs. */
  lemma ClashIsCollision(h: Hash, c: Clash<Bytes32>)
    requires IsClash(Node(h), c)
    ensures IsCollision(h, Collision(Concat(c.left, c.right), Concat(c.left', c.right')))
  {
    var x, y := Concat(c.left, c.right), Concat(c.left', c.right');
    assert x[..32] == c.left && x[32..] == c.right && y[..32] == c.left' && y[32..] == c.right';
  }

  // ---------------------------------------------------------------------------------------------
  // One leaf

  /** Where the path and the tree meet below: the claimed input and the honest one. */
  function MeetingInputs(h: Hash, inputs: seq<seq<byte>>, input: seq<byte>, idx: nat, path: seq<Bytes32>)
    : (xy: (seq<byte>, seq<byte>))
    requires inputs != []
  {
    var d := Depth(|inputs|);
    if |path| == d then (input, inputs[Position(|inputs|, idx, d)])
    else if |path| < d then
      var below := LevelAt(Node(h), HashAll(h, inputs), d - |path| - 1);
      var p := Position((|below| + 1) / 2, idx, |path|);
      (input, Concat(below[2 * p], RightOf(below, p)))
    else
      var m := |path| - d - 1;
      var acc := Climb(Node(h), h(input), idx, path[..m]);
      var inner := Concat(LeftInput(acc, Ancestor(idx, m), path[m]), RightInput(acc, Ancestor(idx, m), path[m]));
      (inner, inputs[Position(|inputs|, Ancestor(idx, m + 1), d)])
  }

  /** The collision that a verified path for leaf input `input` yields against the tree over `inputs`. */
  function LeafCollision(h: Hash, inputs: seq<seq<byte>>, input: seq<byte>, idx: nat,
          path: seq<Bytes32>): Option<Collision>
    requires inputs != []
  {
    match AlignedClash(Node(h), HashAll(h, inputs), h(input), idx, path)
    case Some(c) => Some(Collision(Concat(c.left, c.right), Concat(c.left', c.right')))
    case None =>
      var xy := MeetingInputs(h, inputs, input, idx, path);
      Compare(h, xy.0, xy.1)
  }

  lemma LeafCollisionIsReal(h: Hash, inputs: seq<seq<byte>>, input: seq<byte>, idx: nat, path: seq<Bytes32>)
    requires inputs != []
    ensures var c := LeafCollision(h, inputs, input, idx, path); c.Some? ==> IsCollision(h, c.value)
  {
    AlignedClashIsReal(Node(h), HashAll(h, inputs), h(input), idx, path);
    match AlignedClash(Node(h), HashAll(h, inputs), h(input), idx, path)
    case Some(c) => ClashIsCollision(h, c);
    case None =>
  }

  lemma MeetingInputsAgree(h: Hash, inputs: seq<seq<byte>>, input: seq<byte>, idx: nat, path: seq<Bytes32>)
    requires inputs != []
    requires Climb(Node(h), h(input), idx, path) == Root(Node(h), HashAll(h, inputs))
    requires AlignedClash(Node(h), HashAll(h, inputs), h(input), idx, path).None?
    ensures var xy := MeetingInputs(h, inputs, input, idx, path); h(xy.0) == h(xy.1)
  {
    hide AlignedClash, Root, HashAll, Climb, Ancestor, Position;
    var leaves := HashAll(h, inputs);
    var d := Depth(|inputs|);
    if |path| > d {
      LongPathAgrees(h, inputs, input, idx, path);
    } else {
      ShortPathBinds(Node(h), leaves, h(input), idx, path);
      if |path| == d {
        HashAllAt(h, inputs, Position(|inputs|, idx, d));
      } else {
        var a := d - |path|;
        var level := LevelAt(Node(h), leaves, a);
        LevelSize(Node(h), leaves, a);
        LevelSize(Node(h), leaves, a - 1);
        CountCompose(|inputs|, a - 1, 1);
        InnerNodeIsPair(Node(h), leaves, a, Position(|level|, idx, |path|));
      }
    }
  }

  lemma HashAllAt(h: Hash, inputs: seq<seq<byte>>, p: nat)
    requires p < |inputs|
    ensures HashAll(h, inputs)[p] == h(inputs[p])
  {
  }

  lemma LongPathAgrees(h: Hash, inputs: seq<seq<byte>>, input: seq<byte>, idx: nat, path: seq<Bytes32>)
    requires inputs != [] && |path| > Depth(|inputs|)
    requires Climb(Node(h), h(input), idx, path) == Root(Node(h), HashAll(h, inputs))
    requires AlignedClash(Node(h), HashAll(h, inputs), h(input), idx, path).None?
    ensures var xy := MeetingInputs(h, inputs, input, idx, path); h(xy.0) == h(xy.1)
  {
    hide AlignedClash, Root, HashAll, Climb, Ancestor, Position, Depth;
    var d := Depth(|inputs|);
    var extra := |path| - d;
    LongPathBinds(Node(h), HashAll(h, inputs), h(input), idx, path);
    ClimbEndsWithJoin(Node(h), h(input), idx, path[..extra]);
    assert path[..extra][..extra - 1] == path[..extra - 1];
    HashAllAt(h, inputs, Position(|inputs|, Ancestor(idx, extra), d));
  }

  /** A verified path, whatever its length, is for the leaf it names, or there is a collision. */
  lemma LeafBinds(h: Hash, inputs: seq<seq<byte>>, input: seq<byte>, idx: nat, path: seq<Bytes32>)
    requires idx < |inputs| && |input| != 64 && (forall i | 0 <= i < |inputs| :: |inputs[i]| != 64)
    requires Climb(Node(h), h(input), idx, path) == Root(Node(h), HashAll(h, inputs))
    requires LeafCollision(h, inputs, input, idx, path).None?
    ensures |path| == Depth(|inputs|) && input == inputs[idx]
  {
    hide Climb, Root, AlignedClash, HashAll;
    MeetingInputsAgree(h, inputs, input, idx, path);
    PositionInRange(|inputs|, idx);
  }

  // ---------------------------------------------------------------------------------------------
  // One opening, one proof

  function StateInputs(trace: seq<u64>): (inputs: seq<seq<byte>>)
    ensures |inputs| == |trace|
  {
    seq(|trace|, i requires 0 <= i < |trace| => Le64(trace[i]))
  }

  lemma TraceLeavesAreHashes(h: Hash, trace: seq<u64>)
    ensures HashAll(h, StateInputs(trace)) == TraceLeaves(h, trace)
  {
  }

  lemma LeavesAreHashes(h: Hash, chunks: seq<Bytes32>)
    ensures HashAll(h, chunks) == Leaves(h, chunks)
  {
  }

  function OrElse(a: Option<Collision>, b: Option<Collision>): Option<Collision> {
    if a.Some? then a else b
  }

  /** A state path against the trace. */
  function StateCollision(h: Hash, trace: seq<u64>, state: u64, i: nat, path: seq<Bytes32>): Option<Collision>
    requires trace != []
  {
    LeafCollision(h, StateInputs(trace), Le64(state), i, path)
  }

  lemma StateBinds(h: Hash, trace: seq<u64>, state: u64, i: nat, path: seq<Bytes32>)
    requires i < |trace|
    requires Climb(Node(h), TraceLeaf(h, state), i, path) == Root(Node(h), TraceLeaves(h, trace))
    requires StateCollision(h, trace, state, i, path).None?
    ensures state == trace[i]
  {
    hide Climb, Root, LeafCollision, ByteOf;
    TraceLeavesAreHashes(h, trace);
    LeafBinds(h, StateInputs(trace), Le64(state), i, path);
    Le64Injective(state, trace[i]);
  }

  function OpeningCollision(h: Hash, trace: seq<u64>, chunks: seq<Bytes32>, op: PomOpening, i: nat): Option<Collision>
    requires trace != [] && chunks != []
  {
    OrElse(StateCollision(h, trace, op.stateBefore, i, op.tracePathBefore),
    OrElse(LeafCollision(h, chunks, op.chunk, Offset(op.stateBefore, |chunks|), op.weightPath),
           StateCollision(h, trace, Transition(op.stateBefore, ChunkToWords(op.chunk)), i + 1, op.tracePathAfter)))
  }

  /** An opened step of the committed trace really is a walk step over the committed chunks. */
  lemma OpeningBinds(h: Hash, trace: seq<u64>, chunks: seq<Bytes32>, op: PomOpening, i: nat)
    requires i + 1 < |trace| && chunks != []
    requires OpensStep(h, op, i, |chunks|, Root(Node(h), TraceLeaves(h, trace)), DenseRoot(h, chunks))
    requires OpeningCollision(h, trace, chunks, op, i).None?
    ensures op.stateBefore == trace[i]
    ensures trace[i + 1] == Step(chunks, trace[i])
  {
    hide Climb, Root, LeafCollision, StateCollision, Transition, ChunkToWords, Offset, TraceLeaf;
    StateBinds(h, trace, op.stateBefore, i, op.tracePathBefore);
    LeavesAreHashes(h, chunks);
    LeafBinds(h, chunks, op.chunk, Offset(op.stateBefore, |chunks|), op.weightPath);
    StateBinds(h, trace, Transition(op.stateBefore, ChunkToWords(op.chunk)), i + 1, op.tracePathAfter);
  }

  function OpeningsCollision(h: Hash, trace: seq<u64>, chunks: seq<Bytes32>, ops: seq<PomOpening>, chs: seq<nat>)
    : Option<Collision>
    requires trace != [] && chunks != [] && |ops| == |chs|
  {
    if ops == [] then None
    else OrElse(OpeningCollision(h, trace, chunks, ops[0], chs[0]),
                OpeningsCollision(h, trace, chunks, ops[1..], chs[1..]))
  }

  lemma {:induction false} NoCollisionInAny(h: Hash, trace: seq<u64>, chunks: seq<Bytes32>, ops: seq<PomOpening>,
          chs: seq<nat>, j: nat)
    requires trace != [] && chunks != [] && j < |ops| == |chs|
    requires OpeningsCollision(h, trace, chunks, ops, chs).None?
    ensures OpeningCollision(h, trace, chunks, ops[j], chs[j]).None?
  {
    hide OpeningCollision;
    if j > 0 {
      NoCollisionInAny(h, trace, chunks, ops[1..], chs[1..], j - 1);
    }
  }

  /** The collision, if any, computed from the proof, the trace behind its root and the chunks. */
  function ProofCollision(h: Hash, prePow: Bytes32, nonce: u64, seed: u64, proof: PomProof,
                          trace: seq<u64>, chunks: seq<Bytes32>): Option<Collision>
    requires trace != [] && (proof.openings != [] ==> |trace| > 1) && chunks != []
  {
    var k := |trace| - 1;
    var chs := Challenges(h, prePow, nonce, proof.traceRoot, proof.powValue, |proof.openings|, k);
    OrElse(StateCollision(h, trace, seed, 0, proof.initialTracePath),
    OrElse(StateCollision(h, trace, proof.finalState, k, proof.finalTracePath),
           OpeningsCollision(h, trace, chunks, proof.openings, chs)))
  }

  lemma OpeningCollisionIsReal(h: Hash, trace: seq<u64>, chunks: seq<Bytes32>, op: PomOpening, i: nat)
    requires trace != [] && chunks != []
    ensures var c := OpeningCollision(h, trace, chunks, op, i); c.Some? ==> IsCollision(h, c.value)
  {
    hide LeafCollision, IsCollision, Transition, ChunkToWords, Offset;
    LeafCollisionIsReal(h, StateInputs(trace), Le64(op.stateBefore), i, op.tracePathBefore);
    LeafCollisionIsReal(h, chunks, op.chunk, Offset(op.stateBefore, |chunks|), op.weightPath);
    LeafCollisionIsReal(h, StateInputs(trace), Le64(Transition(op.stateBefore, ChunkToWords(op.chunk))), i + 1,
        op.tracePathAfter);
  }

  lemma {:induction false} OpeningsCollisionIsReal(h: Hash, trace: seq<u64>, chunks: seq<Bytes32>,
          ops: seq<PomOpening>, chs: seq<nat>)
    requires trace != [] && chunks != [] && |ops| == |chs|
    ensures var c := OpeningsCollision(h, trace, chunks, ops, chs); c.Some? ==> IsCollision(h, c.value)
  {
    hide OpeningCollision, IsCollision;
    if ops != [] {
      OpeningCollisionIsReal(h, trace, chunks, ops[0], chs[0]);
      OpeningsCollisionIsReal(h, trace, chunks, ops[1..], chs[1..]);
    }
  }

  /** Whatever `ProofCollision` returns is a pair of different inputs with one hash. */
  lemma ProofCollisionIsReal(h: Hash, prePow: Bytes32, nonce: u64, seed: u64, proof: PomProof,
                             trace: seq<u64>, chunks: seq<Bytes32>)
    requires trace != [] && (proof.openings != [] ==> |trace| > 1) && chunks != []
    ensures var c := ProofCollision(h, prePow, nonce, seed, proof, trace, chunks); c.Some? ==> IsCollision(h, c.value)
  {
    hide LeafCollision, OpeningsCollision, IsCollision, Challenges;
    var k := |trace| - 1;
    var chs := Challenges(h, prePow, nonce, proof.traceRoot, proof.powValue, |proof.openings|, k);
    LeafCollisionIsReal(h, StateInputs(trace), Le64(seed), 0, proof.initialTracePath);
    LeafCollisionIsReal(h, StateInputs(trace), Le64(proof.finalState), k, proof.finalTracePath);
    OpeningsCollisionIsReal(h, trace, chunks, proof.openings, chs);
  }

  /** Step soundness. An accepted proof whose trace root commits to `trace`, checked against the dense root
      of `chunks`, starts at the seed, ends at the final state whose pow value it carries, and makes a true
      walk step at every challenged index, unless it yields a collision. */
  lemma AcceptedProofIsSound(h: Hash, prePow: Bytes32, nonce: u64, seed: u64, proof: PomProof, k: nat, t: nat,
                             target: Bytes32, trace: seq<u64>, chunks: seq<Bytes32>)
    requires (t > 0 ==> k > 0) && |trace| == k + 1 && chunks != []
    requires Accepts(h, prePow, nonce, seed, proof, |chunks|, k, t, DenseRoot(h, chunks), target)
    requires Root(Node(h), TraceLeaves(h, trace)) == proof.traceRoot
    requires ProofCollision(h, prePow, nonce, seed, proof, trace, chunks).None?
    ensures trace[0] == seed && trace[k] == proof.finalState
    ensures LeValue(PomPowValue(trace[k], prePow)) <= LeValue(target)
    ensures forall j | 0 <= j < t ::
              var i := Challenges(h, prePow, nonce, proof.traceRoot, proof.powValue, t, k)[j];
              trace[i + 1] == Step(chunks, trace[i])
  {
    hide Climb, Root, StateCollision, OpeningCollision, OpeningsCollision, Challenges, PomPowValue, LeValue, TraceLeaf,
         Step, OpensStep, DenseRoot;
    StateBinds(h, trace, seed, 0, proof.initialTracePath);
    StateBinds(h, trace, proof.finalState, k, proof.finalTracePath);
    var chs := Challenges(h, prePow, nonce, proof.traceRoot, proof.powValue, t, k);
    forall j | 0 <= j < t
      ensures trace[chs[j] + 1] == Step(chunks, trace[chs[j]])
    {
      NoCollisionInAny(h, trace, chunks, proof.openings, chs, j);
      OpeningBinds(h, trace, chunks, proof.openings[j], chs[j]);
    }
  }

  /** When the challenges reach every step, the whole trace is the honest walk and the final state is its end. */
  lemma FullyChallengedIsHonest(h: Hash, prePow: Bytes32, nonce: u64, seed: u64, proof: PomProof, k: nat, t: nat,
                                target: Bytes32, trace: seq<u64>, chunks: seq<Bytes32>)
    requires (t > 0 ==> k > 0) && |trace| == k + 1 && chunks != []
    requires Accepts(h, prePow, nonce, seed, proof, |chunks|, k, t, DenseRoot(h, chunks), target)
    requires Root(Node(h), TraceLeaves(h, trace)) == proof.traceRoot
    requires ProofCollision(h, prePow, nonce, seed, proof, trace, chunks).None?
    requires forall i | 0 <= i < k :: i in Challenges(h, prePow, nonce, proof.traceRoot, proof.powValue, t, k)
    ensures trace == Trace(chunks, seed, k)
    ensures proof.finalState == Walk(chunks, seed, k)
  {
    hide Accepts, Root, ProofCollision, Challenges, Step, DenseRoot;
    AcceptedProofIsSound(h, prePow, nonce, seed, proof, k, t, target, trace, chunks);
    var chs := Challenges(h, prePow, nonce, proof.traceRoot, proof.powValue, t, k);
    forall i | 0 <= i < k
      ensures trace[i + 1] == Step(chunks, trace[i])
    {
      assert i in chs;
      var j :| 0 <= j < |chs| && chs[j] == i;
    }
    StepsMakeTheWalk(chunks, seed, trace, k);
    forall i | 0 <= i <= k
      ensures trace[i] == Walk(chunks, seed, i)
    {
      StepsMakeTheWalk(chunks, seed, trace, i);
    }
  }

  lemma {:induction false} StepsMakeTheWalk(chunks: seq<Bytes32>, seed: u64, trace: seq<u64>, i: nat)
    requires chunks != [] && i < |trace| && trace[0] == seed
    requires forall j | 0 <= j < |trace| - 1 :: trace[j + 1] == Step(chunks, trace[j])
    ensures trace[i] == Walk(chunks, seed, i)
  {
    hide Step;
    if i > 0 {
      StepsMakeTheWalk(chunks, seed, trace, i - 1);
      assert trace[i - 1 + 1] == Step(chunks, trace[i - 1]);
    }
  }
}
