/** The dense Merkle tree of `src/pom.rs`, with the last node of an odd level paired with itself.
    Nodes and the pair hash are parameters: nothing here depends on what a digest is. */
module Merkle {
  import opened Arith

  /** The right child of node `i` of the next level: its pair, or the lone last node again. */
  function RightOf<D>(level: seq<D>, i: nat): D
    requires 2 * i < |level|
  {
    if 2 * i + 1 < |level| then level[2 * i + 1] else level[2 * i]
  }

  /** One reduction round. */
  function NextLevel<D>(pair: (D, D) -> D, level: seq<D>): (next: seq<D>)
    ensures |next| == (|level| + 1) / 2
    ensures forall i :: 0 <= i < |next| ==> next[i] == pair(level[2 * i], RightOf(level, i))
  {
    seq((|level| + 1) / 2, i requires 0 <= i < (|level| + 1) / 2 => pair(level[2 * i], RightOf(level, i)))
  }

  /** The tree's level `l`: `l` reduction rounds above `leaves`. */
  function LevelAt<D>(pair: (D, D) -> D, leaves: seq<D>, l: nat): (level: seq<D>)
    ensures leaves != [] ==> level != []
    decreases l
  {
    if l == 0 then leaves else LevelAt(pair, NextLevel(pair, leaves), l - 1)
  }

  /** Nodes left of `n` after `l` halvings that round up. */
  function CountAt(n: nat, l: nat): (c: nat)
    ensures n > 0 ==> c > 0
    decreases l
  {
    if l == 0 then n else CountAt((n + 1) / 2, l - 1)
  }

  /** The ancestor of node `idx`, `l` levels up. */
  function Ancestor(idx: nat, l: nat): nat
    decreases l
  {
    if l == 0 then idx else Ancestor(idx / 2, l - 1)
  }

  /** Rounds until a single node is left. */
  function Depth(n: nat): nat {
    if n <= 1 then 0 else 1 + Depth((n + 1) / 2)
  }

  /** The root, as the reduction that stops at one node. */
  function Root<D>(pair: (D, D) -> D, leaves: seq<D>): D
    requires leaves != []
    decreases |leaves|
  {
    if |leaves| == 1 then leaves[0] else Root(pair, NextLevel(pair, leaves))
  }

  function Sibling(idx: nat): nat {
    if idx % 2 == 0 then idx + 1 else idx - 1
  }

  /** The sibling of node `idx`, which is the node itself when the sibling is out of range. */
  function SiblingNode<D>(level: seq<D>, idx: nat): D
    requires idx < |level|
  {
    if Sibling(idx) < |level| then level[Sibling(idx)] else level[idx]
  }

  /** The inclusion path, bottom-up. */
  function Path<D>(pair: (D, D) -> D, leaves: seq<D>, idx: nat): seq<D>
    requires idx < |leaves|
    decreases |leaves|
  {
    if |leaves| == 1 then [] else [SiblingNode(leaves, idx)] + Path(pair, NextLevel(pair, leaves), idx / 2)
  }

  /** One climbing step: an even node is the left child, an odd one the right child. */
  function Join<D>(pair: (D, D) -> D, acc: D, idx: nat, sib: D): D {
    if idx % 2 == 0 then pair(acc, sib) else pair(sib, acc)
  }

  /** The value `verify_merkle` compares with the root. */
  function Climb<D>(pair: (D, D) -> D, acc: D, idx: nat, path: seq<D>): D
    decreases |path|
  {
    if path == [] then acc else Climb(pair, Join(pair, acc, idx, path[0]), idx / 2, path[1..])
  }

  // ---------------------------------------------------------------------------------------------
  // Levels, counts and depth

  lemma {:induction false} LevelSize<D>(pair: (D, D) -> D, leaves: seq<D>, l: nat)
    ensures |LevelAt(pair, leaves, l)| == CountAt(|leaves|, l)
    decreases l
  {
    if l > 0 {
      LevelSize(pair, NextLevel(pair, leaves), l - 1);
    }
  }

  lemma {:induction false} LevelCompose<D>(pair: (D, D) -> D, leaves: seq<D>, a: nat, b: nat)
    ensures LevelAt(pair, leaves, a + b) == LevelAt(pair, LevelAt(pair, leaves, a), b)
    decreases a
  {
    if a > 0 {
      LevelCompose(pair, NextLevel(pair, leaves), a - 1, b);
    }
  }

  lemma {:induction false} CountCompose(n: nat, a: nat, b: nat)
    ensures CountAt(n, a + b) == CountAt(CountAt(n, a), b)
    decreases a
  {
    if a > 0 {
      CountCompose((n + 1) / 2, a - 1, b);
    }
  }

  /** A level has a single node exactly from the depth on. */
  lemma {:induction false} DepthIsLevel(n: nat, l: nat)
    requires n > 0
    ensures CountAt(n, l) == 1 <==> l >= Depth(n)
    decreases l
  {
    if l > 0 {
      DepthIsLevel((n + 1) / 2, l - 1);
    }
  }

  /** The root is the lone node of the level at the tree's depth. */
  lemma {:induction false} RootIsLevel<D>(pair: (D, D) -> D, leaves: seq<D>)
    requires leaves != []
    ensures LevelAt(pair, leaves, Depth(|leaves|)) == [Root(pair, leaves)]
    decreases |leaves|
  {
    if |leaves| > 1 {
      RootIsLevel(pair, NextLevel(pair, leaves));
    }
  }

  /** The path has one node for each level below the root: the sibling of the leaf's ancestor there. */
  lemma {:induction false} PathNodes<D>(pair: (D, D) -> D, leaves: seq<D>, idx: nat, l: nat)
    requires idx < |leaves|
    ensures |Path(pair, leaves, idx)| == Depth(|leaves|)
    ensures Ancestor(idx, l) < |LevelAt(pair, leaves, l)|
    ensures l < Depth(|leaves|) ==>
              Path(pair, leaves, idx)[l] == SiblingNode(LevelAt(pair, leaves, l), Ancestor(idx, l))
    decreases |leaves| + l
  {
    var next := NextLevel(pair, leaves);
    if |leaves| > 1 {
      PathNodes(pair, next, idx / 2, if l == 0 then 0 else l - 1);
    } else if l > 0 {
      PathNodes(pair, next, idx / 2, l - 1);
    }
  }

  lemma {:induction false} AncestorStep(idx: nat, l: nat)
    ensures Ancestor(idx, l + 1) == Ancestor(idx, l) / 2
    decreases l
  {
    if l > 0 {
      AncestorStep(idx / 2, l - 1);
    }
  }

  /** Climbing a leaf's own path gives the root: `merkle_proof` and `verify_merkle` are partners. */
  lemma {:induction false} PathClimbs<D>(pair: (D, D) -> D, leaves: seq<D>, idx: nat)
    requires idx < |leaves|
    ensures Climb(pair, leaves[idx], idx, Path(pair, leaves, idx)) == Root(pair, leaves)
    decreases |leaves|
  {
    if |leaves| > 1 {
      var next := NextLevel(pair, leaves);
      assert Join(pair, leaves[idx], idx, SiblingNode(leaves, idx)) == next[idx / 2];
      assert Path(pair, leaves, idx)[1..] == Path(pair, next, idx / 2);
      PathClimbs(pair, next, idx / 2);
    }
  }

  lemma {:induction false} ClimbAppend<D>(pair: (D, D) -> D, acc: D, idx: nat, p: seq<D>, q: seq<D>)
    ensures Climb(pair, acc, idx, p + q) == Climb(pair, Climb(pair, acc, idx, p), Ancestor(idx, |p|), q)
    decreases |p|
  {
    if p == [] {
      assert p + q == q;
    } else {
      assert (p + q)[1..] == p[1..] + q;
      ClimbAppend(pair, Join(pair, acc, idx, p[0]), idx / 2, p[1..], q);
    }
  }

  // ---------------------------------------------------------------------------------------------
  // Folding a slice of a level

  /** A round on a slice that starts at an even index and ends at an even index or at the right edge. */
  lemma SliceRound<D>(pair: (D, D) -> D, level: seq<D>, lo: nat, hi: nat)
    requires lo % 2 == 0 && lo <= hi <= |level| && (hi % 2 == 0 || hi == |level|)
    ensures NextLevel(pair, level[lo..hi]) == NextLevel(pair, level)[lo / 2..(hi + 1) / 2]
  {
    var slice := level[lo..hi];
    forall i | 0 <= i < (|slice| + 1) / 2
      ensures NextLevel(pair, slice)[i] == NextLevel(pair, level)[lo / 2 + i]
    {
      assert slice[2 * i] == level[2 * (lo / 2 + i)];
      assert RightOf(slice, i) == RightOf(level, lo / 2 + i);
    }
  }

  /** The source nodes under node `j` that lies `r` levels up: `2^r` of them, fewer at the right edge. */
  function Span<D>(level: seq<D>, j: nat, r: nat): (s: seq<D>)
    requires j * Pow2(r) < |level|
    ensures s != []
  {
    level[j * Pow2(r)..Min(j * Pow2(r) + Pow2(r), |level|)]
  }

  lemma SpanRound<D>(pair: (D, D) -> D, level: seq<D>, j: nat, r: nat)
    requires r > 0 && j * Pow2(r) < |level|
    ensures j * Pow2(r - 1) < |NextLevel(pair, level)|
    ensures NextLevel(pair, Span(level, j, r)) == Span(NextLevel(pair, level), j, r - 1)
  {
    DoubleProduct(j, Pow2(r - 1));
    SliceRoundAt(pair, level, j * Pow2(r - 1), Pow2(r - 1));
  }

  lemma SliceRoundAt<D>(pair: (D, D) -> D, level: seq<D>, a: nat, half: nat)
    requires 2 * a < |level|
    ensures NextLevel(pair, level[2 * a..Min(2 * a + 2 * half, |level|)])
         == NextLevel(pair, level)[a..Min(a + half, |NextLevel(pair, level)|)]
  {
    SliceRound(pair, level, 2 * a, Min(2 * a + 2 * half, |level|));
  }

  /** `r` rounds on a possibly truncated slice give exactly the dense node `r` levels up. */
  lemma {:induction false} FoldSpan<D>(pair: (D, D) -> D, level: seq<D>, j: nat, r: nat)
    requires j * Pow2(r) < |level|
    ensures j < |LevelAt(pair, level, r)|
    ensures LevelAt(pair, Span(level, j, r), r) == [LevelAt(pair, level, r)[j]]
    decreases r
  {
    if r == 0 {
      assert Span(level, j, 0) == [level[j]];
    } else {
      SpanRound(pair, level, j, r);
      FoldSpan(pair, NextLevel(pair, level), j, r - 1);
    }
  }

  /** Levels of an aligned prefix and of the rest are computed apart. */
  lemma {:induction false} LevelAppend<D>(pair: (D, D) -> D, a: seq<D>, b: seq<D>, q: nat, r: nat)
    requires |a| == q * Pow2(r)
    ensures LevelAt(pair, a + b, r) == LevelAt(pair, a, r) + LevelAt(pair, b, r)
    decreases r
  {
    if r > 0 {
      DoubleProduct(q, Pow2(r - 1));
      RoundAppend(pair, a, b);
      LevelAppend(pair, NextLevel(pair, a), NextLevel(pair, b), q, r - 1);
    }
  }

  lemma RoundAppend<D>(pair: (D, D) -> D, a: seq<D>, b: seq<D>)
    requires |a| % 2 == 0
    ensures NextLevel(pair, a + b) == NextLevel(pair, a) + NextLevel(pair, b)
  {
    var m := |a| / 2;
    forall i | 0 <= i < |NextLevel(pair, a + b)|
      ensures NextLevel(pair, a + b)[i] == (NextLevel(pair, a) + NextLevel(pair, b))[i]
    {
      if i < m {
        assert RightOf(a + b, i) == RightOf(a, i);
      } else {
        assert (a + b)[2 * i] == b[2 * (i - m)];
        assert RightOf(a + b, i) == RightOf(b, i - m);
      }
    }
  }

  /** A node is in range exactly when its first source node is. */
  lemma {:induction false} SpanStartsInRange(n: nat, j: nat, r: nat)
    ensures j < CountAt(n, r) <==> j * Pow2(r) < n
    decreases r
  {
    if r > 0 {
      DoubleProduct(j, Pow2(r - 1));
      SpanStartsInRange((n + 1) / 2, j, r - 1);
    }
  }

  // ---------------------------------------------------------------------------------------------
  // The loops

  /** One pass of the reduction loop. */
  method Reduce<D>(pair: (D, D) -> D, level: seq<D>) returns (next: seq<D>)
    ensures next == NextLevel(pair, level)
  {
    next := [];
    var i := 0;
    while i < |level|
      invariant 0 <= i <= |level| + 1 && i % 2 == 0 && |next| == i / 2
      invariant forall k :: 0 <= k < |next| ==> next[k] == NextLevel(pair, level)[k]
    {
      var r := if i + 1 < |level| then level[i + 1] else level[i];
      next := next + [pair(level[i], r)];
      i := i + 2;
    }
  }

  method MerkleRoot<D>(pair: (D, D) -> D, leaves: seq<D>) returns (root: D)
    requires leaves != []
    ensures root == Root(pair, leaves)
    ensures LevelAt(pair, leaves, Depth(|leaves|)) == [root]
  {
    var level := leaves;
    while |level| > 1
      invariant level != [] && Root(pair, level) == Root(pair, leaves)
      decreases |level|
    {
      level := Reduce(pair, level);
    }
    root := level[0];
    RootIsLevel(pair, leaves);
  }

  method MerkleProof<D>(pair: (D, D) -> D, leaves: seq<D>, index: nat) returns (path: seq<D>)
    requires index < |leaves|
    ensures path == Path(pair, leaves, index)
    ensures Climb(pair, leaves[index], index, path) == Root(pair, leaves)
  {
    path := [];
    var level := leaves;
    var idx: nat := index;
    while |level| > 1
      invariant idx < |level|
      invariant path + Path(pair, level, idx) == Path(pair, leaves, index)
      decreases |level|
    {
      var sibIdx := if idx % 2 == 0 then idx + 1 else idx - 1;
      var sib := if sibIdx < |level| then level[sibIdx] else level[idx];
      path := path + [sib];
      level := Reduce(pair, level);
      idx := idx / 2;
    }
    PathClimbs(pair, leaves, index);
  }

  method VerifyMerkle<D(==)>(pair: (D, D) -> D, leaf: D, index: nat, path: seq<D>, root: D) returns (ok: bool)
    ensures ok <==> Climb(pair, leaf, index, path) == root
  {
    var acc := leaf;
    var idx: nat := index;
    for i := 0 to |path|
      invariant Climb(pair, acc, idx, path[i..]) == Climb(pair, leaf, index, path)
    {
      assert path[i..][1..] == path[i + 1..];
      acc := if idx % 2 == 0 then pair(acc, path[i]) else pair(path[i], acc);
      idx := idx / 2;
    }
    ok := acc == root;
  }

  /** `fold_levels`: exactly `rounds` rounds, carrying a lone node through `hash(x, x)`. */
  method FoldLevels<D>(pair: (D, D) -> D, batch: seq<D>, rounds: nat) returns (node: D)
    requires batch != []
    ensures node == LevelAt(pair, batch, rounds)[0]
  {
    var level := batch;
    for i := 0 to rounds
      invariant level != [] && LevelAt(pair, level, rounds - i) == LevelAt(pair, batch, rounds)
    {
      level := Reduce(pair, level);
    }
    node := level[0];
  }
}
