/** What a verified Merkle path binds its prover to, for any pair hash: the node it starts from is the
    honest one, or two different pairs with one hash are found. */
module Binding {
  import opened Arith
  import opened Bytes
  import opened Merkle

  /** Two pairs of nodes. */
  datatype Clash<D> = Clash(left: D, right: D, left': D, right': D)

  predicate IsClash<D(==)>(pair: (D, D) -> D, c: Clash<D>) {
    (c.left != c.left' || c.right != c.right') && pair(c.left, c.right) == pair(c.left', c.right')
  }

  function LeftInput<D>(acc: D, idx: nat, sib: D): D {
    if idx % 2 == 0 then acc else sib
  }

  function RightInput<D>(acc: D, idx: nat, sib: D): D {
    if idx % 2 == 0 then sib else acc
  }

  /** A climbing step set against node `p` of the honest level above. */
  function StepClash<D>(level: seq<D>, p: nat, acc: D, idx: nat, sib: D): Clash<D>
    requires 2 * p < |level|
  {
    Clash(LeftInput(acc, idx, sib), RightInput(acc, idx, sib), level[2 * p], RightOf(level, p))
  }

  /** The node of an `n`-node level where a climb of `l` steps that reaches the root started. */
  function Position(n: nat, idx: nat, l: nat): (p: nat)
    requires n > 0
    ensures p < n
    decreases l
  {
    if l == 0 then 0 else Min(2 * Position((n + 1) / 2, idx / 2, l - 1) + idx % 2, n - 1)
  }

  lemma {:induction false} PositionInRange(n: nat, idx: nat)
    requires idx < n
    ensures Position(n, idx, Depth(n)) == idx
    decreases n
  {
    if n > 1 {
      PositionInRange((n + 1) / 2, idx / 2);
    }
  }

  lemma {:induction false} DepthOfLevel(n: nat, a: nat)
    requires n > 0 && a <= Depth(n)
    ensures Depth(CountAt(n, a)) == Depth(n) - a
    decreases a
  {
    if a > 0 {
      DepthOfLevel((n + 1) / 2, a - 1);
    }
  }

  /** Follow a claimed path and the honest tree together, and stop at the first clash. */
  function PathClash<D(==)>(pair: (D, D) -> D, leaves: seq<D>, acc: D, idx: nat, path: seq<D>): Option<Clash<D>>
    requires leaves != []
    decreases |path|
  {
    if path == [] || |leaves| == 1 then None
    else
      var next := NextLevel(pair, leaves);
      var here := StepClash(leaves, Position(|next|, idx / 2, |path| - 1), acc, idx, path[0]);
      if IsClash(pair, here) then Some(here)
      else PathClash(pair, next, Join(pair, acc, idx, path[0]), idx / 2, path[1..])
  }

  lemma {:induction false} PathClashIsReal<D>(pair: (D, D) -> D, leaves: seq<D>, acc: D, idx: nat, path: seq<D>)
    requires leaves != []
    ensures var c := PathClash(pair, leaves, acc, idx, path); c.Some? ==> IsClash(pair, c.value)
    decreases |path|
  {
    if path != [] && |leaves| > 1 {
      PathClashIsReal(pair, NextLevel(pair, leaves), Join(pair, acc, idx, path[0]), idx / 2, path[1..]);
    }
  }

  /** Without a clash, a step to the honest node above starts at one of its children. */
  lemma StepBinds<D>(pair: (D, D) -> D, level: seq<D>, p: nat, acc: D, idx: nat, sib: D)
    requires 2 * p < |level| && !IsClash(pair, StepClash(level, p, acc, idx, sib))
    requires Join(pair, acc, idx, sib) == NextLevel(pair, level)[p]
    ensures acc == level[Min(2 * p + idx % 2, |level| - 1)]
  {
  }

  /** A path of the tree's depth that reaches the root started at the honest leaf. */
  lemma {:induction false} PathBinds<D>(pair: (D, D) -> D, leaves: seq<D>, acc: D, idx: nat, path: seq<D>)
    requires leaves != [] && |path| == Depth(|leaves|)
    requires Climb(pair, acc, idx, path) == Root(pair, leaves)
    requires PathClash(pair, leaves, acc, idx, path).None?
    ensures acc == leaves[Position(|leaves|, idx, |path|)]
    decreases |path|
  {
    if path != [] {
      hide StepClash, IsClash, Join;
      PathBinds(pair, NextLevel(pair, leaves), Join(pair, acc, idx, path[0]), idx / 2, path[1..]);
      StepBinds(pair, leaves, Position((|leaves| + 1) / 2, idx / 2, |path| - 1), acc, idx, path[0]);
    }
  }

  // ---------------------------------------------------------------------------------------------
  // Paths of any length

  /** The clash between a path and the tree aligned at the root: a short path starts at an inner level,
      a long one still climbs when it passes the leaves. */
  function AlignedClash<D(==)>(pair: (D, D) -> D, leaves: seq<D>, acc: D, idx: nat, path: seq<D>): Option<Clash<D>>
    requires leaves != []
  {
    var d := Depth(|leaves|);
    if |path| <= d then PathClash(pair, LevelAt(pair, leaves, d - |path|), acc, idx, path)
    else
      var extra := |path| - d;
      PathClash(pair, leaves, Climb(pair, acc, idx, path[..extra]), Ancestor(idx, extra), path[extra..])
  }

  lemma AlignedClashIsReal<D>(pair: (D, D) -> D, leaves: seq<D>, acc: D, idx: nat, path: seq<D>)
    requires leaves != []
    ensures var c := AlignedClash(pair, leaves, acc, idx, path); c.Some? ==> IsClash(pair, c.value)
  {
    var d := Depth(|leaves|);
    if |path| <= d {
      PathClashIsReal(pair, LevelAt(pair, leaves, d - |path|), acc, idx, path);
    } else {
      var extra := |path| - d;
      PathClashIsReal(pair, leaves, Climb(pair, acc, idx, path[..extra]), Ancestor(idx, extra), path[extra..]);
    }
  }

  /** A path no longer than the tree started at a node of the level it reaches down to. */
  lemma ShortPathBinds<D>(pair: (D, D) -> D, leaves: seq<D>, acc: D, idx: nat, path: seq<D>)
    requires leaves != [] && |path| <= Depth(|leaves|)
    requires Climb(pair, acc, idx, path) == Root(pair, leaves)
    requires AlignedClash(pair, leaves, acc, idx, path).None?
    ensures var level := LevelAt(pair, leaves, Depth(|leaves|) - |path|);
            acc == level[Position(|level|, idx, |path|)]
  {
    var a := Depth(|leaves|) - |path|;
    var level := LevelAt(pair, leaves, a);
    LevelSize(pair, leaves, a);
    DepthOfLevel(|leaves|, a);
    RootIsLevel(pair, leaves);
    RootIsLevel(pair, level);
    LevelCompose(pair, leaves, a, |path|);
    PathBinds(pair, level, acc, idx, path);
  }

  /** A longer path passes the leaves at a leaf. */
  lemma LongPathBinds<D>(pair: (D, D) -> D, leaves: seq<D>, acc: D, idx: nat, path: seq<D>)
    requires leaves != [] && |path| > Depth(|leaves|)
    requires Climb(pair, acc, idx, path) == Root(pair, leaves)
    requires AlignedClash(pair, leaves, acc, idx, path).None?
    ensures var extra := |path| - Depth(|leaves|);
            Climb(pair, acc, idx, path[..extra]) == leaves[Position(|leaves|, Ancestor(idx, extra), Depth(|leaves|))]
  {
    var extra := |path| - Depth(|leaves|);
    assert path == path[..extra] + path[extra..];
    ClimbAppend(pair, acc, idx, path[..extra], path[extra..]);
    PathBinds(pair, leaves, Climb(pair, acc, idx, path[..extra]), Ancestor(idx, extra), path[extra..]);
  }

  /** The node below the start of a short path: the pair it is the hash of. */
  lemma InnerNodeIsPair<D>(pair: (D, D) -> D, leaves: seq<D>, a: nat, p: nat)
    requires leaves != [] && a > 0 && p < |LevelAt(pair, leaves, a)|
    ensures 2 * p < |LevelAt(pair, leaves, a - 1)|
    ensures var below := LevelAt(pair, leaves, a - 1);
            LevelAt(pair, leaves, a)[p] == pair(below[2 * p], RightOf(below, p))
  {
    var below := LevelAt(pair, leaves, a - 1);
    LevelCompose(pair, leaves, a - 1, 1);
    assert LevelAt(pair, below, 1) == NextLevel(pair, below);
  }

  /** The last step of a climb is the hash of a pair. */
  lemma ClimbEndsWithJoin<D>(pair: (D, D) -> D, acc: D, idx: nat, path: seq<D>)
    requires path != []
    ensures var m := |path| - 1;
            Climb(pair, acc, idx, path)
            == Join(pair, Climb(pair, acc, idx, path[..m]), Ancestor(idx, m), path[m])
  {
    var m := |path| - 1;
    assert path == path[..m] + [path[m]];
    ClimbAppend(pair, acc, idx, path[..m], [path[m]]);
    assert [path[m]][1..] == [];
  }
}
