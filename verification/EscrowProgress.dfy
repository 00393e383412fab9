/** What stops the claims of a run, and what lets every ripe entry be claimed. */
module EscrowProgress {
  import opened Bytes
  import opened EscrowState
  import opened EscrowRuns

  // ---------------------------------------------------------------------------------------------
  // An entry that cannot be paid out holds up those behind it

  predicate Unpayable(e: Entry) {
    BuildClaim(e).None?
  }

  /** No entry of this kind can be claimed: settled, or not worth a claim. */
  predicate OutOfTheWay(e: Entry) {
    e.Settled() || Unpayable(e)
  }

  /** Entry `e` at `p` is ripe and unpayable, and no entry of its kind before it can be claimed. */
  ghost predicate BlocksAt(es: seq<Entry>, p: nat, e: Entry, ripe: nat) {
    && p < |es| && es[p] == e && Eligible(e, ripe) && Unpayable(e)
    && forall j | 0 <= j < p && es[j].isInference == e.isInference :: OutOfTheWay(es[j])
  }

  ghost predicate Blocks(s: State, e: Entry, ripe: nat) {
    Inv(s) && !IsPending(s, e) && exists p: nat :: BlocksAt(s.entries, p, e, ripe)
  }

  lemma {:induction false} LiveAppend(a: seq<Entry>, b: seq<Entry>)
    ensures Live(a + b) == Live(a) + Live(b)
  {
    if b == [] {
      assert a + b == a && Live([]) == [];
    } else {
      var front := b[..|b| - 1];
      assert (a + b)[..|a + b| - 1] == a + front;
      LiveAppend(a, front);
    }
  }

  /** Compaction moves the entry forward and keeps the order. */
  lemma BlocksAfterCompaction(es: seq<Entry>, p: nat, e: Entry, ripe: nat)
    requires BlocksAt(es, p, e, ripe)
    ensures BlocksAt(Live(es), |Live(es[..p])|, e, ripe)
  {
    assert es == es[..p] + ([e] + es[p + 1..]);
    LiveAppend(es[..p], [e] + es[p + 1..]);
    LiveAppend([e], es[p + 1..]);
    assert Live([e]) == [e] by { assert [e][..0] == [] && Live([]) == []; }
    LiveMembers(es[..p]);
    forall j | 0 <= j < |Live(es[..p])| && Live(es)[j].isInference == e.isInference ensures OutOfTheWay(Live(es)[j]) {
      assert Live(es)[j] == Live(es[..p])[j] && Live(es)[j] in es[..p];
    }
  }

  lemma StaysOutOfTheWay(a: Entry, b: Entry)
    requires Evolves(a, b) && OutOfTheWay(a)
    ensures OutOfTheWay(b)
  {
  }

  /** An event that does not redden the entry leaves it as it is. */
  lemma StepKeepsEntry(s: State, script: string, ev: Event, e: Entry, q: nat)
    requires Inv(s) && !IsPending(s, e) && !Reddens(ev, e) && q < |Base(s, ev)| && Base(s, ev)[q] == e
    ensures q < |Step(s, script, ev).0.entries| && Step(s, script, ev).0.entries[q] == e
  {
    match ev
    case BlockSeen(b) =>
      if b.daa.Some? {
        HandleBlockEntries(s, script, b);
      }
    case Response(error) =>
      if s.pendingTxid.Some? {
        RespondFirstExact(s.entries, s.pendingTxid.value, s.pendingIndex.value, error, s.lastDaa);
      }
    case Inference(txid, daa, amount) =>
  }

  lemma BlocksInNext(s: State, script: string, ev: Event, e: Entry, p: nat, ripe: nat)
    requires Inv(s) && !IsPending(s, e) && !Reddens(ev, e) && BlocksAt(s.entries, p, e, ripe)
    ensures exists q: nat :: BlocksAt(Step(s, script, ev).0.entries, q, e, ripe)
  {
    hide Step, Inv, Unpayable;
    var q := if CompactionDue(s, ev) then |Live(s.entries[..p])| else p;
    BlocksAfterCompaction(s.entries, p, e, ripe);
    var base, t := Base(s, ev), Step(s, script, ev).0.entries;
    StepKeepsEntry(s, script, ev, e, q);
    StepGrows(s, script, ev);
    forall j | 0 <= j < q && t[j].isInference == e.isInference ensures OutOfTheWay(t[j]) {
      assert Evolves(base[j], t[j]);
      StaysOutOfTheWay(base[j], t[j]);
    }
    assert BlocksAt(t, q, e, ripe);
  }

  lemma EligibleLater(e: Entry, ripe: nat, daa: nat)
    requires Eligible(e, ripe) && ripe <= daa
    ensures Eligible(e, daa)
  {
  }

  lemma EligibleIsUnsettled(e: Entry, daa: nat)
    requires Eligible(e, daa)
    ensures !e.Settled()
  {
  }

  /** A claim passes such an entry only if it is a coinbase entry and the claim is for an inference entry. */
  lemma ClaimPasses(es: seq<Entry>, e: Entry, p: nat, ripe: nat, daa: nat, i: nat)
    requires BlocksAt(es, p, e, ripe) && ripe <= daa && ChosenAt(es, daa, i) && !Unpayable(es[i])
    ensures !e.isInference && es[i].isInference
  {
    hide Unpayable, Eligible;
    EligibleLater(e, ripe, daa);
    EligibleIsUnsettled(es[i], daa);
  }

  /** The claim of an event, if any, is for the chosen entry of the state it leaves, and that entry becomes pending. */
  lemma ClaimOfStep(s: State, script: string, ev: Event) returns (i: nat)
    requires Step(s, script, ev).1.Some?
    ensures ev.BlockSeen? && ev.block.daa.Some?
    ensures var t, c := Step(s, script, ev).0, Step(s, script, ev).1.value;
      && ChosenAt(t.entries, ev.block.daa.value, i) && !Unpayable(t.entries[i])
      && t.entries[i].Is(c.txid, c.outputIndex)
      && t.pendingTxid == Some(c.txid) && t.pendingIndex == Some(c.outputIndex)
  {
    var b := ev.block;
    var es := Tracked(s, script, b).entries;
    PickIsChosen(es, b.daa.value);
    i :| ChosenAt(es, b.daa.value, i) && es[i] == Pick(es, b.daa.value).value;
  }

  lemma PendingAfterStep(s: State, script: string, ev: Event)
    requires Inv(s) && Step(s, script, ev).1.None?
    ensures var t := Step(s, script, ev).0;
      t.pendingTxid.Some? ==> t.pendingTxid == s.pendingTxid && t.pendingIndex == s.pendingIndex
  {
  }

  lemma BlocksStep(s: State, script: string, ev: Event, e: Entry, ripe: nat)
    requires Blocks(s, e, ripe) && !Reddens(ev, e)
    requires ev.BlockSeen? && ev.block.daa.Some? ==> ev.block.daa.value >= ripe
    ensures Blocks(Step(s, script, ev).0, e, ripe)
    ensures var t, claim := Step(s, script, ev).0, Step(s, script, ev).1;
      claim.Some? ==> !e.isInference
                      && exists f | f in t.entries :: f.Is(claim.value.txid, claim.value.outputIndex) && f.isInference
  {
    hide Step, Inv, BlocksAt, ChosenAt, Unpayable;
    var p: nat :| BlocksAt(s.entries, p, e, ripe);
    BlocksInNext(s, script, ev, e, p, ripe);
    StepKeepsInv(s, script, ev);
    var t := Step(s, script, ev).0;
    if Step(s, script, ev).1.Some? {
      var i := ClaimOfStep(s, script, ev);
      var q: nat :| BlocksAt(t.entries, q, e, ripe);
      ClaimPasses(t.entries, e, q, ripe, ev.block.daa.value, i);
      OtherIsPending(t, i, e, q, ripe, ev.block.daa.value);
    } else {
      PendingAfterStep(s, script, ev);
    }
  }

  lemma OtherIsPending(t: State, i: nat, e: Entry, q: nat, ripe: nat, daa: nat)
    requires Inv(t) && BlocksAt(t.entries, q, e, ripe) && ChosenAt(t.entries, daa, i)
    requires t.entries[i].isInference != e.isInference
    requires t.pendingTxid == Some(t.entries[i].txid) && t.pendingIndex == Some(t.entries[i].outputIndex)
    ensures !IsPending(t, e) && t.entries[i] in t.entries
  {
    SameOutpointSameEntry(t.entries, t.entries[i], e);
  }

  /** A ripe entry that cannot be paid out, with none of its kind before it that can, stops every later claim of its
      kind for as long as no block reddens it; compaction and responses do not help. An inference entry, which no block
      reddens, stops all claims; a coinbase entry lets inference claims pass. */
  lemma {:induction false} StuckForever(s: State, script: string, evs: seq<Event>, n: nat, e: Entry, ripe: nat)
    requires Blocks(s, e, ripe) && n < |evs|
    requires forall k | 0 <= k <= n ::
               && !Reddens(evs[k], e)
               && (evs[k].BlockSeen? && evs[k].block.daa.Some? ==> evs[k].block.daa.value >= ripe)
    ensures Blocks(StateAt(s, script, evs, n + 1), e, ripe)
    ensures var t, claim := StateAt(s, script, evs, n + 1), ClaimAt(s, script, evs, n);
      claim.Some? ==> !e.isInference
                      && exists f | f in t.entries :: f.Is(claim.value.txid, claim.value.outputIndex) && f.isInference
  {
    hide Step, Blocks, Reddens;
    if n > 0 {
      StuckForever(s, script, evs, n - 1, e, ripe);
    }
    BlocksStep(StateAt(s, script, evs, n), script, evs[n], e, ripe);
  }

  /** It does happen: an inference payment worth no more than the fee starts it, unless a payable one is already
      waiting. */
  lemma DustBlocks(s: State, script: string, txid: string, daa: nat, amount: nat)
    requires Inv(s) && 0 < amount <= CLAIM_FEE_SOMPI && Key(txid, 1) !in Keys(s.entries)
    requires !IsPending(s, InferenceEntry(txid, daa, amount))
    requires forall e | e in s.entries && e.isInference :: OutOfTheWay(e)
    ensures Blocks(Step(s, script, Inference(txid, daa, amount)).0, InferenceEntry(txid, daa, amount),
                   Add64(Add64(daa, CHALLENGE_WINDOW_BLOCKS), 10))
  {
    var e := InferenceEntry(txid, daa, amount);
    StepKeepsInv(s, script, Inference(txid, daa, amount));
    forall j | 0 <= j < |s.entries| && s.entries[j].isInference ensures OutOfTheWay(s.entries[j]) {
      assert s.entries[j] in s.entries;
    }
    assert BlocksAt(s.entries + [e], |s.entries|, e, Add64(Add64(daa, CHALLENGE_WINDOW_BLOCKS), 10));
  }

  // ---------------------------------------------------------------------------------------------
  // Otherwise every ripe entry is claimed

  /** Unsettled, and old enough to ripen within a challenge window of `start`. */
  predicate Due(e: Entry, start: nat) {
    !e.Settled() && e.confirmDaa < start
  }

  function DueCount(es: seq<Entry>, start: nat): nat {
    if es == [] then 0 else DueCount(es[..|es| - 1], start) + if Due(es[|es| - 1], start) then 1 else 0
  }

  lemma {:induction false} DueIsCounted(es: seq<Entry>, start: nat, i: nat)
    requires i < |es| && Due(es[i], start)
    ensures DueCount(es, start) > 0
  {
    if i < |es| - 1 {
      DueIsCounted(es[..|es| - 1], start, i);
    }
  }

  /** Entries that stop being due lower the count; new ones that are not due leave it. */
  lemma {:induction false} DueCountFalls(a: seq<Entry>, b: seq<Entry>, start: nat)
    requires |a| <= |b| && (forall i | 0 <= i < |a| :: Due(b[i], start) ==> Due(a[i], start))
    requires forall i | |a| <= i < |b| :: !Due(b[i], start)
    ensures DueCount(b, start) <= DueCount(a, start)
    ensures (exists i | 0 <= i < |a| :: Due(a[i], start) && !Due(b[i], start))
            ==> DueCount(b, start) < DueCount(a, start)
    decreases |b|
  {
    hide Due;
    if |b| > |a| {
      DueCountFalls(a, b[..|b| - 1], start);
    } else if b != [] {
      DueCountFalls(a[..|a| - 1], b[..|b| - 1], start);
    }
  }

  lemma {:induction false} LiveKeepsDue(es: seq<Entry>, start: nat)
    ensures DueCount(Live(es), start) == DueCount(es, start)
  {
    if es != [] {
      var front, last := es[..|es| - 1], es[|es| - 1];
      LiveKeepsDue(front, start);
      if !last.Settled() {
        assert (Live(front) + [last])[..|Live(front)|] == Live(front);
      } else {
        assert Live(front) + [] == Live(front);
      }
    }
  }

  /** Nothing in flight, no score near the wrap, and every due entry worth a claim. */
  ghost predicate Ready(s: State, start: nat) {
    && Inv(s) && s.pendingTxid.None?
    && forall e | e in s.entries ::
         e.confirmDaa + CHALLENGE_WINDOW_BLOCKS + 10 < TWO64 && (Due(e, start) ==> !Unpayable(e))
  }

  /** A block with a usable coinbase, within a challenge window of `start`. */
  predicate Usable(b: Block, start: nat) {
    && b.daa.Some? && start <= b.daa.value < start + CHALLENGE_WINDOW_BLOCKS + 10
    && UsableCoinbase(b).Some?
  }

  /** A block, and the success of the claim it may have issued. */
  function Round(s: State, script: string, b: Block): State {
    OnSubmitResponse(HandleBlock(s, script, b).0, None)
  }

  lemma BlockGrowsReady(s: State, script: string, b: Block, start: nat)
    requires Ready(s, start) && Usable(b, start) && start + 2 * (CHALLENGE_WINDOW_BLOCKS + 10) <= TWO64
    ensures var t := HandleBlock(s, script, b).0;
      && Inv(t) && DueCount(t.entries, start) <= DueCount(s.entries, start)
      && forall f | f in t.entries ::
           f.confirmDaa + CHALLENGE_WINDOW_BLOCKS + 10 < TWO64 && (Due(f, start) ==> !Unpayable(f))
  {
    hide HandleBlock, Inv, Unpayable;
    var base, t := Base(s, BlockSeen(b)), HandleBlock(s, script, b).0;
    StepKeepsInv(s, script, BlockSeen(b));
    BlockIsStep(s, script, b);
    HandleBlockEntries(s, script, b);
    LiveMembers(s.entries);
    LiveKeepsDue(s.entries, start);
    DueCountFalls(base, t.entries, start);
    forall i | 0 <= i < |base| ensures Unpayable(t.entries[i]) == Unpayable(base[i]) && base[i] in s.entries {
      SlashedIsAsPayable(base[i]);
    }
  }

  lemma BlockIsStep(s: State, script: string, b: Block)
    ensures Step(s, script, BlockSeen(b)) == HandleBlock(s, script, b)
  {
  }

  lemma SlashedIsAsPayable(e: Entry)
    ensures Unpayable(e.(slashed := true)) == Unpayable(e) && Unpayable(e.(claimed := true)) == Unpayable(e)
  {
  }

  /** If some entry is ripe when a ready watcher sees a usable block, the block issues a claim for a due entry. */
  lemma RipeIsClaimed(s: State, script: string, b: Block, start: nat, f: Entry) returns (i: nat)
    requires Ready(s, start) && Usable(b, start) && start + 2 * (CHALLENGE_WINDOW_BLOCKS + 10) <= TWO64
    requires f in HandleBlock(s, script, b).0.entries && Eligible(f, start)
    ensures var t := HandleBlock(s, script, b).0;
      && i < |t.entries| && Due(t.entries[i], start)
      && t.pendingTxid == Some(t.entries[i].txid) && t.pendingIndex == Some(t.entries[i].outputIndex)
  {
    hide Inv;
    BlockGrowsReady(s, script, b, start);
    var daa, u := b.daa.value, Tracked(s, script, b);
    EligibleLater(f, start, daa);
    PickIsChosen(u.entries, daa);
    i :| ChosenAt(u.entries, daa, i) && u.entries[i] == Pick(u.entries, daa).value;
    RipeIsDue(u.entries[i], start, daa);
  }

  lemma RipeIsDue(e: Entry, start: nat, daa: nat)
    requires Eligible(e, daa) && daa < start + CHALLENGE_WINDOW_BLOCKS + 10
    requires e.confirmDaa + CHALLENGE_WINDOW_BLOCKS + 10 < TWO64
    ensures Due(e, start)
  {
  }

  /** The round settles the claimed entry and leaves the others. */
  lemma RoundEntries(s: State, script: string, b: Block)
    requires Inv(s)
    ensures var t, u := HandleBlock(s, script, b).0, Round(s, script, b);
      && Inv(u) && u.pendingTxid.None? && |u.entries| == |t.entries|
      && forall k | 0 <= k < |t.entries| ::
           u.entries[k] == if IsPending(t, t.entries[k]) then t.entries[k].(claimed := true) else t.entries[k]
  {
    hide HandleBlock;
    var t := HandleBlock(s, script, b).0;
    StepKeepsInv(s, script, BlockSeen(b));
    BlockIsStep(s, script, b);
    StepKeepsInv(t, script, Response(None));
    if t.pendingTxid.Some? {
      RespondFirstExact(t.entries, t.pendingTxid.value, t.pendingIndex.value, None, t.lastDaa);
    }
  }

  /** A round keeps the watcher ready; unless nothing is ripe after its block, fewer entries are due. */
  lemma RoundIsProgress(s: State, script: string, b: Block, start: nat)
    requires Ready(s, start) && Usable(b, start) && start + 2 * (CHALLENGE_WINDOW_BLOCKS + 10) <= TWO64
    ensures var u := Round(s, script, b);
      && Ready(u, start)
      && (DueCount(u.entries, start) < DueCount(s.entries, start)
          || forall f | f in HandleBlock(s, script, b).0.entries :: !Eligible(f, start))
  {
    hide HandleBlock, Round, Inv, Unpayable, Eligible, Due;
    var t, u := HandleBlock(s, script, b).0, Round(s, script, b);
    BlockGrowsReady(s, script, b, start);
    RoundEntries(s, script, b);
    forall k | 0 <= k < |t.entries|
      ensures Unpayable(u.entries[k]) == Unpayable(t.entries[k])
      ensures Due(u.entries[k], start) ==> Due(t.entries[k], start)
      ensures t.entries[k] in t.entries
    {
      ClaimedIsNotDue(t.entries[k], start);
      SlashedIsAsPayable(t.entries[k]);
    }
    DueCountFalls(t.entries, u.entries, start);
    if f :| f in t.entries && Eligible(f, start) {
      var i := RipeIsClaimed(s, script, b, start, f);
      ClaimedIsNotDue(t.entries[i], start);
      assert !Due(u.entries[i], start);
    }
  }

  lemma ClaimedIsNotDue(e: Entry, start: nat)
    ensures !Due(e.(claimed := true), start)
  {
  }

  /** Each block followed by the success of its claim; a response that nobody waits for changes nothing. */
  function Rounds(blocks: seq<Block>): seq<Event> {
    if blocks == [] then [] else [BlockSeen(blocks[0]), Response(None)] + Rounds(blocks[1..])
  }

  lemma {:induction false} RoundsLength(blocks: seq<Block>)
    ensures |Rounds(blocks)| == 2 * |blocks|
  {
    if blocks != [] {
      RoundsLength(blocks[1..]);
    }
  }

  /** The run after its first round. */
  lemma {:induction false} AfterFirstRound(s: State, script: string, blocks: seq<Block>, j: nat)
    requires blocks != [] && j <= |Rounds(blocks[1..])|
    ensures StateAt(s, script, Rounds(blocks), j + 2)
         == StateAt(Round(s, script, blocks[0]), script, Rounds(blocks[1..]), j)
  {
    var evs := Rounds(blocks);
    if j == 0 {
      assert StateAt(s, script, evs, 1) == Step(StateAt(s, script, evs, 0), script, evs[0]).0;
    } else {
      AfterFirstRound(s, script, blocks, j - 1);
      assert evs[j + 1] == Rounds(blocks[1..])[j - 1];
    }
  }

  predicate IsClaimed(es: seq<Entry>, e: Entry) {
    exists f | f in es :: f.Is(e.txid, e.outputIndex) && f.claimed
  }

  /** After some event of the rounds the entry's outpoint is claimed. */
  ghost predicate ClaimedWithin(s: State, script: string, blocks: seq<Block>, e: Entry) {
    exists j | 0 <= j <= |Rounds(blocks)| :: IsClaimed(StateAt(s, script, Rounds(blocks), j).entries, e)
  }

  ghost predicate ReddenedBy(blocks: seq<Block>, e: Entry) {
    exists b | b in blocks :: Reddens(BlockSeen(b), e)
  }

  /** What a round makes of a ripe entry. */
  lemma RoundOnRipe(s: State, script: string, b: Block, start: nat, e: Entry)
    requires Inv(s) && b.daa.Some? && e in s.entries && Eligible(e, start)
    ensures || Reddens(BlockSeen(b), e)
            || (e in HandleBlock(s, script, b).0.entries
                && (e in Round(s, script, b).entries || IsClaimed(Round(s, script, b).entries, e)))
  {
    hide HandleBlock, Round, Inv;
    var base, t, u := Base(s, BlockSeen(b)), HandleBlock(s, script, b).0, Round(s, script, b);
    LiveMembers(s.entries);
    EligibleIsUnsettled(e, start);
    var i :| 0 <= i < |base| && base[i] == e;
    HandleBlockEntries(s, script, b);
    RoundEntries(s, script, b);
    assert !Reddens(BlockSeen(b), e) ==> t.entries[i] == e;
    assert u.entries[i] in u.entries;
  }

  lemma UsableScore(b: Block, start: nat)
    requires Usable(b, start)
    ensures b.daa.Some?
  {
  }

  lemma ClaimedNow(s: State, script: string, blocks: seq<Block>, e: Entry)
    requires blocks != [] && IsClaimed(Round(s, script, blocks[0]).entries, e)
    ensures ClaimedWithin(s, script, blocks, e)
  {
    hide Round, IsClaimed;
    RoundsLength(blocks);
    AfterFirstRound(s, script, blocks, 0);
  }

  lemma ClaimedLater(s: State, script: string, blocks: seq<Block>, e: Entry)
    requires blocks != [] && ClaimedWithin(Round(s, script, blocks[0]), script, blocks[1..], e)
    ensures ClaimedWithin(s, script, blocks, e)
  {
    hide Round, IsClaimed, Step;
    var u, rest := Round(s, script, blocks[0]), blocks[1..];
    var j :| 0 <= j <= |Rounds(rest)| && IsClaimed(StateAt(u, script, Rounds(rest), j).entries, e);
    AfterFirstRound(s, script, blocks, j);
    assert IsClaimed(StateAt(s, script, Rounds(blocks), j + 2).entries, e);
  }

  /** Progress: when every due entry is worth a claim and every claim is accepted before the next block, as many
      usable blocks as there are due entries claim every entry that was ripe at the start, but for those that a
      block reddens. */
  lemma {:induction false} EveryRipeEntryIsClaimed(s: State, script: string, blocks: seq<Block>, start: nat, e: Entry)
    requires Ready(s, start) && start + 2 * (CHALLENGE_WINDOW_BLOCKS + 10) <= TWO64
    requires (forall b | b in blocks :: Usable(b, start)) && DueCount(s.entries, start) <= |blocks|
    requires e in s.entries && Eligible(e, start)
    ensures ReddenedBy(blocks, e) || ClaimedWithin(s, script, blocks, e)
    decreases |blocks|
  {
    hide HandleBlock, Round, Inv, Eligible, Reddens, Usable, Due;
    var i :| 0 <= i < |s.entries| && s.entries[i] == e;
    RipeIsDue(e, start, start);
    DueIsCounted(s.entries, start, i);
    var b, rest := blocks[0], blocks[1..];
    var u := Round(s, script, b);
    assert b in blocks && forall x | x in rest :: x in blocks;
    UsableScore(b, start);
    RoundIsProgress(s, script, b, start);
    RoundOnRipe(s, script, b, start, e);
    if Reddens(BlockSeen(b), e) {
    } else if e in u.entries && DueCount(u.entries, start) <= |rest| {
      EveryRipeEntryIsClaimed(u, script, rest, start, e);
      if ClaimedWithin(u, script, rest, e) {
        ClaimedLater(s, script, blocks, e);
      }
    } else {
      ClaimedNow(s, script, blocks, e);
    }
  }
}
