/** What the escrow watcher keeps over every run of blocks, submit responses and inference payments. */
module EscrowRuns {
  import opened Bytes
  import opened EscrowState

  datatype Event =
    | BlockSeen(block: Block)
    | Response(error: Option<string>)
    | Inference(txid: string, daa: nat, amount: nat)

  function Step(s: State, script: string, ev: Event): (State, Option<Claim>) {
    match ev
    case BlockSeen(b) => HandleBlock(s, script, b)
    case Response(error) => (OnSubmitResponse(s, error), None)
    case Inference(txid, daa, amount) => (TrackInference(s, txid, daa, amount), None)
  }

  /** The state before event `n`. */
  function StateAt(s: State, script: string, evs: seq<Event>, n: nat): State
    requires n <= |evs|
  {
    if n == 0 then s else Step(StateAt(s, script, evs, n - 1), script, evs[n - 1]).0
  }

  /** The claim that event `n` issues, if any. */
  function ClaimAt(s: State, script: string, evs: seq<Event>, n: nat): Option<Claim>
    requires n < |evs|
  {
    Step(StateAt(s, script, evs, n), script, evs[n]).1
  }

  // ---------------------------------------------------------------------------------------------
  // The invariant

  ghost predicate Distinct(es: seq<Entry>) {
    forall i, j | 0 <= i < j < |es| :: es[i].OutpointKey() != es[j].OutpointKey()
  }

  predicate IsPending(s: State, e: Entry) {
    s.pendingTxid == Some(e.txid) && s.pendingIndex == Some(e.outputIndex)
  }

  predicate RetriesBounded(e: Entry) {
    e.orphanRetries <= MAX_ORPHAN_RETRIES && (e.orphanRetries == MAX_ORPHAN_RETRIES ==> e.slashed)
  }

  predicate EntryOk(s: State, e: Entry) {
    RetriesBounded(e) && (IsPending(s, e) ==> e.orphanRetries < MAX_ORPHAN_RETRIES)
  }

  ghost predicate Inv(s: State) {
    && Distinct(s.entries)
    && (s.pendingTxid.Some? <==> s.pendingIndex.Some?)
    && forall e | e in s.entries :: EntryOk(s, e)
  }

  /** `b` is a later state of the entry `a`: the same escrow, with no flag cleared. */
  predicate Evolves(a: Entry, b: Entry) {
    && a.txid == b.txid && a.outputIndex == b.outputIndex
    && a.blockHash == b.blockHash && a.confirmDaa == b.confirmDaa && a.amount == b.amount
    && a.isInference == b.isInference
    && (a.claimed ==> b.claimed)
    && (a.slashed ==> b.slashed)
    && a.orphanRetries <= b.orphanRetries
  }

  predicate New(e: Entry) {
    !e.Settled() && e.orphanRetries == 0 && e.retryAfter.None?
  }

  /** `b` holds the entries of `a` in place, then new ones. */
  ghost predicate Grown(a: seq<Entry>, b: seq<Entry>) {
    && |a| <= |b|
    && (forall i | 0 <= i < |a| :: Evolves(a[i], b[i]))
    && (forall i | |a| <= i < |b| :: New(b[i]))
  }

  predicate CompactionDue(s: State, ev: Event) {
    ev.BlockSeen? && ev.block.daa.Some? && s.blocksSinceCompact + 1 >= COMPACT_EVERY_BLOCKS
  }

  /** The entries that survive into event `ev`. */
  function Base(s: State, ev: Event): seq<Entry> {
    if CompactionDue(s, ev) then Live(s.entries) else s.entries
  }

  // ---------------------------------------------------------------------------------------------
  // The operations on entries

  lemma {:induction false} LiveMembers(es: seq<Entry>)
    ensures forall e :: e in Live(es) <==> e in es && !e.Settled()
  {
    if es != [] {
      LiveMembers(es[..|es| - 1]);
      assert es == es[..|es| - 1] + [es[|es| - 1]];
    }
  }

  lemma {:induction false} LiveDistinct(es: seq<Entry>)
    requires Distinct(es)
    ensures Distinct(Live(es))
  {
    if es != [] {
      var front := es[..|es| - 1];
      LiveDistinct(front);
      LiveMembers(front);
      forall i | 0 <= i < |Live(front)| ensures Live(front)[i].OutpointKey() != es[|es| - 1].OutpointKey() {
        assert Live(front)[i] in front;
      }
    }
  }

  lemma KeysOf(es: seq<Entry>, e: Entry)
    requires e in es
    ensures e.OutpointKey() in Keys(es)
  {
  }

  /** Tracking appends exactly the outputs that pay the script and are not tracked yet. */
  lemma {:induction false} TrackOutputsGrows(es: seq<Entry>, script: string, txid: string, hash: string, daa: nat,
          os: seq<Output>, n: nat)
    requires n <= |os|
    ensures var r := TrackOutputs(es, script, txid, hash, daa, os, n);
      && |es| <= |r| && r[..|es|] == es
      && (forall i | |es| <= i < |r| ::
            New(r[i]) && !r[i].isInference && r[i].blockHash == hash && r[i].confirmDaa == daa)
      && (Distinct(es) ==> Distinct(r))
  {
    if n > 0 {
      var before := TrackOutputs(es, script, txid, hash, daa, os, n - 1);
      TrackOutputsGrows(es, script, txid, hash, daa, os, n - 1);
      forall e | e in before ensures e.OutpointKey() in Keys(before) {
        KeysOf(before, e);
      }
    }
  }

  predicate PaysAt(script: string, txid: string, os: seq<Output>, key: string, i: nat)
    requires i < |os|
  {
    PaysScript(os[i], script) && Key(txid, i) == key
  }

  lemma {:induction false} TrackedKeys(es: seq<Entry>, script: string, txid: string, hash: string, daa: nat,
          os: seq<Output>, n: nat, key: string)
    requires n <= |os|
    ensures key in Keys(TrackOutputs(es, script, txid, hash, daa, os, n)) <==>
            key in Keys(es) || exists i | 0 <= i < n :: PaysAt(script, txid, os, key, i)
  {
    if n > 0 {
      var before := TrackOutputs(es, script, txid, hash, daa, os, n - 1);
      var after := TrackOutputs(es, script, txid, hash, daa, os, n);
      TrackedKeys(es, script, txid, hash, daa, os, n - 1, key);
      assert key in Keys(after) <==> key in Keys(before) || PaysAt(script, txid, os, key, n - 1) by {
        if after != before {
          var e := CoinbaseEntry(txid, hash, daa, os[n - 1].amount, n - 1);
          assert after == before + [e] && e.OutpointKey() == Key(txid, n - 1);
          assert Keys(after) == Keys(before) + {e.OutpointKey()};
        }
      }
    }
  }

  lemma SlashRedsGrows(es: seq<Entry>, reds: seq<string>)
    ensures Grown(es, SlashReds(es, reds))
    ensures Distinct(es) ==> Distinct(SlashReds(es, reds))
  {
    var r := SlashReds(es, reds);
    forall i | 0 <= i < |es| ensures Evolves(es[i], r[i]) && es[i].OutpointKey() == r[i].OutpointKey() {
    }
  }

  lemma KeyDecidesOutpoint(a: Entry, b: Entry)
    ensures a.OutpointKey() == b.OutpointKey() <==> b.Is(a.txid, a.outputIndex)
  {
    if a.OutpointKey() == b.OutpointKey() {
      KeyInjective(a.txid, a.outputIndex, b.txid, b.outputIndex);
    }
  }

  /** The search for the first match updates every entry with the outpoint, wherever it is, and no other. */
  lemma {:induction false} RespondFirstExact(es: seq<Entry>, txid: string, index: nat, error: Option<string>, daa: nat)
    requires Distinct(es)
    ensures var r := RespondFirst(es, txid, index, error, daa);
      && |r| == |es|
      && forall k | 0 <= k < |es| :: r[k] == if es[k].Is(txid, index) then Respond(es[k], error, daa) else es[k]
  {
    if es == [] {
    } else if es[0].Is(txid, index) {
      forall k | 1 <= k < |es| ensures !es[k].Is(txid, index) {
        KeyDecidesOutpoint(es[0], es[k]);
      }
    } else {
      forall i, j | 0 <= i < j < |es[1..]| ensures es[1..][i].OutpointKey() != es[1..][j].OutpointKey() {
        assert es[1..][i] == es[i + 1] && es[1..][j] == es[j + 1];
      }
      RespondFirstExact(es[1..], txid, index, error, daa);
    }
  }

  lemma RespondEvolves(e: Entry, error: Option<string>, daa: nat)
    requires RetriesBounded(e) && e.orphanRetries < MAX_ORPHAN_RETRIES
    ensures Evolves(e, Respond(e, error, daa)) && RetriesBounded(Respond(e, error, daa))
  {
  }

  // ---------------------------------------------------------------------------------------------
  // One event

  /** The entries when a block looks for a claim. */
  function Tracked(s: State, script: string, b: Block): State
    requires b.daa.Some? && UsableCoinbase(b).Some?
  {
    var before := BeforeCoinbase(s, b, b.daa.value);
    var tx := UsableCoinbase(b).value;
    before.(entries := TrackOutputs(before.entries, script, tx.txid.value, BlockHash(b), b.daa.value, tx.outputs,
        |tx.outputs|))
  }

  lemma BeforeCoinbaseGrows(s: State, b: Block)
    requires Distinct(s.entries) && b.daa.Some?
    ensures var t := BeforeCoinbase(s, b, b.daa.value);
      && t.pendingTxid == s.pendingTxid && t.pendingIndex == s.pendingIndex
      && |t.entries| == |Base(s, BlockSeen(b))| && Grown(Base(s, BlockSeen(b)), t.entries) && Distinct(t.entries)
      && forall i | 0 <= i < |t.entries| :: t.entries[i].orphanRetries == Base(s, BlockSeen(b))[i].orphanRetries
  {
    LiveDistinct(s.entries);
    if b.verbose.Some? {
      SlashRedsGrows(Base(s, BlockSeen(b)), b.verbose.value.reds);
    }
  }

  /** The block's red set holds the hash of this coinbase entry. */
  predicate Reddens(ev: Event, e: Entry) {
    && ev.BlockSeen? && ev.block.daa.Some? && ev.block.verbose.Some?
    && !e.isInference && e.blockHash != "" && e.blockHash in ev.block.verbose.value.reds
  }

  /** A block slashes exactly the surviving unsettled entries it reddens, and appends coinbase entries of its own
      score. */
  lemma HandleBlockEntries(s: State, script: string, b: Block)
    requires b.daa.Some?
    ensures var base, t := Base(s, BlockSeen(b)), HandleBlock(s, script, b).0.entries;
      && |base| <= |t|
      && (forall i | 0 <= i < |base| ::
            t[i] == if Reddens(BlockSeen(b), base[i]) && !base[i].Settled() then base[i].(slashed := true) else base[i])
      && (forall i | |base| <= i < |t| :: New(t[i]) && !t[i].isInference && t[i].confirmDaa == b.daa.value)
  {
    var base, before := Base(s, BlockSeen(b)), BeforeCoinbase(s, b, b.daa.value);
    assert |before.entries| == |base|;
    if UsableCoinbase(b).Some? {
      var tx := UsableCoinbase(b).value;
      TrackOutputsGrows(before.entries, script, tx.txid.value, BlockHash(b), b.daa.value, tx.outputs, |tx.outputs|);
      var r := Tracked(s, script, b).entries;
      forall i | 0 <= i < |before.entries| ensures r[i] == before.entries[i] {
        assert r[i] == r[..|before.entries|][i];
      }
    }
  }

  lemma HandleBlockGrows(s: State, script: string, b: Block)
    requires Distinct(s.entries) && b.daa.Some?
    ensures var t := HandleBlock(s, script, b).0;
      && Grown(Base(s, BlockSeen(b)), t.entries) && Distinct(t.entries)
      && forall i | 0 <= i < |Base(s, BlockSeen(b))| ::
           t.entries[i].orphanRetries == Base(s, BlockSeen(b))[i].orphanRetries
  {
    BeforeCoinbaseGrows(s, b);
    var before := BeforeCoinbase(s, b, b.daa.value);
    if UsableCoinbase(b).Some? {
      var tx := UsableCoinbase(b).value;
      TrackOutputsGrows(before.entries, script, tx.txid.value, BlockHash(b), b.daa.value, tx.outputs, |tx.outputs|);
      var r := Tracked(s, script, b).entries;
      forall i | 0 <= i < |before.entries| ensures r[i] == before.entries[i] {
        assert r[i] == r[..|before.entries|][i];
      }
    }
  }

  /** An event keeps every surviving entry in place, forgets none that is unsettled, and appends new ones. */
  lemma StepGrows(s: State, script: string, ev: Event)
    requires Inv(s)
    ensures Grown(Base(s, ev), Step(s, script, ev).0.entries) && Distinct(Step(s, script, ev).0.entries)
  {
    match ev
    case BlockSeen(b) =>
      if b.daa.Some? {
        HandleBlockGrows(s, script, b);
      }
    case Response(error) =>
      if s.pendingTxid.Some? {
        var es, r := s.entries, OnSubmitResponse(s, error).entries;
        RespondFirstExact(es, s.pendingTxid.value, s.pendingIndex.value, error, s.lastDaa);
        forall k | 0 <= k < |es| ensures Evolves(es[k], r[k]) {
          assert EntryOk(s, es[k]);
          if es[k].Is(s.pendingTxid.value, s.pendingIndex.value) {
            RespondEvolves(es[k], error, s.lastDaa);
          }
        }
      }
    case Inference(txid, daa, amount) =>
      forall e | e in s.entries ensures e.OutpointKey() in Keys(s.entries) {
        KeysOf(s.entries, e);
      }
  }

  lemma PickIsEligible(es: seq<Entry>, daa: nat)
    ensures Pick(es, daa).Some? ==> Pick(es, daa).value in es && Eligible(Pick(es, daa).value, daa)
  {
  }

  lemma BlockKeepsInv(s: State, script: string, b: Block)
    requires Inv(s)
    ensures Inv(HandleBlock(s, script, b).0)
  {
    if b.daa.Some? {
      var base, t := Base(s, BlockSeen(b)), HandleBlock(s, script, b).0;
      HandleBlockGrows(s, script, b);
      LiveMembers(s.entries);
      if UsableCoinbase(b).Some? {
        PickIsEligible(Tracked(s, script, b).entries, b.daa.value);
      }
      forall i | 0 <= i < |t.entries| ensures EntryOk(t, t.entries[i]) {
        BlockKeepsEntry(s, script, b, i);
      }
    }
  }

  lemma BlockKeepsEntry(s: State, script: string, b: Block, i: nat)
    requires Inv(s) && b.daa.Some? && i < |HandleBlock(s, script, b).0.entries|
    ensures EntryOk(HandleBlock(s, script, b).0, HandleBlock(s, script, b).0.entries[i])
  {
    var base, t := Base(s, BlockSeen(b)), HandleBlock(s, script, b).0;
    HandleBlockGrows(s, script, b);
    LiveMembers(s.entries);
    var e := t.entries[i];
    if i < |base| {
      assert base[i] in s.entries && EntryOk(s, base[i]);
    }
    assert RetriesBounded(e);
    if IsPending(t, e) && !IsPending(s, e) && UsableCoinbase(b).Some? {
      var p := Pick(Tracked(s, script, b).entries, b.daa.value);
      PickIsEligible(Tracked(s, script, b).entries, b.daa.value);
      if p.Some? && p.value in t.entries {
        SameOutpointSameEntry(t.entries, p.value, e);
      }
    }
  }

  lemma SameOutpointSameEntry(es: seq<Entry>, a: Entry, b: Entry)
    requires Distinct(es) && a in es && b in es
    ensures b.Is(a.txid, a.outputIndex) ==> a == b
  {
    KeyDecidesOutpoint(a, b);
    var i :| 0 <= i < |es| && es[i] == a;
    var j :| 0 <= j < |es| && es[j] == b;
    assert i != j ==> es[i].OutpointKey() != es[j].OutpointKey();
  }

  /** Keys stay distinct, the pending outpoint stays whole, and no entry passes its tenth orphan retry. */
  lemma StepKeepsInv(s: State, script: string, ev: Event)
    requires Inv(s)
    ensures Inv(Step(s, script, ev).0)
  {
    StepGrows(s, script, ev);
    match ev
    case BlockSeen(b) =>
      BlockKeepsInv(s, script, b);
    case Response(error) =>
      if s.pendingTxid.Some? {
        var es, t := s.entries, OnSubmitResponse(s, error);
        RespondFirstExact(es, s.pendingTxid.value, s.pendingIndex.value, error, s.lastDaa);
        forall k | 0 <= k < |es| ensures EntryOk(t, t.entries[k]) {
          assert EntryOk(s, es[k]);
          if es[k].Is(s.pendingTxid.value, s.pendingIndex.value) {
            RespondEvolves(es[k], error, s.lastDaa);
          }
        }
      }
    case Inference(txid, daa, amount) =>
  }

  // ---------------------------------------------------------------------------------------------
  // Whole runs

  lemma {:induction false} RunKeepsInv(s: State, script: string, evs: seq<Event>, n: nat)
    requires Inv(s) && n <= |evs|
    ensures Inv(StateAt(s, script, evs, n))
  {
    hide Step, Inv;
    if n > 0 {
      RunKeepsInv(s, script, evs, n - 1);
      StepKeepsInv(StateAt(s, script, evs, n - 1), script, evs[n - 1]);
    }
  }

  /** A watcher starts from the saved entries with nothing pending: it is in the invariant if and only if the saved
      outpoints are distinct and the retry counts are bounded. */
  lemma LoadedStateInvIff(loaded: seq<Entry>)
    ensures Inv(State(loaded, None, None, 0, 0)) <==> Distinct(loaded) && forall e | e in loaded :: RetriesBounded(e)
  {
    var s := State(loaded, None, None, 0, 0);
    forall e | e in loaded ensures EntryOk(s, e) <==> RetriesBounded(e) {
    }
  }

  /** So a restart from the entries of any state of a run, at first of none, is in it again. */
  lemma RestartKeepsInv(s: State, script: string, evs: seq<Event>, n: nat)
    requires Inv(s) && n <= |evs|
    ensures Inv(State(StateAt(s, script, evs, n).entries, None, None, 0, 0)) && Inv(State([], None, None, 0, 0))
  {
    RunKeepsInv(s, script, evs, n);
    var t := StateAt(s, script, evs, n);
    forall e | e in t.entries ensures RetriesBounded(e) {
      assert EntryOk(t, e);
    }
    LoadedStateInvIff(t.entries);
    LoadedStateInvIff([]);
  }

  predicate NoResponse(evs: seq<Event>, from: nat, to: nat)
    requires to <= |evs|
  {
    forall k | from <= k < to :: !evs[k].Response?
  }

  lemma StepKeepsPending(s: State, script: string, ev: Event)
    requires s.pendingTxid.Some? && !ev.Response?
    ensures Step(s, script, ev).0.pendingTxid == s.pendingTxid && Step(s, script, ev).0.pendingIndex == s.pendingIndex
  {
  }

  lemma ClaimBecomesPending(s: State, script: string, ev: Event)
    requires Step(s, script, ev).1.Some?
    ensures Step(s, script, ev).0.pendingTxid == Some(Step(s, script, ev).1.value.txid)
    ensures Step(s, script, ev).0.pendingIndex == Some(Step(s, script, ev).1.value.outputIndex)
  {
  }

  /** A claim stays the pending one until a response arrives. */
  lemma {:induction false} PendingUntilResponse(s: State, script: string, evs: seq<Event>, i: nat, m: nat)
    requires i < m <= |evs| && ClaimAt(s, script, evs, i).Some? && NoResponse(evs, i + 1, m)
    ensures var t := StateAt(s, script, evs, m);
      && t.pendingTxid == Some(ClaimAt(s, script, evs, i).value.txid)
      && t.pendingIndex == Some(ClaimAt(s, script, evs, i).value.outputIndex)
  {
    hide Step;
    var t := StateAt(s, script, evs, m - 1);
    if m > i + 1 {
      PendingUntilResponse(s, script, evs, i, m - 1);
      assert !evs[m - 1].Response?;
      StepKeepsPending(t, script, evs[m - 1]);
    } else {
      ClaimBecomesPending(t, script, evs[i]);
    }
  }

  lemma ClaimNeedsNonePending(s: State, script: string, evs: seq<Event>, n: nat)
    requires n < |evs| && ClaimAt(s, script, evs, n).Some?
    ensures StateAt(s, script, evs, n).pendingTxid.None?
  {
  }

  /** At most one claim is in flight: between two claims there is a response. */
  lemma OneClaimInFlight(s: State, script: string, evs: seq<Event>, i: nat, j: nat)
    requires i < j < |evs| && ClaimAt(s, script, evs, i).Some? && ClaimAt(s, script, evs, j).Some?
    ensures exists k | i < k < j :: evs[k].Response?
  {
    if NoResponse(evs, i + 1, j) {
      PendingUntilResponse(s, script, evs, i, j);
      ClaimNeedsNonePending(s, script, evs, j);
      assert false;
    }
  }

  /** The first response after a claim updates the claimed outpoint, wherever compaction moved it, and nothing else. */
  lemma ResponseIsForTheClaim(s: State, script: string, evs: seq<Event>, i: nat, m: nat)
    requires Inv(s) && i < m < |evs| && evs[m].Response?
    requires ClaimAt(s, script, evs, i).Some? && NoResponse(evs, i + 1, m)
    ensures var c := ClaimAt(s, script, evs, i).value;
      var t, u := StateAt(s, script, evs, m), StateAt(s, script, evs, m + 1);
      && u.pendingTxid.None? && |u.entries| == |t.entries|
      && forall k | 0 <= k < |t.entries| ::
           u.entries[k] == if t.entries[k].Is(c.txid, c.outputIndex) then Respond(t.entries[k], evs[m].error, t.lastDaa)
                           else t.entries[k]
  {
    var t := StateAt(s, script, evs, m);
    PendingUntilResponse(s, script, evs, i, m);
    RunKeepsInv(s, script, evs, m);
    RespondFirstExact(t.entries, t.pendingTxid.value, t.pendingIndex.value, evs[m].error, t.lastDaa);
  }

  // ---------------------------------------------------------------------------------------------
  // Which claim

  /** Entry `i` is the first of the preferred kind that may be claimed: inference before coinbase. */
  ghost predicate ChosenAt(es: seq<Entry>, daa: nat, i: nat) {
    && i < |es| && Eligible(es[i], daa)
    && (forall j | 0 <= j < i && es[j].isInference == es[i].isInference :: !Eligible(es[j], daa))
    && (!es[i].isInference ==> forall j | 0 <= j < |es| && es[j].isInference :: !Eligible(es[j], daa))
  }

  lemma {:induction false} FirstEligibleIndex(es: seq<Entry>, daa: nat, inference: bool) returns (i: nat)
    requires FirstEligible(es, daa, inference).Some?
    ensures i < |es| && es[i] == FirstEligible(es, daa, inference).value
    ensures forall j | 0 <= j < i && es[j].isInference == inference :: !Eligible(es[j], daa)
  {
    if es[0].isInference == inference && Eligible(es[0], daa) {
      i := 0;
    } else {
      i := FirstEligibleIndex(es[1..], daa, inference);
      i := i + 1;
    }
  }

  lemma PickIsChosen(es: seq<Entry>, daa: nat)
    ensures Pick(es, daa).Some? ==> exists i: nat :: ChosenAt(es, daa, i) && es[i] == Pick(es, daa).value
    ensures forall i: nat | ChosenAt(es, daa, i) :: Pick(es, daa) == Some(es[i])
  {
    var p := Pick(es, daa);
    if p.Some? {
      var k := FirstEligibleIndex(es, daa, p.value.isInference);
      assert ChosenAt(es, daa, k);
      forall i: nat | ChosenAt(es, daa, i) ensures i == k {
      }
    }
  }

  /** A claim is built exactly when none is in flight and the chosen entry has a usable id and is worth more than the
      fee. */
  lemma ClaimIff(s: State, daa: nat)
    ensures FindClaim(s, daa).1.Some? <==>
            s.pendingTxid.None? && exists i: nat :: ChosenAt(s.entries, daa, i) && BuildClaim(s.entries[i]).Some?
  {
    PickIsChosen(s.entries, daa);
  }

  ghost predicate Pays(e: Entry, c: Claim) {
    && e.Is(c.txid, c.outputIndex)
    && c.sequence == CHALLENGE_WINDOW_BLOCKS
    && c.amountOut > 0 && c.amountOut + CLAIM_FEE_SOMPI == e.amount
  }

  /** Every claim of a run spends the chosen entry: unsettled, mature, past its cooldown, in full but for the fee. */
  lemma ClaimIsRipe(s: State, script: string, evs: seq<Event>, n: nat)
    requires n < |evs| && ClaimAt(s, script, evs, n).Some?
    ensures evs[n].BlockSeen? && evs[n].block.daa.Some?
    ensures var c, t, daa := ClaimAt(s, script, evs, n).value, StateAt(s, script, evs, n + 1), evs[n].block.daa.value;
      && t.pendingTxid == Some(c.txid) && t.pendingIndex == Some(c.outputIndex)
      && exists i: nat :: ChosenAt(t.entries, daa, i) && Pays(t.entries[i], c)
  {
    var before := StateAt(s, script, evs, n);
    var b := evs[n].block;
    var tracked := Tracked(before, script, b);
    PickIsChosen(tracked.entries, b.daa.value);
  }

  /** Unless the sum wraps at 64 bits, an eligible entry is past the challenge window and its margin. */
  lemma EligibleIsMature(e: Entry, daa: nat)
    requires e.confirmDaa + CHALLENGE_WINDOW_BLOCKS + 10 < TWO64
    ensures Eligible(e, daa) ==> daa >= e.confirmDaa + 36_010
  {
  }

  // ---------------------------------------------------------------------------------------------
  // Nothing is lost, until it is settled

  lemma {:induction false} EntryStaysTracked(s: State, script: string, evs: seq<Event>, n: nat, m: nat, e: Entry)
    requires Inv(s) && n <= m <= |evs| && e in StateAt(s, script, evs, n).entries
    requires forall k, f | n <= k < m && f in StateAt(s, script, evs, k).entries :: Evolves(e, f) ==> !f.Settled()
    ensures exists f | f in StateAt(s, script, evs, m).entries :: Evolves(e, f)
  {
    if n == m {
      assert Evolves(e, e);
    } else {
      EntryStaysTracked(s, script, evs, n, m - 1, e);
      var t, u := StateAt(s, script, evs, m - 1), StateAt(s, script, evs, m);
      var f :| f in t.entries && Evolves(e, f);
      assert !f.Settled();
      RunKeepsInv(s, script, evs, m - 1);
      StepGrows(t, script, evs[m - 1]);
      LiveMembers(t.entries);
      var base := Base(t, evs[m - 1]);
      assert f in base;
      var i :| 0 <= i < |base| && base[i] == f;
      assert Evolves(f, u.entries[i]);
      assert u.entries[i] in u.entries;
    }
  }
}
