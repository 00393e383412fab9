/** What can become of a settled or claimed outpoint over a run: when it is tracked afresh after compaction,
    and when an entry ends both slashed and claimed. */
module EscrowFate {
  import opened Bytes
  import opened EscrowState
  import opened EscrowRuns

  // ---------------------------------------------------------------------------------------------
  // Tracked again

  /** Some unsettled entry has the key. */
  predicate TrackedOpen(es: seq<Entry>, key: string) {
    exists f | f in es :: f.OutpointKey() == key && !f.Settled()
  }

  /** Some settled entry has the key. */
  predicate TrackedSettled(es: seq<Entry>, key: string) {
    exists f | f in es :: f.OutpointKey() == key && f.Settled()
  }

  /** The event pays the outpoint to the watcher: a coinbase output with its script, or an inference payment. */
  predicate PaysKey(script: string, ev: Event, key: string) {
    match ev
    case BlockSeen(b) =>
      && b.daa.Some? && UsableCoinbase(b).Some?
      && var tx := UsableCoinbase(b).value;
         exists i | 0 <= i < |tx.outputs| :: PaysAt(script, tx.txid.value, tx.outputs, key, i)
    case Response(_) => false
    case Inference(txid, _, amount) => amount > 0 && Key(txid, 1) == key
  }

  lemma KeyOfMember(es: seq<Entry>, key: string)
    ensures key in Keys(es) <==> exists i | 0 <= i < |es| :: es[i].OutpointKey() == key
  {
    if key in Keys(es) {
      var e :| e in es && e.OutpointKey() == key;
      var i :| 0 <= i < |es| && es[i] == e;
    }
    if i: nat :| i < |es| && es[i].OutpointKey() == key {
      assert es[i] in es;
    }
  }

  lemma SameKeys(a: seq<Entry>, b: seq<Entry>)
    requires |a| == |b| && Grown(a, b)
    ensures Keys(a) == Keys(b)
  {
    forall i | 0 <= i < |a| ensures a[i].OutpointKey() == b[i].OutpointKey() {
      assert Evolves(a[i], b[i]);
    }
    forall key: string ensures key in Keys(a) <==> key in Keys(b) {
      KeyOfMember(a, key);
      KeyOfMember(b, key);
    }
  }

  /** After an event the watcher tracks the surviving outpoints and those the event pays. */
  lemma StepKeys(s: State, script: string, ev: Event, key: string)
    requires Inv(s)
    ensures key in Keys(Step(s, script, ev).0.entries) <==> key in Keys(Base(s, ev)) || PaysKey(script, ev, key)
  {
    StepGrows(s, script, ev);
    match ev
    case BlockSeen(b) =>
      if b.daa.Some? {
        BeforeCoinbaseGrows(s, b);
        var before := BeforeCoinbase(s, b, b.daa.value);
        SameKeys(Base(s, ev), before.entries);
        if UsableCoinbase(b).Some? {
          var tx := UsableCoinbase(b).value;
          TrackedKeys(before.entries, script, tx.txid.value, BlockHash(b), b.daa.value, tx.outputs, |tx.outputs|, key);
        }
      }
    case Response(error) =>
      if s.pendingTxid.Some? {
        RespondFirstExact(s.entries, s.pendingTxid.value, s.pendingIndex.value, error, s.lastDaa);
      }
      SameKeys(s.entries, Step(s, script, ev).0.entries);
    case Inference(txid, daa, amount) =>
      InferenceKeys(s, txid, daa, amount, key);
  }

  lemma InferenceKeys(s: State, txid: string, daa: nat, amount: nat, key: string)
    ensures key in Keys(TrackInference(s, txid, daa, amount).entries) <==>
            key in Keys(s.entries) || (amount > 0 && Key(txid, 1) == key)
  {
    var e := InferenceEntry(txid, daa, amount);
    assert e.OutpointKey() == Key(txid, 1);
    assert Keys(s.entries + [e]) == Keys(s.entries) + {e.OutpointKey()};
  }

  /** An outpoint that no survivor has is tracked afresh exactly when the event pays it. */
  lemma NewKeyIsOpen(s: State, script: string, ev: Event, key: string)
    requires Inv(s) && key !in Keys(Base(s, ev))
    ensures var t := Step(s, script, ev).0.entries;
      && (PaysKey(script, ev, key) <==> TrackedOpen(t, key))
      && (PaysKey(script, ev, key) <==> key in Keys(t))
  {
    var base, t := Base(s, ev), Step(s, script, ev).0.entries;
    StepGrows(s, script, ev);
    StepKeys(s, script, ev, key);
    KeyOfMember(base, key);
    KeyOfMember(t, key);
    forall i | 0 <= i < |base| ensures t[i].OutpointKey() != key {
      assert Evolves(base[i], t[i]);
    }
    if key in Keys(t) {
      var i :| 0 <= i < |t| && t[i].OutpointKey() == key;
      assert New(t[i]) && t[i] in t;
    }
  }

  lemma SettledIsNotOpen(es: seq<Entry>, key: string)
    requires Distinct(es) && TrackedSettled(es, key)
    ensures !TrackedOpen(es, key)
  {
    var e :| e in es && e.OutpointKey() == key && e.Settled();
    forall f | f in es && f.OutpointKey() == key ensures f == e {
      KeyDecidesOutpoint(e, f);
      SameOutpointSameEntry(es, e, f);
    }
  }

  lemma ForgottenKey(s: State, key: string)
    requires Inv(s) && TrackedSettled(s.entries, key)
    ensures key !in Keys(Live(s.entries))
  {
    LiveMembers(s.entries);
    SettledIsNotOpen(s.entries, key);
  }

  /** One event, of any kind, on a settled outpoint. */
  lemma SettledStep(s: State, script: string, ev: Event, key: string)
    requires Inv(s) && TrackedSettled(s.entries, key)
    ensures var t := Step(s, script, ev).0.entries;
      && (!CompactionDue(s, ev) ==> TrackedSettled(t, key) && !TrackedOpen(t, key))
      && (CompactionDue(s, ev) ==>
            && (PaysKey(script, ev, key) <==> TrackedOpen(t, key))
            && (PaysKey(script, ev, key) <==> key in Keys(t)))
  {
    var t := Step(s, script, ev).0.entries;
    if CompactionDue(s, ev) {
      ForgottenKey(s, key);
      NewKeyIsOpen(s, script, ev, key);
    } else {
      StepGrows(s, script, ev);
      var e :| e in s.entries && e.OutpointKey() == key && e.Settled();
      var i :| 0 <= i < |s.entries| && s.entries[i] == e;
      assert Evolves(e, t[i]) && t[i] in t;
      SettledIsNotOpen(t, key);
    }
  }

  /** One event on an outpoint that is not tracked. */
  lemma UntrackedStep(s: State, script: string, ev: Event, key: string)
    requires Inv(s) && key !in Keys(s.entries)
    ensures var t := Step(s, script, ev).0.entries;
      && (PaysKey(script, ev, key) <==> TrackedOpen(t, key))
      && (PaysKey(script, ev, key) <==> key in Keys(t))
  {
    LiveMembers(s.entries);
    NewKeyIsOpen(s, script, ev, key);
  }

  /** Between `n` and `m` some block compacted. */
  ghost predicate Compacted(s: State, script: string, evs: seq<Event>, n: nat, m: nat)
    requires m <= |evs|
  {
    exists i | n <= i < m :: CompactionDue(StateAt(s, script, evs, i), evs[i])
  }

  /** Between `n` and `m` some block compacted, and that event or a later one paid the outpoint. */
  ghost predicate PaidOnceForgotten(s: State, script: string, evs: seq<Event>, n: nat, m: nat, key: string)
    requires m <= |evs|
  {
    exists i, j | n <= i <= j < m ::
      CompactionDue(StateAt(s, script, evs, i), evs[i]) && PaysKey(script, evs[j], key)
  }

  /** After some event between `n` and `m` the outpoint is tracked as unsettled. */
  ghost predicate Reopened(s: State, script: string, evs: seq<Event>, n: nat, m: nat, key: string)
    requires m <= |evs|
  {
    exists j | n < j <= m :: TrackedOpen(StateAt(s, script, evs, j).entries, key)
  }

  lemma OneEventMore(s: State, script: string, evs: seq<Event>, n: nat, m: nat, key: string)
    requires n < m <= |evs|
    ensures var due := CompactionDue(StateAt(s, script, evs, m - 1), evs[m - 1]);
      && (Compacted(s, script, evs, n, m) <==> Compacted(s, script, evs, n, m - 1) || due)
      && (PaidOnceForgotten(s, script, evs, n, m, key) <==>
            || PaidOnceForgotten(s, script, evs, n, m - 1, key)
            || ((Compacted(s, script, evs, n, m - 1) || due) && PaysKey(script, evs[m - 1], key)))
      && (Reopened(s, script, evs, n, m, key) <==>
            Reopened(s, script, evs, n, m - 1, key) || TrackedOpen(StateAt(s, script, evs, m).entries, key))
  {
    hide CompactionDue, PaysKey, TrackedOpen, StateAt;
  }

  /** Where a once settled outpoint stands: still settled, forgotten, or paid again since it was forgotten. */
  predicate Standing(es: seq<Entry>, key: string, compacted: bool, paid: bool, open: bool) {
    || (!compacted && TrackedSettled(es, key) && !paid && !open)
    || (compacted && key !in Keys(es) && !paid && !open)
    || (paid && open)
  }

  lemma StandingStep(s: State, script: string, ev: Event, key: string, compacted: bool, paid: bool, open: bool)
    requires Inv(s) && Standing(s.entries, key, compacted, paid, open)
    ensures var t, gone := Step(s, script, ev).0.entries, compacted || CompactionDue(s, ev);
      Standing(t, key, gone, paid || (gone && PaysKey(script, ev, key)), open || TrackedOpen(t, key))
  {
    hide Step, Inv, CompactionDue, PaysKey, TrackedOpen, TrackedSettled, Keys;
    if !(paid && open) {
      if compacted {
        UntrackedStep(s, script, ev, key);
      } else {
        SettledStep(s, script, ev, key);
      }
    }
  }

  lemma StartsSettled(s: State, script: string, evs: seq<Event>, n: nat, key: string)
    requires n <= |evs| && TrackedSettled(StateAt(s, script, evs, n).entries, key)
    ensures Standing(StateAt(s, script, evs, n).entries, key, Compacted(s, script, evs, n, n),
                     PaidOnceForgotten(s, script, evs, n, n, key), Reopened(s, script, evs, n, n, key))
  {
    hide Step, CompactionDue, PaysKey, TrackedSettled, StateAt;
  }

  lemma {:induction false} SettledRun(s: State, script: string, evs: seq<Event>, n: nat, m: nat, key: string)
    requires Inv(s) && n <= m <= |evs| && TrackedSettled(StateAt(s, script, evs, n).entries, key)
    ensures Standing(StateAt(s, script, evs, m).entries, key, Compacted(s, script, evs, n, m),
                     PaidOnceForgotten(s, script, evs, n, m, key), Reopened(s, script, evs, n, m, key))
  {
    hide Step, Inv, CompactionDue, PaysKey, Standing, TrackedSettled, Compacted, PaidOnceForgotten, Reopened;
    if m == n {
      StartsSettled(s, script, evs, n, key);
    } else {
      SettledRun(s, script, evs, n, m - 1, key);
      RunKeepsInv(s, script, evs, m - 1);
      OneEventMore(s, script, evs, n, m, key);
      StandingStep(StateAt(s, script, evs, m - 1), script, evs[m - 1], key, Compacted(s, script, evs, n, m - 1),
                   PaidOnceForgotten(s, script, evs, n, m - 1, key), Reopened(s, script, evs, n, m - 1, key));
    }
  }

  /** A settled outpoint is tracked as unsettled again within a run if and only if, since it was settled, some block
      compacted it away and that event or a later one, block or inference payment, pays the outpoint. */
  lemma SettledIsTrackedAgainIff(s: State, script: string, evs: seq<Event>, n: nat, m: nat, e: Entry)
    requires Inv(s) && n <= m <= |evs| && e in StateAt(s, script, evs, n).entries && e.Settled()
    ensures Reopened(s, script, evs, n, m, e.OutpointKey()) <==>
            PaidOnceForgotten(s, script, evs, n, m, e.OutpointKey())
  {
    SettledRun(s, script, evs, n, m, e.OutpointKey());
  }

  /** A block that pays nobody here. */
  function QuietBlock(): Event {
    BlockSeen(Block(Some(0), None, []))
  }

  /** 2,000 blocks, then an inference payment. */
  function QuietThenPaid(txid: string): seq<Event> {
    seq(COMPACT_EVERY_BLOCKS, _ => QuietBlock()) + [Inference(txid, 0, 1)]
  }

  lemma {:induction false} QuietRun(s: State, script: string, txid: string, n: nat)
    requires n < COMPACT_EVERY_BLOCKS && s.blocksSinceCompact == 0
    ensures var t := StateAt(s, script, QuietThenPaid(txid), n); t.entries == s.entries && t.blocksSinceCompact == n
  {
    if n > 0 {
      QuietRun(s, script, txid, n - 1);
      assert QuietThenPaid(txid)[n - 1] == QuietBlock();
    }
  }

  /** It does happen: a settled inference outpoint, loaded at start, is tracked as unsettled again with no coinbase
      at all. */
  lemma SettledIsReopened(e: Entry, script: string)
    requires e.Settled() && RetriesBounded(e) && e.outputIndex == 1
    ensures Reopened(State([e], None, None, 0, 0), script, QuietThenPaid(e.txid), 0, 2_001, e.OutpointKey())
  {
    hide StateAt, Inv, Reopened;
    var s, evs := State([e], None, None, 0, 0), QuietThenPaid(e.txid);
    LoadedStateInvIff([e]);
    QuietRun(s, script, e.txid, 1_999);
    assert evs[1_999] == QuietBlock() && evs[2_000] == Inference(e.txid, 0, 1);
    assert CompactionDue(StateAt(s, script, evs, 1_999), evs[1_999]) && PaysKey(script, evs[2_000], e.OutpointKey());
    StartOf(s, script, evs);
    SettledIsTrackedAgainIff(s, script, evs, 0, 2_001, e);
  }

  lemma StartOf(s: State, script: string, evs: seq<Event>)
    ensures StateAt(s, script, evs, 0) == s
  {
  }

  // ---------------------------------------------------------------------------------------------
  // Slashed and claimed

  /** The outpoint's entry is slashed. */
  predicate HasSlashed(es: seq<Entry>, txid: string, index: nat) {
    exists f | f in es :: f.Is(txid, index) && f.slashed
  }

  /** The event reddens the outpoint's entry while it is unsettled. */
  predicate HitByRed(es: seq<Entry>, ev: Event, txid: string, index: nat) {
    exists f | f in es :: f.Is(txid, index) && !f.Settled() && Reddens(ev, f)
  }

  predicate HasBothFlags(es: seq<Entry>, txid: string, index: nat) {
    exists f | f in es :: f.Is(txid, index) && f.claimed && f.slashed
  }

  /** No block after `k` and before `to` compacts. */
  ghost predicate KeptSince(s: State, script: string, evs: seq<Event>, k: nat, to: nat)
    requires to <= |evs|
  {
    forall j | k < j < to :: !CompactionDue(StateAt(s, script, evs, j), evs[j])
  }

  lemma SlashedBlockStep(s: State, script: string, b: Block, txid: string, index: nat)
    requires b.daa.Some?
    ensures HasSlashed(HandleBlock(s, script, b).0.entries, txid, index) <==>
            || HasSlashed(Base(s, BlockSeen(b)), txid, index)
            || HitByRed(Base(s, BlockSeen(b)), BlockSeen(b), txid, index)
  {
    hide HandleBlock, Base, Reddens;
    var base, t := Base(s, BlockSeen(b)), HandleBlock(s, script, b).0.entries;
    HandleBlockEntries(s, script, b);
    if HasSlashed(t, txid, index) {
      var i :| 0 <= i < |t| && t[i].Is(txid, index) && t[i].slashed;
      assert i < |base| && base[i] in base;
    }
    if f :| f in base && f.Is(txid, index) && (f.slashed || (!f.Settled() && Reddens(BlockSeen(b), f))) {
      var i :| 0 <= i < |base| && base[i] == f;
      assert t[i] in t;
    }
  }

  /** An event other than a response: an entry is slashed after it if it was and stays, or if the event reddens it. */
  lemma SlashedStep(s: State, script: string, ev: Event, txid: string, index: nat)
    requires Inv(s) && !ev.Response?
    ensures HasSlashed(Step(s, script, ev).0.entries, txid, index) <==>
            (HasSlashed(s.entries, txid, index) && !CompactionDue(s, ev)) || HitByRed(s.entries, ev, txid, index)
  {
    LiveMembers(s.entries);
    if ev.BlockSeen? && ev.block.daa.Some? {
      SlashedBlockStep(s, script, ev.block, txid, index);
    } else if HasSlashed(s.entries, txid, index) {
      var f :| f in s.entries && f.Is(txid, index) && f.slashed;
      assert f in Step(s, script, ev).0.entries;
    }
  }

  /** Some block between `i` and `j` reddens the outpoint's entry, and no later one before `j` compacts. */
  ghost predicate ReddenedAndKept(s: State, script: string, evs: seq<Event>, i: nat, j: nat, txid: string, index: nat)
    requires j <= |evs|
  {
    exists k | i < k < j ::
      HitByRed(StateAt(s, script, evs, k).entries, evs[k], txid, index) && KeptSince(s, script, evs, k, j)
  }

  lemma ReddenedOneMore(s: State, script: string, evs: seq<Event>, i: nat, j: nat, txid: string, index: nat)
    requires i < j < |evs|
    ensures ReddenedAndKept(s, script, evs, i, j + 1, txid, index) <==>
            || (ReddenedAndKept(s, script, evs, i, j, txid, index)
                && !CompactionDue(StateAt(s, script, evs, j), evs[j]))
            || HitByRed(StateAt(s, script, evs, j).entries, evs[j], txid, index)
  {
    hide StateAt, CompactionDue, HitByRed;
    forall k | i < k < j
      ensures KeptSince(s, script, evs, k, j + 1) <==>
              KeptSince(s, script, evs, k, j) && !CompactionDue(StateAt(s, script, evs, j), evs[j])
    {
    }
    assert KeptSince(s, script, evs, j, j + 1);
  }

  /** While a claim is in flight, its outpoint's entry is slashed exactly by the red blocks since. */
  lemma {:induction false} SlashedInFlight(s: State, script: string, evs: seq<Event>, i: nat, j: nat)
    requires Inv(s) && i < j <= |evs| && ClaimAt(s, script, evs, i).Some? && NoResponse(evs, i + 1, j)
    ensures var c := ClaimAt(s, script, evs, i).value;
      HasSlashed(StateAt(s, script, evs, j).entries, c.txid, c.outputIndex) <==>
      ReddenedAndKept(s, script, evs, i, j, c.txid, c.outputIndex)
  {
    hide Step, Inv, CompactionDue, HitByRed, HasSlashed;
    var c := ClaimAt(s, script, evs, i).value;
    if j == i + 1 {
      ClaimedIsUnsettled(s, script, evs, i);
    } else {
      SlashedInFlight(s, script, evs, i, j - 1);
      hide ReddenedAndKept;
      RunKeepsInv(s, script, evs, j - 1);
      assert !evs[j - 1].Response?;
      SlashedStep(StateAt(s, script, evs, j - 1), script, evs[j - 1], c.txid, c.outputIndex);
      ReddenedOneMore(s, script, evs, i, j - 1, c.txid, c.outputIndex);
    }
  }

  lemma ClaimedIsUnsettled(s: State, script: string, evs: seq<Event>, i: nat)
    requires Inv(s) && i < |evs| && ClaimAt(s, script, evs, i).Some?
    ensures var c := ClaimAt(s, script, evs, i).value;
      !HasSlashed(StateAt(s, script, evs, i + 1).entries, c.txid, c.outputIndex)
  {
    hide Inv;
    ClaimIsRipe(s, script, evs, i);
    RunKeepsInv(s, script, evs, i + 1);
    var c, t := ClaimAt(s, script, evs, i).value, StateAt(s, script, evs, i + 1).entries;
    var k: nat :| ChosenAt(t, evs[i].block.daa.value, k) && Pays(t[k], c);
    UnsettledOutpoint(StateAt(s, script, evs, i + 1), t[k]);
  }

  lemma UnsettledOutpoint(s: State, e: Entry)
    requires Inv(s) && e in s.entries && !e.slashed
    ensures !HasSlashed(s.entries, e.txid, e.outputIndex)
  {
    forall f | f in s.entries && f.Is(e.txid, e.outputIndex) ensures f == e {
      SameOutpointSameEntry(s.entries, e, f);
    }
  }

  /** The accepted claim marks the outpoint's entry. */
  lemma AcceptedClaim(s: State, txid: string, index: nat)
    requires Inv(s) && s.pendingTxid == Some(txid) && s.pendingIndex == Some(index)
    ensures HasBothFlags(OnSubmitResponse(s, None).entries, txid, index) <==> HasSlashed(s.entries, txid, index)
  {
    var es, t := s.entries, OnSubmitResponse(s, None).entries;
    RespondFirstExact(es, txid, index, None, s.lastDaa);
    if HasSlashed(es, txid, index) {
      var k :| 0 <= k < |es| && es[k].Is(txid, index) && es[k].slashed;
      assert t[k] in t;
    }
    if HasBothFlags(t, txid, index) {
      var k :| 0 <= k < |t| && t[k].Is(txid, index) && t[k].slashed;
      assert es[k] in es;
    }
  }

  /** A claim at event `i` is accepted at the first response `m`. Its outpoint's entry ends both slashed and claimed if
      and only if some block in between reddened it, and no block after that one compacted it away. */
  lemma BothFlagsIff(s: State, script: string, evs: seq<Event>, i: nat, m: nat)
    requires Inv(s) && i < m < |evs| && ClaimAt(s, script, evs, i).Some?
    requires evs[m] == Response(None) && NoResponse(evs, i + 1, m)
    ensures var c := ClaimAt(s, script, evs, i).value;
      HasBothFlags(StateAt(s, script, evs, m + 1).entries, c.txid, c.outputIndex) <==>
      ReddenedAndKept(s, script, evs, i, m, c.txid, c.outputIndex)
  {
    hide Inv, ReddenedAndKept, HasSlashed, HasBothFlags;
    var c := ClaimAt(s, script, evs, i).value;
    PendingUntilResponse(s, script, evs, i, m);
    SlashedInFlight(s, script, evs, i, m);
    RunKeepsInv(s, script, evs, m);
    AcceptedClaim(StateAt(s, script, evs, m), c.txid, c.outputIndex);
  }

  // The entry that was claimed, when nothing compacts in between.

  /** Without compaction and responses an entry stays, changed at most by being slashed. */
  lemma {:induction false} EntryInFlight(s: State, script: string, evs: seq<Event>, i: nat, j: nat, e: Entry)
    requires i < j <= |evs| && e in StateAt(s, script, evs, i + 1).entries
    requires NoResponse(evs, i + 1, j) && KeptSince(s, script, evs, i, j)
    ensures var es := StateAt(s, script, evs, j).entries; e in es || e.(slashed := true) in es
  {
    hide Step, CompactionDue, StateAt;
    if j > i + 1 {
      EntryInFlight(s, script, evs, i, j - 1, e);
      assert !evs[j - 1].Response?;
      NextState(s, script, evs, j);
      var t := StateAt(s, script, evs, j - 1);
      StepInFlight(t, script, evs[j - 1], if e in t.entries then e else e.(slashed := true));
    }
  }

  lemma StepInFlight(s: State, script: string, ev: Event, e: Entry)
    requires !ev.Response? && !CompactionDue(s, ev) && e in s.entries
    ensures var es := Step(s, script, ev).0.entries; e in es || e.(slashed := true) in es
  {
    var i :| 0 <= i < |s.entries| && s.entries[i] == e;
    if ev.BlockSeen? && ev.block.daa.Some? {
      HandleBlockEntries(s, script, ev.block);
    }
    var es := Step(s, script, ev).0.entries;
    assert es[i] in es;
  }

  /** The outpoint's entry at a later event is the claimed one, so it is hit exactly when that one is reddened. */
  lemma HitIsOfTheClaimed(s: State, script: string, evs: seq<Event>, i: nat, k: nat, e: Entry)
    requires Inv(s) && i < k < |evs| && e in StateAt(s, script, evs, i + 1).entries && !e.Settled()
    requires NoResponse(evs, i + 1, k) && KeptSince(s, script, evs, i, k)
    ensures var es := StateAt(s, script, evs, k).entries;
      HitByRed(es, evs[k], e.txid, e.outputIndex) <==>
      Reddens(evs[k], e) && !HasSlashed(es, e.txid, e.outputIndex)
  {
    hide Inv, StateAt;
    EntryInFlight(s, script, evs, i, k, e);
    RunKeepsInv(s, script, evs, k);
    OutpointDecides(StateAt(s, script, evs, k), evs[k], e);
  }

  lemma OutpointDecides(s: State, ev: Event, e: Entry)
    requires Inv(s) && !e.Settled() && (e in s.entries || e.(slashed := true) in s.entries)
    ensures HitByRed(s.entries, ev, e.txid, e.outputIndex) <==>
            Reddens(ev, e) && !HasSlashed(s.entries, e.txid, e.outputIndex)
  {
    var f := if e in s.entries then e else e.(slashed := true);
    forall g | g in s.entries && g.Is(e.txid, e.outputIndex) ensures g == f {
      SameOutpointSameEntry(s.entries, f, g);
    }
  }

  lemma {:induction false} SlashedIffReddened(s: State, script: string, evs: seq<Event>, i: nat, j: nat, e: Entry)
    requires Inv(s) && i < j <= |evs| && ClaimAt(s, script, evs, i).Some?
    requires NoResponse(evs, i + 1, j) && KeptSince(s, script, evs, i, j)
    requires var c := ClaimAt(s, script, evs, i).value;
      e in StateAt(s, script, evs, i + 1).entries && e.Is(c.txid, c.outputIndex) && !e.Settled()
    ensures HasSlashed(StateAt(s, script, evs, j).entries, e.txid, e.outputIndex) <==>
            exists k | i < k < j :: Reddens(evs[k], e)
  {
    hide Inv, Step, StateAt, HasSlashed, HitByRed, Reddens, CompactionDue, ClaimAt;
    if j == i + 1 {
      ClaimedIsUnsettled(s, script, evs, i);
    } else {
      assert !evs[j - 1].Response?;
      SlashedIffReddened(s, script, evs, i, j - 1, e);
      HitIsOfTheClaimed(s, script, evs, i, j - 1, e);
      RunKeepsInv(s, script, evs, j - 1);
      SlashedStep(StateAt(s, script, evs, j - 1), script, evs[j - 1], e.txid, e.outputIndex);
      NextState(s, script, evs, j);
      assert !CompactionDue(StateAt(s, script, evs, j - 1), evs[j - 1]);
    }
  }

  /** When no block compacts in between, the claimed entry ends slashed and claimed if and only if some block between
      the claim and its acceptance has the entry's hash in its red set. */
  lemma ClaimedEntryBothFlagsIff(s: State, script: string, evs: seq<Event>, i: nat, m: nat, e: Entry)
    requires Inv(s) && i < m < |evs| && ClaimAt(s, script, evs, i).Some?
    requires evs[m] == Response(None) && NoResponse(evs, i + 1, m) && KeptSince(s, script, evs, i, m)
    requires var c := ClaimAt(s, script, evs, i).value;
      e in StateAt(s, script, evs, i + 1).entries && e.Is(c.txid, c.outputIndex) && !e.Settled()
    ensures HasBothFlags(StateAt(s, script, evs, m + 1).entries, e.txid, e.outputIndex) <==>
            exists k | i < k < m :: Reddens(evs[k], e)
  {
    hide Inv, HasSlashed, HasBothFlags, Reddens, StateAt, Step;
    PendingUntilResponse(s, script, evs, i, m);
    SlashedIffReddened(s, script, evs, i, m, e);
    RunKeepsInv(s, script, evs, m);
    NextState(s, script, evs, m + 1);
    RespondIsStep(StateAt(s, script, evs, m), script);
    AcceptedClaim(StateAt(s, script, evs, m), e.txid, e.outputIndex);
  }

  lemma RespondIsStep(s: State, script: string)
    ensures Step(s, script, Response(None)).0 == OnSubmitResponse(s, None)
  {
  }

  lemma NextState(s: State, script: string, evs: seq<Event>, n: nat)
    requires 0 < n <= |evs|
    ensures StateAt(s, script, evs, n) == Step(StateAt(s, script, evs, n - 1), script, evs[n - 1]).0
  {
  }

  // ---------------------------------------------------------------------------------------------
  // A run that ends with both flags

  /** From an empty watcher: a coinbase pays, matures and is claimed, its block turns red, the claim is accepted. */
  function RedThenAccepted(script: string, txid: string, hash: string, amount: nat): seq<Event> {
    var pay := Tx(0, Some(txid), [Output(amount, Some(Spk(0, script)))]);
    [BlockSeen(Block(Some(0), Some(Verbose(hash, [])), [pay])),
     BlockSeen(Block(Some(36_010), None, [Tx(0, Some(txid), [])])),
     BlockSeen(Block(Some(36_011), Some(Verbose("", [hash])), [])),
     Response(None)]
  }

  lemma BothFlagsReached(script: string, txid: string, hash: string, amount: nat)
    requires Lower(script) == script && IsTxid(txid) && hash != "" && amount > CLAIM_FEE_SOMPI
    ensures var evs := RedThenAccepted(script, txid, hash, amount);
      var s := State([], None, None, 0, 0);
      && ClaimAt(s, script, evs, 1) == Some(Claim(txid, 0, CHALLENGE_WINDOW_BLOCKS, amount - CLAIM_FEE_SOMPI))
      && StateAt(s, script, evs, 4).entries
         == [CoinbaseEntry(txid, hash, 0, amount, 0).(claimed := true, slashed := true)]
  {
    hide Step;
    var evs := RedThenAccepted(script, txid, hash, amount);
    var s := State([], None, None, 0, 0);
    var e := CoinbaseEntry(txid, hash, 0, amount, 0);
    PaidFirst(script, txid, hash, amount);
    var s1 := State([e], None, None, 0, 1);
    assert StateAt(s, script, evs, 1) == Step(StateAt(s, script, evs, 0), script, evs[0]).0 == s1;
    var s2 := State([e], Some(txid), Some(0), 36_010, 2);
    ClaimedSecond(script, txid, e);
    assert StateAt(s, script, evs, 2) == Step(StateAt(s, script, evs, 1), script, evs[1]).0 == s2;
    var s3 := State([e.(slashed := true)], Some(txid), Some(0), 36_011, 3);
    RedThird(script, hash, e, txid);
    assert StateAt(s, script, evs, 3) == Step(StateAt(s, script, evs, 2), script, evs[2]).0 == s3;
    AcceptedFourth(script, e.(slashed := true), s3);
    assert StateAt(s, script, evs, 4) == Step(StateAt(s, script, evs, 3), script, evs[3]).0;
  }

  lemma AcceptedFourth(script: string, e: Entry, s: State)
    requires s.entries == [e] && s.pendingTxid == Some(e.txid) && s.pendingIndex == Some(e.outputIndex)
    ensures Step(s, script, Response(None)).0.entries == [e.(claimed := true)]
  {
    assert [e][1..] == [];
  }

  lemma PaidFirst(script: string, txid: string, hash: string, amount: nat)
    requires Lower(script) == script && IsTxid(txid)
    ensures var evs := RedThenAccepted(script, txid, hash, amount);
      Step(State([], None, None, 0, 0), script, evs[0])
      == (State([CoinbaseEntry(txid, hash, 0, amount, 0)], None, None, 0, 1), None)
  {
    var os := [Output(amount, Some(Spk(0, script)))];
    assert SlashReds([], []) == [];
    assert TrackOutputs([], script, txid, hash, 0, os, 0) == [];
    assert PaysScript(os[0], script) && Keys([]) == {};
    assert TrackOutputs([], script, txid, hash, 0, os, 1) == [CoinbaseEntry(txid, hash, 0, amount, 0)];
    assert !Eligible(CoinbaseEntry(txid, hash, 0, amount, 0), 0);
    assert [CoinbaseEntry(txid, hash, 0, amount, 0)][1..] == [];
  }

  lemma ClaimedSecond(script: string, txid: string, e: Entry)
    requires IsTxid(txid) && e == CoinbaseEntry(txid, e.blockHash, 0, e.amount, 0) && e.amount > CLAIM_FEE_SOMPI
    ensures Step(State([e], None, None, 0, 1), script, BlockSeen(Block(Some(36_010), None, [Tx(0, Some(txid), [])])))
         == (State([e], Some(txid), Some(0), 36_010, 2),
             Some(Claim(txid, 0, CHALLENGE_WINDOW_BLOCKS, e.amount - CLAIM_FEE_SOMPI)))
  {
    assert Eligible(e, 36_010);
    assert [e][1..] == [];
    assert FirstEligible([e], 36_010, true) == None;
  }

  lemma RedThird(script: string, hash: string, e: Entry, txid: string)
    requires !e.Settled() && !e.isInference && e.blockHash == hash != ""
    ensures Step(State([e], Some(txid), Some(0), 36_010, 2), script,
                 BlockSeen(Block(Some(36_011), Some(Verbose("", [hash])), []))).0
         == State([e.(slashed := true)], Some(txid), Some(0), 36_011, 3)
  {
    assert SlashReds([e], [hash]) == [e.(slashed := true)];
  }
}
