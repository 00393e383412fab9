/** What the response to a claim makes of the claimed outpoint, and when a refused one may be claimed again. */
module EscrowRefusals {
  import opened Bytes
  import opened EscrowState
  import opened EscrowRuns

  // ---------------------------------------------------------------------------------------------
  // Messages

  /** `contains` finds the text exactly when it stands somewhere in the message. */
  lemma ContainsIff(s: string, sub: string)
    ensures Contains(s, sub) <==> exists a, b :: s == a + sub + b
  {
    if Contains(s, sub) {
      var i :| 0 <= i <= |s| - |sub| && OccursAt(s, sub, i);
      assert s == s[..i] + sub + s[i + |sub|..];
    }
    if a, b :| s == a + sub + b {
      assert s[|a|..|a| + |sub|] == sub;
      assert OccursAt(s, sub, |a|);
    }
  }

  predicate IsOrphan(error: Option<string>) {
    error.Some? && Contains(error.value, "orphan")
  }

  predicate IsSequenceLock(error: Option<string>) {
    error.Some? && Contains(error.value, "sequence lock") && !Contains(error.value, "orphan")
  }

  predicate IsFinal(error: Option<string>) {
    error.Some? && !Contains(error.value, "sequence lock") && !Contains(error.value, "orphan")
  }

  // ---------------------------------------------------------------------------------------------
  // The score a response is judged at

  /** The score of the last block with a header among the first `n` events. */
  function LastScore(evs: seq<Event>, n: nat, start: nat): nat
    requires n <= |evs|
  {
    if n == 0 then start
    else if evs[n - 1].BlockSeen? && evs[n - 1].block.daa.Some? then evs[n - 1].block.daa.value
    else LastScore(evs, n - 1, start)
  }

  lemma StepScore(s: State, script: string, ev: Event)
    ensures Step(s, script, ev).0.lastDaa
         == if ev.BlockSeen? && ev.block.daa.Some? then ev.block.daa.value else s.lastDaa
  {
  }

  lemma {:induction false} LastScoreIsKept(s: State, script: string, evs: seq<Event>, n: nat)
    requires n <= |evs|
    ensures StateAt(s, script, evs, n).lastDaa == LastScore(evs, n, s.lastDaa)
  {
    hide Step;
    if n > 0 {
      LastScoreIsKept(s, script, evs, n - 1);
      StepScore(StateAt(s, script, evs, n - 1), script, evs[n - 1]);
    }
  }

  // ---------------------------------------------------------------------------------------------
  // The first response to a claim

  /** `e` and `f` are the same escrow, except perhaps for what responses change. */
  predicate SameEscrow(e: Entry, f: Entry) {
    && e.txid == f.txid && e.blockHash == f.blockHash && e.confirmDaa == f.confirmDaa && e.amount == f.amount
    && e.outputIndex == f.outputIndex && e.isInference == f.isInference
  }

  /** What a response makes of an entry that has not been refused ten times. */
  predicate Settles(e: Entry, error: Option<string>, f: Entry) {
    && SameEscrow(e, f)
    && (f.claimed <==> e.claimed || error.None?)
    && (f.slashed <==> e.slashed || IsFinal(error) || (IsOrphan(error) && e.orphanRetries == 9))
    && f.orphanRetries == e.orphanRetries + (if IsOrphan(error) then 1 else 0)
    && (f.orphanSlashed <==> if IsOrphan(error) then e.orphanRetries < 9 else e.orphanSlashed)
  }

  lemma RespondSettles(e: Entry, error: Option<string>, daa: nat)
    requires e.orphanRetries < 10
    ensures Settles(e, error, Respond(e, error, daa))
  {
  }

  /** When an entry refused at score `d` may be claimed again. */
  predicate OpenAgain(e: Entry, error: Option<string>, d: nat, f: Entry, daa: nat) {
    && (IsOrphan(error) && !f.Settled() ==> (Eligible(f, daa) <==> daa >= d + 100 && daa >= e.confirmDaa + 36_010))
    && (IsSequenceLock(error) && !f.Settled() ==>
          (Eligible(f, daa) <==> daa >= d + 20 && daa >= e.confirmDaa + 36_010))
    && (!IsOrphan(error) && !IsSequenceLock(error) ==> f.retryAfter == e.retryAfter)
  }

  lemma RespondCools(e: Entry, error: Option<string>, d: nat, daa: nat)
    requires d + 100 < TWO64 && e.confirmDaa + 36_010 < TWO64
    ensures OpenAgain(e, error, d, Respond(e, error, d), daa)
  {
    hide Contains;
  }

  /** Position `k` of the entries holds the claimed outpoint when the first response `m` to claim `i` arrives. */
  ghost predicate Answered(s: State, script: string, evs: seq<Event>, i: nat, m: nat, k: nat) {
    && Inv(s) && i < m < |evs| && evs[m].Response? && ClaimAt(s, script, evs, i).Some? && NoResponse(evs, i + 1, m)
    && k < |StateAt(s, script, evs, m).entries|
    && StateAt(s, script, evs, m).entries[k].Is(ClaimAt(s, script, evs, i).value.txid,
                                                ClaimAt(s, script, evs, i).value.outputIndex)
  }

  /** The first response settles the claimed outpoint, or not: accepted it is claimed, refused for good or as an orphan
      for the tenth time it is slashed, and otherwise it stays open. The retry count goes up by one exactly for an
      orphan. */
  lemma ResponseSettles(s: State, script: string, evs: seq<Event>, i: nat, m: nat, k: nat)
    requires Answered(s, script, evs, i, m, k)
    ensures k < |StateAt(s, script, evs, m + 1).entries|
    ensures Settles(StateAt(s, script, evs, m).entries[k], evs[m].error, StateAt(s, script, evs, m + 1).entries[k])
  {
    hide StateAt, Step, Respond, Settles, Contains;
    var t := StateAt(s, script, evs, m);
    ResponseIsForTheClaim(s, script, evs, i, m);
    RunKeepsInv(s, script, evs, m);
    PendingUntilResponse(s, script, evs, i, m);
    assert EntryOk(t, t.entries[k]);
    RespondSettles(t.entries[k], evs[m].error, t.lastDaa);
  }

  /** After a retriable refusal at score `d` the outpoint, if it is still open, may be claimed again exactly from the
      end of its cooldown on, once it is mature: 100 blocks for an orphan, 20 for a sequence lock. Every other response
      leaves its cooldown alone. */
  lemma RefusedUntil(s: State, script: string, evs: seq<Event>, i: nat, m: nat, k: nat, daa: nat)
    requires Answered(s, script, evs, i, m, k)
    requires LastScore(evs, m, s.lastDaa) + 100 < TWO64
    requires StateAt(s, script, evs, m).entries[k].confirmDaa + 36_010 < TWO64
    ensures k < |StateAt(s, script, evs, m + 1).entries|
    ensures OpenAgain(StateAt(s, script, evs, m).entries[k], evs[m].error, LastScore(evs, m, s.lastDaa),
                      StateAt(s, script, evs, m + 1).entries[k], daa)
  {
    hide StateAt, Step, Respond, OpenAgain, Contains, Inv;
    var t := StateAt(s, script, evs, m);
    ResponseIsForTheClaim(s, script, evs, i, m);
    LastScoreIsKept(s, script, evs, m);
    RespondCools(t.entries[k], evs[m].error, t.lastDaa, daa);
  }

  // ---------------------------------------------------------------------------------------------
  // Ten orphans

  /** The event is an orphan refusal of a claim on the outpoint. */
  predicate RefusesAsOrphan(s: State, ev: Event, txid: string, index: nat) {
    ev.Response? && IsOrphan(ev.error) && s.pendingTxid == Some(txid) && s.pendingIndex == Some(index)
  }

  /** The orphan refusals of the outpoint from event `n` on and before `m`. */
  function Orphans(s: State, script: string, evs: seq<Event>, n: nat, m: nat, txid: string, index: nat): nat
    requires n <= m <= |evs|
    decreases m
  {
    if m == n then 0
    else Orphans(s, script, evs, n, m - 1, txid, index)
         + if RefusesAsOrphan(StateAt(s, script, evs, m - 1), evs[m - 1], txid, index) then 1 else 0
  }

  /** The outpoint's entry is open and has been refused `retries` times. */
  predicate OpenAfter(es: seq<Entry>, txid: string, index: nat, retries: nat) {
    exists e | e in es :: e.Is(txid, index) && !e.Settled() && e.orphanRetries == retries
  }

  /** The outpoint's entry is tracked and has been refused `retries` times. */
  predicate RefusedTimes(es: seq<Entry>, txid: string, index: nat, retries: nat) {
    exists e | e in es :: e.Is(txid, index) && e.orphanRetries == retries
  }

  /** The next state of an open entry, and how often it has been refused then. */
  predicate Refused(t: seq<Entry>, i: nat, txid: string, index: nat, after: nat) {
    i < |t| && t[i].Is(txid, index) && t[i].orphanRetries == after
  }

  lemma OrphanAtBlock(s: State, script: string, ev: Event, i: nat)
    requires !ev.Response? && i < |Base(s, ev)|
    ensures var e := Base(s, ev)[i]; Refused(Step(s, script, ev).0.entries, i, e.txid, e.outputIndex, e.orphanRetries)
  {
    if ev.BlockSeen? && ev.block.daa.Some? {
      HandleBlockEntries(s, script, ev.block);
    }
  }

  lemma OrphanAtResponse(s: State, script: string, ev: Event, i: nat)
    requires Inv(s) && ev.Response? && i < |s.entries| && !s.entries[i].Settled()
    ensures var e, t := s.entries[i], Step(s, script, ev).0.entries;
      var hit := RefusesAsOrphan(s, ev, e.txid, e.outputIndex);
      && Refused(t, i, e.txid, e.outputIndex, e.orphanRetries + if hit then 1 else 0)
      && (hit ==> (t[i].slashed <==> t[i].orphanRetries == 10))
  {
    hide Respond, Contains;
    var e := s.entries[i];
    assert EntryOk(s, e);
    if s.pendingTxid.Some? {
      RespondFirstExact(s.entries, s.pendingTxid.value, s.pendingIndex.value, ev.error, s.lastDaa);
      if e.Is(s.pendingTxid.value, s.pendingIndex.value) {
        RespondSettles(e, ev.error, s.lastDaa);
      }
    }
  }

  lemma OrphanStep(s: State, script: string, ev: Event, txid: string, index: nat, retries: nat)
    requires Inv(s) && OpenAfter(s.entries, txid, index, retries)
    ensures var t := Step(s, script, ev).0.entries;
      var after := retries + if RefusesAsOrphan(s, ev, txid, index) then 1 else 0;
      && RefusedTimes(t, txid, index, after)
      && (RefusesAsOrphan(s, ev, txid, index) ==>
            forall f | f in t && f.Is(txid, index) :: f.slashed <==> after == 10)
  {
    var e :| e in s.entries && e.Is(txid, index) && !e.Settled() && e.orphanRetries == retries;
    LiveMembers(s.entries);
    var base, t := Base(s, ev), Step(s, script, ev).0.entries;
    assert e in base;
    hide Step, Base, IsOrphan, Inv, RefusesAsOrphan, Distinct, Grown;
    var i :| 0 <= i < |base| && base[i] == e;
    if ev.Response? {
      ResponseBase(s, ev);
      OrphanAtResponse(s, script, ev, i);
    } else {
      OrphanAtBlock(s, script, ev, i);
      NoResponseNoRefusal(s, ev, txid, index);
    }
    assert t[i] in t;
    StepGrows(s, script, ev);
    OnlyEntry(t, i, txid, index);
  }

  lemma OnlyEntry(es: seq<Entry>, i: nat, txid: string, index: nat)
    requires Distinct(es) && i < |es| && es[i].Is(txid, index)
    ensures forall f | f in es && f.Is(txid, index) :: f == es[i]
  {
    forall f | f in es && f.Is(txid, index) ensures f == es[i] {
      SameOutpointSameEntry(es, es[i], f);
    }
  }

  lemma ResponseBase(s: State, ev: Event)
    requires ev.Response?
    ensures Base(s, ev) == s.entries
  {
  }

  lemma NoResponseNoRefusal(s: State, ev: Event, txid: string, index: nat)
    requires !ev.Response?
    ensures !RefusesAsOrphan(s, ev, txid, index)
  {
  }

  /** An escrow is refused as an orphan as often as its claims were: over every run from the moment it is first tracked,
      as long as it stays open. */
  lemma {:induction false} RetriesAreCounted(s: State, script: string, evs: seq<Event>, n: nat, m: nat, e: Entry)
    requires Inv(s) && n <= m < |evs| && e in StateAt(s, script, evs, n).entries && New(e)
    requires forall j, f | n <= j <= m && f in StateAt(s, script, evs, j).entries ::
               f.Is(e.txid, e.outputIndex) ==> !f.Settled()
    ensures OpenAfter(StateAt(s, script, evs, m).entries, e.txid, e.outputIndex,
                      Orphans(s, script, evs, n, m, e.txid, e.outputIndex))
  {
    hide Step, Inv;
    if m > n {
      var k := Orphans(s, script, evs, n, m - 1, e.txid, e.outputIndex);
      RetriesAreCounted(s, script, evs, n, m - 1, e);
      RunKeepsInv(s, script, evs, m - 1);
      OrphanStep(StateAt(s, script, evs, m - 1), script, evs[m - 1], e.txid, e.outputIndex, k);
    }
  }

  /** So an orphan refusal slashes an open escrow if and only if it is the tenth since the escrow was first tracked. */
  lemma TenthOrphanSlashes(s: State, script: string, evs: seq<Event>, n: nat, m: nat, e: Entry, f: Entry)
    requires Inv(s) && n <= m < |evs| && e in StateAt(s, script, evs, n).entries && New(e)
    requires forall j, g | n <= j <= m && g in StateAt(s, script, evs, j).entries ::
               g.Is(e.txid, e.outputIndex) ==> !g.Settled()
    requires RefusesAsOrphan(StateAt(s, script, evs, m), evs[m], e.txid, e.outputIndex)
    requires f in StateAt(s, script, evs, m + 1).entries && f.Is(e.txid, e.outputIndex)
    ensures f.slashed <==> Orphans(s, script, evs, n, m + 1, e.txid, e.outputIndex) == 10
  {
    hide Step, Inv;
    RetriesAreCounted(s, script, evs, n, m, e);
    RunKeepsInv(s, script, evs, m);
    OrphanStep(StateAt(s, script, evs, m), script, evs[m], e.txid, e.outputIndex,
               Orphans(s, script, evs, n, m, e.txid, e.outputIndex));
  }
}
