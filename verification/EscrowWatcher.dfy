/** The escrow watcher with its two lookup indexes, updated in place. Every operation does to the
    entries what the full scans of EscrowState do, and keeps the indexes in step with them. */
module EscrowWatcher {
  import opened Bytes
  import opened EscrowState

  /** The positions of the entries of block `h`, ascending. */
  ghost function Indices(es: seq<Entry>, h: string): seq<nat> {
    if es == [] then []
    else
      var i := |es| - 1;
      Indices(es[..i], h) + if es[i].blockHash == h then [i] else []
  }

  lemma {:induction false} IndicesExact(es: seq<Entry>, h: string, i: nat)
    ensures i in Indices(es, h) <==> i < |es| && es[i].blockHash == h
  {
    if es != [] {
      IndicesExact(es[..|es| - 1], h, i);
    }
  }

  /** `block_index` lists, for each nonempty block hash in use, exactly the entries of that block. */
  ghost predicate IndexAgrees(es: seq<Entry>, index: map<string, seq<nat>>) {
    forall h: string ::
      && (h in index <==> h != "" && Indices(es, h) != [])
      && (h in index ==> index[h] == Indices(es, h))
  }

  /** `entry(h).or_default().push(i)`. */
  function Pushed(index: map<string, seq<nat>>, h: string, i: nat): map<string, seq<nat>> {
    if h == "" then index
    else index[h := (if h in index then index[h] else []) + [i]]
  }

  lemma PushKeepsIndex(es: seq<Entry>, index: map<string, seq<nat>>, e: Entry)
    requires IndexAgrees(es, index)
    ensures IndexAgrees(es + [e], Pushed(index, e.blockHash, |es|))
  {
    var r := Pushed(index, e.blockHash, |es|);
    forall h: string ensures
      && (h in r <==> h != "" && Indices(es + [e], h) != [])
      && (h in r ==> r[h] == Indices(es + [e], h))
    {
      assert (es + [e])[..|es|] == es;
    }
  }

  ghost predicate SameBlocks(a: seq<Entry>, b: seq<Entry>) {
    && |a| == |b|
    && forall i | 0 <= i < |a| :: a[i].blockHash == b[i].blockHash && a[i].OutpointKey() == b[i].OutpointKey()
  }

  lemma {:induction false} SameBlocksSameIndices(a: seq<Entry>, b: seq<Entry>, h: string)
    requires SameBlocks(a, b)
    ensures Indices(a, h) == Indices(b, h)
  {
    if a != [] {
      SameBlocksSameIndices(a[..|a| - 1], b[..|a| - 1], h);
    }
  }

  lemma SameBlocksSameKeys(a: seq<Entry>, b: seq<Entry>)
    requires SameBlocks(a, b)
    ensures Keys(a) == Keys(b)
  {
    forall k | k in Keys(a) ensures k in Keys(b) {
      var i :| 0 <= i < |a| && a[i].OutpointKey() == k;
      assert b[i] in b;
    }
    forall k | k in Keys(b) ensures k in Keys(a) {
      var i :| 0 <= i < |b| && b[i].OutpointKey() == k;
      assert a[i] in a;
    }
  }

  lemma KeysPushed(es: seq<Entry>, e: Entry)
    ensures Keys(es + [e]) == Keys(es) + {e.OutpointKey()}
  {
  }

  lemma {:induction false} LiveLength(es: seq<Entry>)
    ensures |Live(es)| <= |es|
    ensures |Live(es)| == |es| ==> Live(es) == es
  {
    hide Live;
    if es == [] {
      LiveNone();
    } else {
      var front, last := es[..|es| - 1], es[|es| - 1];
      LiveLength(front);
      assert es == front + [last];
      LiveStep(es);
    }
  }

  lemma LiveNone()
    ensures Live([]) == []
  {
  }

  lemma LiveStep(es: seq<Entry>)
    requires es != []
    ensures var front, last := es[..|es| - 1], es[|es| - 1];
      Live(es) == if last.Settled() then Live(front) else Live(front) + [last]
  {
  }

  lemma {:induction false} RespondFirstAt(es: seq<Entry>, txid: string, index: nat, error: Option<string>, daa: nat,
          i: nat)
    requires i <= |es| && (forall j | 0 <= j < i :: !es[j].Is(txid, index))
    requires i < |es| ==> es[i].Is(txid, index)
    ensures RespondFirst(es, txid, index, error, daa) == if i < |es| then es[i := Respond(es[i], error, daa)] else es
  {
    if i > 0 {
      RespondFirstAt(es[1..], txid, index, error, daa, i - 1);
    } else if es != [] {
      assert es[0 := Respond(es[0], error, daa)] == [Respond(es[0], error, daa)] + es[1..];
    }
  }

  lemma RespondKeepsBlocks(es: seq<Entry>, i: nat, error: Option<string>, daa: nat)
    requires i < |es|
    ensures SameBlocks(es, es[i := Respond(es[i], error, daa)])
  {
  }

  /** One more red hash, by its index list or, without one, not at all. */
  lemma OneMoreRed(es: seq<Entry>, reds: seq<string>, red: string, r: seq<Entry>)
    requires |r| == |es|
    requires forall i | 0 <= i < |es| :: var e := SlashReds(es, reds)[i];
               r[i] == if e.blockHash == red then SlashOne(e) else e
    ensures r == SlashReds(es, reds + [red])
  {
    forall i | 0 <= i < |es| ensures r[i] == SlashReds(es, reds + [red])[i] {
      assert es[i].blockHash in reds + [red] <==> es[i].blockHash in reds || es[i].blockHash == red;
    }
  }

  class Watcher {
    const script: string
    var entries: seq<Entry>
    var pendingTxid: Option<string>
    var pendingIndex: Option<nat>
    var lastDaa: nat
    var blocksSinceCompact: nat
    var outpointSet: set<string>
    var blockIndex: map<string, seq<nat>>

    /** The indexes say what the entries say. */
    ghost predicate Valid()
      reads this
    {
      outpointSet == Keys(entries) && IndexAgrees(entries, blockIndex)
    }

    ghost function View(): State
      reads this
    {
      State(entries, pendingTxid, pendingIndex, lastDaa, blocksSinceCompact)
    }

    /** `new`, after the script is derived and the entries are loaded. */
    constructor (script: string, loaded: seq<Entry>)
      ensures Valid() && this.script == script
      ensures View() == State(loaded, None, None, 0, 0)
    {
      this.script := script;
      entries := loaded;
      pendingTxid, pendingIndex, lastDaa, blocksSinceCompact := None, None, 0, 0;
      outpointSet, blockIndex := {}, map[];
      new;
      RebuildIndexes();
    }

    /** Needs no `Valid()`: it is what establishes it. */
    method RebuildIndexes()
      modifies this
      ensures Valid() && View() == old(View())
    {
      outpointSet := {};
      blockIndex := map[];
      assert entries[..0] == [];
      for i := 0 to |entries|
        invariant View() == old(View())
        invariant outpointSet == Keys(entries[..i])
        invariant IndexAgrees(entries[..i], blockIndex)
      {
        var e := entries[i];
        assert entries[..i + 1] == entries[..i] + [e];
        KeysPushed(entries[..i], e);
        PushKeepsIndex(entries[..i], blockIndex, e);
        outpointSet := outpointSet + {e.OutpointKey()};
        blockIndex := Pushed(blockIndex, e.blockHash, i);
      }
      assert entries[..|entries|] == entries;
    }

    method Compact()
      requires Valid()
      modifies this
      ensures Valid() && View() == EscrowState.Compact(old(View()))
    {
      var before := |entries|;
      LiveLength(entries);
      var kept := Live(entries);
      if |kept| != before {
        entries := kept;
        RebuildIndexes();
      }
    }

    /** Slash the entries of one block, found through the index. */
    method SlashBlock(red: string)
      requires Valid()
      modifies `entries
      ensures Valid() && |entries| == |old(entries)|
      ensures forall i | 0 <= i < |entries| ::
                entries[i] == if old(entries)[i].blockHash == red then SlashOne(old(entries)[i]) else old(entries)[i]
    {
      ghost var was := entries;
      if red in blockIndex {
        var indices := blockIndex[red];
        for j := 0 to |indices|
          invariant |entries| == |was|
          invariant forall i | 0 <= i < |was| :: entries[i] == if i in indices[..j] then SlashOne(was[i]) else was[i]
        {
          var i := indices[j];
          assert indices[..j + 1] == indices[..j] + [i];
          if i < |entries| {
            var entry := entries[i];
            if !entry.claimed && !entry.slashed && !entry.isInference && entry.blockHash != "" {
              entries := entries[i := entry.(slashed := true)];
            }
          }
        }
        assert indices[..|indices|] == indices;
      }
      forall i | 0 <= i < |was| ensures entries[i] == if was[i].blockHash == red then SlashOne(was[i]) else was[i] {
        IndicesExact(was, red, i);
      }
      KeptBlocks(was);
    }

    /** The indexes survive an update that moves no entry and changes no key. */
    lemma KeptBlocks(was: seq<Entry>)
      requires outpointSet == Keys(was) && IndexAgrees(was, blockIndex) && SameBlocks(was, entries)
      ensures Valid()
    {
      SameBlocksSameKeys(was, entries);
      forall h: string ensures Indices(was, h) == Indices(entries, h) {
        SameBlocksSameIndices(was, entries, h);
      }
    }

    method SlashReds(reds: seq<string>)
      requires Valid()
      modifies `entries
      ensures Valid() && entries == EscrowState.SlashReds(old(entries), reds)
    {
      assert EscrowState.SlashReds(entries, []) == entries;
      for k := 0 to |reds|
        invariant Valid() && entries == EscrowState.SlashReds(old(entries), reds[..k])
      {
        SlashBlock(reds[k]);
        OneMoreRed(old(entries), reds[..k], reds[k], entries);
        assert reds[..k + 1] == reds[..k] + [reds[k]];
      }
      assert reds[..|reds|] == reds;
    }

    /** Append one entry and index it. */
    method Track(e: Entry)
      requires Valid()
      modifies `entries, `outpointSet, `blockIndex
      ensures Valid() && entries == old(entries) + [e]
    {
      var index := |entries|;
      KeysPushed(entries, e);
      PushKeepsIndex(entries, blockIndex, e);
      entries := entries + [e];
      outpointSet := outpointSet + {e.OutpointKey()};
      blockIndex := Pushed(blockIndex, e.blockHash, index);
    }

    method TrackCoinbase(txid: string, blockHash: string, daa: nat, outputs: Outputs)
      requires Valid()
      modifies `entries, `outpointSet, `blockIndex
      ensures Valid()
      ensures entries == TrackOutputs(old(entries), script, txid, blockHash, daa, outputs, |outputs|)
    {
      for i := 0 to |outputs|
        invariant Valid()
        invariant entries == TrackOutputs(old(entries), script, txid, blockHash, daa, outputs, i)
      {
        if outputs[i].spk.Some? {
          var key := Key(txid, i);
          if PaysScript(outputs[i], script) && key !in outpointSet {
            Track(CoinbaseEntry(txid, blockHash, daa, outputs[i].amount, i));
          }
        }
      }
    }

    method FindClaim(daa: nat) returns (claim: Option<Claim>)
      requires Valid()
      modifies `pendingTxid, `pendingIndex
      ensures Valid() && (View(), claim) == EscrowState.FindClaim(old(View()), daa)
    {
      if pendingTxid.Some? {
        return None;
      }
      var entry := FirstEligible(entries, daa, true);
      if entry.None? {
        entry := FirstEligible(entries, daa, false);
      }
      if entry.None? {
        return None;
      }
      claim := BuildClaim(entry.value);
      if claim.Some? {
        pendingIndex := Some(entry.value.outputIndex);
        pendingTxid := Some(entry.value.txid);
      }
    }

    method HandleBlock(block: Block) returns (claim: Option<Claim>)
      requires Valid()
      modifies this
      ensures Valid() && (View(), claim) == EscrowState.HandleBlock(old(View()), script, block)
    {
      if block.daa.None? {
        return None;
      }
      lastDaa := block.daa.value;
      blocksSinceCompact := blocksSinceCompact + 1;
      if blocksSinceCompact >= COMPACT_EVERY_BLOCKS {
        blocksSinceCompact := 0;
        Compact();
      }
      if block.verbose.Some? {
        SlashReds(block.verbose.value.reds);
      }
      assert View() == BeforeCoinbase(old(View()), block, lastDaa);
      var coinbase := UsableCoinbase(block);
      if coinbase.None? {
        return None;
      }
      TrackCoinbase(coinbase.value.txid.value, BlockHash(block), lastDaa, coinbase.value.outputs);
      claim := FindClaim(lastDaa);
    }

    method OnSubmitResponse(error: Option<string>)
      requires Valid()
      modifies this
      ensures Valid() && View() == EscrowState.OnSubmitResponse(old(View()), error)
    {
      hide Respond, RespondFirst, IndexAgrees, Keys, SameBlocks;
      if pendingTxid.None? {
        return;
      }
      var txid := pendingTxid.value;
      var index := if pendingIndex.Some? then pendingIndex.value else 1;
      pendingTxid, pendingIndex := None, None;
      var i := 0;
      while i < |entries| && !entries[i].Is(txid, index)
        invariant i <= |entries|
        invariant forall j | 0 <= j < i :: !entries[j].Is(txid, index)
      {
        i := i + 1;
      }
      RespondFirstAt(entries, txid, index, error, lastDaa, i);
      if i < |entries| {
        ghost var was := entries;
        RespondKeepsBlocks(entries, i, error, lastDaa);
        entries := entries[i := Respond(entries[i], error, lastDaa)];
        KeptBlocks(was);
      }
    }

    method TrackInferenceEscrow(txid: string, daa: nat, amount: nat)
      requires Valid()
      modifies `entries, `outpointSet, `blockIndex
      ensures Valid() && View() == TrackInference(old(View()), txid, daa, amount)
    {
      if amount == 0 {
        return;
      }
      var key := Key(txid, 1);
      if key in outpointSet {
        return;
      }
      Track(InferenceEntry(txid, daa, amount));
    }
  }
}
