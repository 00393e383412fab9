/** What the watcher takes for a payment and what it asks for: which transaction is the coinbase, which outputs are
    tracked and with which terms, and which entries a claim can be built for. Stated without the functions that
    compute it. */
module EscrowPayments {
  import opened Bytes
  import opened EscrowState
  import opened EscrowRuns

  // ---------------------------------------------------------------------------------------------
  // Letters

  const UPPER: string := "ABCDEFGHIJKLMNOPQRSTUVWXYZ"
  const LOWER: string := "abcdefghijklmnopqrstuvwxyz"

  /** The two letters stand at one place of the alphabets. */
  predicate Paired(upper: string, lower: string, c: char, d: char)
    requires |upper| == |lower|
  {
    exists k | 0 <= k < |upper| :: upper[k] == c && lower[k] == d
  }

  /** `d` is `c`, or its small letter. */
  predicate SmallOf(c: char, d: char) {
    if c in UPPER then Paired(UPPER, LOWER, c, d) else c == d
  }

  lemma PairedIff(upper: string, lower: string, c: char, d: char)
    requires |upper| == |lower| == 26
    requires forall k | 0 <= k < 26 :: upper[k] == 'A' + k as char && lower[k] == 'a' + k as char
    ensures c in upper <==> 'A' <= c <= 'Z'
    ensures 'A' <= c <= 'Z' ==> (Paired(upper, lower, c, d) <==> d == c - 'A' + 'a')
  {
    if 'A' <= c <= 'Z' {
      var k := (c - 'A') as nat;
      assert upper[k] == c && lower[k] == c - 'A' + 'a';
    }
  }

  lemma LettersInOrder()
    ensures |UPPER| == |LOWER| == 26
    ensures forall k | 0 <= k < 26 :: UPPER[k] == 'A' + k as char && LOWER[k] == 'a' + k as char
  {
  }

  lemma SmallOfIs(c: char, d: char)
    ensures SmallOf(c, d) <==> d == if 'A' <= c <= 'Z' then c - 'A' + 'a' else c
  {
    hide Paired;
    LettersInOrder();
    PairedIff(UPPER, LOWER, c, d);
  }

  /** The output names the script: by version 0 and its letters, whatever their case. */
  predicate Names(o: Output, script: string) {
    && o.spk.Some? && o.spk.value.version == 0 && |o.spk.value.script| == |script|
    && forall i | 0 <= i < |script| :: SmallOf(o.spk.value.script[i], script[i])
  }

  lemma NamesIff(o: Output, script: string)
    ensures PaysScript(o, script) <==> Names(o, script)
  {
    hide SmallOf;
    if o.spk.Some? {
      var s := o.spk.value.script;
      if |s| == |script| {
        forall i | 0 <= i < |s| ensures SmallOf(s[i], script[i]) <==> Lower(s)[i] == script[i] {
          SmallOfIs(s[i], script[i]);
        }
        if forall i | 0 <= i < |s| :: SmallOf(s[i], script[i]) {
          assert Lower(s) == script;
        }
      }
    }
  }

  // ---------------------------------------------------------------------------------------------
  // The coinbase

  /** Position `i` holds the first transaction without inputs. */
  ghost predicate CoinbaseAt(txs: seq<Tx>, i: nat) {
    i < |txs| && txs[i].inputs == 0 && forall j | 0 <= j < i :: txs[j].inputs > 0
  }

  lemma {:induction false} FirstCoinbaseIff(txs: seq<Tx>, i: nat)
    ensures CoinbaseAt(txs, i) ==> FirstCoinbase(txs) == Some(txs[i])
    ensures (forall j | 0 <= j < |txs| :: txs[j].inputs > 0) ==> FirstCoinbase(txs).None?
  {
    if txs != [] {
      FirstCoinbaseIff(txs[1..], if i > 0 then i - 1 else 0);
      assert forall j | 0 <= j < |txs[1..]| :: txs[1..][j] == txs[j + 1];
    }
  }

  /** A block is used if and only if its first transaction without inputs has a transaction id that is not empty. */
  lemma UsableIff(b: Block, i: nat)
    requires CoinbaseAt(b.txs, i)
    ensures UsableCoinbase(b).Some? <==> b.txs[i].txid.Some? && b.txs[i].txid.value != ""
    ensures UsableCoinbase(b).Some? ==> UsableCoinbase(b).value == b.txs[i]
  {
    FirstCoinbaseIff(b.txs, i);
  }

  /** A block without a usable coinbase adds no entry and issues no claim. */
  lemma UnusableBlock(s: State, script: string, b: Block)
    requires UsableCoinbase(b).None?
    ensures HandleBlock(s, script, b).1.None? && HandleBlock(s, script, b).0.pendingTxid == s.pendingTxid
    ensures b.daa.Some? ==> |HandleBlock(s, script, b).0.entries| == |Base(s, BlockSeen(b))|
  {
  }

  // ---------------------------------------------------------------------------------------------
  // What is tracked

  /** The entry of a coinbase output. */
  predicate Tracks(e: Entry, txid: string, hash: string, daa: nat, os: seq<Output>, script: string) {
    && e.outputIndex < |os| && Names(os[e.outputIndex], script) && e.amount == os[e.outputIndex].amount
    && e.txid == txid && e.blockHash == hash && e.confirmDaa == daa && !e.isInference
    && !e.claimed && !e.slashed && !e.orphanSlashed && e.orphanRetries == 0 && e.retryAfter.None?
  }

  lemma {:induction false} TrackedTerms(es: seq<Entry>, script: string, txid: string, hash: string, daa: nat,
          os: seq<Output>, n: nat)
    requires n <= |os|
    ensures var r := TrackOutputs(es, script, txid, hash, daa, os, n);
      |es| <= |r| && forall k | |es| <= k < |r| :: Tracks(r[k], txid, hash, daa, os, script)
  {
    hide Names, Keys;
    if n > 0 {
      TrackedTerms(es, script, txid, hash, daa, os, n - 1);
      NamesIff(os[n - 1], script);
    }
  }

  /** Every entry that a block adds has the terms of an output of its coinbase that names the watcher's script. */
  lemma BlockTracks(s: State, script: string, b: Block, i: nat, k: nat)
    requires b.daa.Some? && CoinbaseAt(b.txs, i)
    requires |Base(s, BlockSeen(b))| <= k < |HandleBlock(s, script, b).0.entries|
    ensures b.txs[i].txid.Some? && b.txs[i].txid.value != ""
    ensures Tracks(HandleBlock(s, script, b).0.entries[k], b.txs[i].txid.value,
                   if b.verbose.Some? then b.verbose.value.hash else "", b.daa.value, b.txs[i].outputs, script)
  {
    hide Tracks;
    UsableIff(b, i);
    if UsableCoinbase(b).None? {
      UnusableBlock(s, script, b);
    } else {
      var before := BeforeCoinbase(s, b, b.daa.value);
      TrackedTerms(before.entries, script, b.txs[i].txid.value, BlockHash(b), b.daa.value, b.txs[i].outputs,
                   |b.txs[i].outputs|);
    }
  }

  /** An inference payment is tracked with its terms at output 1, once, unless it is of nothing. */
  lemma InferenceTracks(s: State, txid: string, daa: nat, amount: nat)
    ensures var t := TrackInference(s, txid, daa, amount).entries;
      if amount > 0 && Key(txid, 1) !in Keys(s.entries)
      then t == s.entries + [Entry(txid, "", daa, amount, 1, false, false, false, 0, None, true)]
      else t == s.entries
  {
  }

  // ---------------------------------------------------------------------------------------------
  // What can be claimed

  /** A digit in hexadecimal, small or capital. */
  predicate Hexadecimal(c: char) {
    c in "0123456789abcdef" || c in "0123456789ABCDEF"
  }

  lemma HexIff(c: char)
    ensures IsHexChar(c) <==> Hexadecimal(c)
  {
    var small, capital := "0123456789abcdef", "0123456789ABCDEF";
    if '0' <= c <= '9' {
      assert small[(c - '0') as nat] == c;
    } else if 'a' <= c <= 'f' {
      assert small[10 + (c - 'a') as nat] == c;
    } else if 'A' <= c <= 'F' {
      assert capital[10 + (c - 'A') as nat] == c;
    }
  }

  /** A claim can be built if and only if the entry is worth more than the fee and its id is 32 bytes in hexadecimal;
      it pays out the rest and waits out the window. */
  lemma ClaimBuiltIff(e: Entry)
    ensures BuildClaim(e).Some? <==>
            e.amount > 30_000_000 && |e.txid| == 64 && forall i | 0 <= i < 64 :: Hexadecimal(e.txid[i])
    ensures BuildClaim(e).Some? ==>
            BuildClaim(e).value == Claim(e.txid, e.outputIndex, 36_000, e.amount - 30_000_000)
  {
    hide Hexadecimal, IsHexChar;
    if |e.txid| == 64 {
      forall i | 0 <= i < 64 ensures IsHexChar(e.txid[i]) <==> Hexadecimal(e.txid[i]) {
        HexIff(e.txid[i]);
      }
    }
  }

  /** The maturity sum wraps: an entry confirmed at the last score is eligible long before its window is over. */
  lemma WrappedIsEarly(e: Entry)
    requires e.confirmDaa == 0xFFFF_FFFF_FFFF_FFFF && !e.Settled() && e.retryAfter.None?
    ensures Eligible(e, 36_009) && !Eligible(e, 36_008)
  {
  }
}
