/** The escrow watcher as a transition function on its entries, without the lookup indexes:
    every search is a full scan. Sums of DAA scores wrap at 64 bits, as in a release build. */
module EscrowState {
  import opened Bytes

  const CHALLENGE_WINDOW_BLOCKS: nat := 36_000
  const CLAIM_FEE_SOMPI: nat := 30_000_000
  const COMPACT_EVERY_BLOCKS: nat := 2_000
  const ORPHAN_RETRY_COOLDOWN_BLOCKS: nat := 100
  const SEQ_LOCK_RETRY_COOLDOWN_BLOCKS: nat := 20
  const MAX_ORPHAN_RETRIES: nat := 10

  function Add64(a: nat, b: nat): nat {
    (a + b) % TWO64
  }

  /** An escrow outpoint being tracked. */
  datatype Entry = Entry(
    txid: string,
    blockHash: string,
    confirmDaa: nat,
    amount: nat,
    outputIndex: nat,
    claimed: bool,
    slashed: bool,
    orphanSlashed: bool,
    orphanRetries: nat,
    retryAfter: Option<nat>,
    isInference: bool)
  {
    predicate Settled() {
      claimed || slashed
    }

    predicate Is(txid': string, index: nat) {
      txid == txid' && outputIndex == index
    }

    function OutpointKey(): string {
      Key(txid, outputIndex)
    }
  }

  /** The claim transaction, without its signature: the outpoint spent, its sequence and the amount paid out. */
  datatype Claim = Claim(txid: string, outputIndex: nat, sequence: nat, amountOut: nat)

  datatype Spk = Spk(version: nat, script: string)

  datatype Output = Output(amount: nat, spk: Option<Spk>)

  /** A transaction's outputs are indexed by 32 bits. */
  type Outputs = o: seq<Output> | |o| <= 0x1_0000_0000 witness []

  datatype Tx = Tx(inputs: nat, txid: Option<string>, outputs: Outputs)

  datatype Verbose = Verbose(hash: string, reds: seq<string>)

  datatype Block = Block(daa: Option<nat>, verbose: Option<Verbose>, txs: seq<Tx>)

  /** The watcher without its indexes. */
  datatype State = State(
    entries: seq<Entry>,
    pendingTxid: Option<string>,
    pendingIndex: Option<nat>,
    lastDaa: nat,
    blocksSinceCompact: nat)

  // ---------------------------------------------------------------------------------------------
  // Outpoint keys

  function Digit(d: nat): char
    requires d < 10
  {
    "0123456789"[d]
  }

  function Decimal(n: nat): string {
    if n < 10 then [Digit(n)] else Decimal(n / 10) + [Digit(n % 10)]
  }

  /** `format!("{}:{}", txid, index)`. */
  function Key(txid: string, index: nat): string {
    txid + ":" + Decimal(index)
  }

  lemma DigitInjective(a: nat, b: nat)
    requires a < 10 && b < 10 && Digit(a) == Digit(b)
    ensures a == b
  {
  }

  lemma {:induction false} DecimalHasNoColon(n: nat)
    ensures Decimal(n) != [] && forall i | 0 <= i < |Decimal(n)| :: Decimal(n)[i] != ':'
  {
    if n >= 10 {
      DecimalHasNoColon(n / 10);
    }
  }

  lemma {:induction false} DecimalInjective(a: nat, b: nat)
    requires Decimal(a) == Decimal(b)
    ensures a == b
  {
    var x, y := Decimal(a), Decimal(b);
    DecimalHasNoColon(a / 10);
    DecimalHasNoColon(b / 10);
    assert x[|x| - 1] == Digit(a % 10) && y[|y| - 1] == Digit(b % 10);
    DigitInjective(a % 10, b % 10);
    if a >= 10 && b >= 10 {
      assert x[..|x| - 1] == Decimal(a / 10) && y[..|y| - 1] == Decimal(b / 10);
      DecimalInjective(a / 10, b / 10);
    }
  }

  lemma LastColon(s: string, i: nat, at: nat)
    ensures |s| < at < |Key(s, i)| ==> Key(s, i)[at] != ':'
  {
    DecimalHasNoColon(i);
    if |s| < at < |Key(s, i)| {
      assert Key(s, i)[at] == Decimal(i)[at - |s| - 1];
    }
  }

  /** The key string identifies the outpoint, whatever characters the transaction id has. */
  lemma KeyInjective(s: string, i: nat, t: string, j: nat)
    requires Key(s, i) == Key(t, j)
    ensures s == t && i == j
  {
    var k := Key(s, i);
    DecimalHasNoColon(i);
    DecimalHasNoColon(j);
    LastColon(s, i, |t|);
    LastColon(t, j, |s|);
    assert k[|s|] == ':' && k[|t|] == ':';
    assert k[|s| + 1..] == Decimal(i) && k[|t| + 1..] == Decimal(j);
    assert k[..|s|] == s && k[..|t|] == t;
    DecimalInjective(i, j);
  }

  /** A string of decimal digits, read. */
  function Read(s: string): int {
    if s == "" then 0 else 10 * Read(s[..|s| - 1]) + (s[|s| - 1] as int - '0' as int)
  }

  /** The index in a key reads as the index, in digits alone. */
  lemma {:induction false} DecimalIsRead(n: nat)
    ensures Read(Decimal(n)) == n && forall i | 0 <= i < |Decimal(n)| :: '0' <= Decimal(n)[i] <= '9'
  {
    if n >= 10 {
      DecimalIsRead(n / 10);
      assert Decimal(n)[..|Decimal(n)| - 1] == Decimal(n / 10);
    } else {
      assert Decimal(n)[..0] == "" && Read("") == 0;
    }
  }

  function Keys(es: seq<Entry>): set<string> {
    set e | e in es :: e.OutpointKey()
  }

  // ---------------------------------------------------------------------------------------------
  // Operations on the entries

  /** `retain` in `compact`. */
  function Live(es: seq<Entry>): seq<Entry> {
    if es == [] then []
    else
      var last := es[|es| - 1];
      Live(es[..|es| - 1]) + if last.Settled() then [] else [last]
  }

  function SlashOne(e: Entry): Entry {
    if !e.claimed && !e.slashed && !e.isInference && e.blockHash != "" then e.(slashed := true) else e
  }

  /** Red-set slashing by a scan of every entry. */
  function SlashReds(es: seq<Entry>, reds: seq<string>): (r: seq<Entry>)
    ensures |r| == |es|
  {
    seq(|es|, i requires 0 <= i < |es| => if es[i].blockHash in reds then SlashOne(es[i]) else es[i])
  }

  function Lower(s: string): string {
    seq(|s|, i requires 0 <= i < |s| => if 'A' <= s[i] <= 'Z' then s[i] - 'A' + 'a' else s[i])
  }

  predicate PaysScript(o: Output, script: string) {
    o.spk.Some? && Lower(o.spk.value.script) == script && o.spk.value.version == 0
  }

  function CoinbaseEntry(txid: string, blockHash: string, daa: nat, amount: nat, index: nat): Entry {
    Entry(txid, blockHash, daa, amount, index, false, false, false, 0, None, false)
  }

  function InferenceEntry(txid: string, daa: nat, amount: nat): Entry {
    Entry(txid, "", daa, amount, 1, false, false, false, 0, None, true)
  }

  /** Append an entry for output `i`, if it pays the escrow script and is not tracked yet. */
  function TrackOutput(es: seq<Entry>, script: string, txid: string, blockHash: string, daa: nat, o: Output,
          i: nat): seq<Entry> {
    if PaysScript(o, script) && Key(txid, i) !in Keys(es)
    then es + [CoinbaseEntry(txid, blockHash, daa, o.amount, i)]
    else es
  }

  /** The first `n` outputs of a coinbase. */
  function TrackOutputs(es: seq<Entry>, script: string, txid: string, blockHash: string, daa: nat, os: seq<Output>,
          n: nat): seq<Entry>
    requires n <= |os|
  {
    if n == 0 then es
    else TrackOutput(TrackOutputs(es, script, txid, blockHash, daa, os, n - 1), script, txid, blockHash, daa,
        os[n - 1], n - 1)
  }

  // ---------------------------------------------------------------------------------------------
  // Claims

  predicate Eligible(e: Entry, daa: nat) {
    && !e.claimed
    && !e.slashed
    && daa >= Add64(Add64(e.confirmDaa, CHALLENGE_WINDOW_BLOCKS), 10)
    && (e.retryAfter.Some? ==> daa >= e.retryAfter.value)
  }

  /** `iter().find`: the first eligible entry of one kind. */
  function FirstEligible(es: seq<Entry>, daa: nat, inference: bool): (r: Option<Entry>)
    ensures r.Some? ==> r.value in es && r.value.isInference == inference && Eligible(r.value, daa)
    ensures r.None? <==> forall e | e in es && e.isInference == inference :: !Eligible(e, daa)
  {
    if es == [] then None
    else if es[0].isInference == inference && Eligible(es[0], daa) then Some(es[0])
    else
      assert es == [es[0]] + es[1..];
      FirstEligible(es[1..], daa, inference)
  }

  /** Inference entries go first. */
  function Pick(es: seq<Entry>, daa: nat): Option<Entry> {
    var inference := FirstEligible(es, daa, true);
    if inference.Some? then inference else FirstEligible(es, daa, false)
  }

  predicate IsHexChar(c: char) {
    '0' <= c <= '9' || 'a' <= c <= 'f' || 'A' <= c <= 'F'
  }

  /** 32 bytes in hexadecimal. */
  predicate IsTxid(s: string) {
    |s| == 64 && forall i | 0 <= i < 64 :: IsHexChar(s[i])
  }

  /** `build_claim_tx`: the amount must exceed the fee, and the id must decode. */
  function BuildClaim(e: Entry): Option<Claim> {
    if e.amount > CLAIM_FEE_SOMPI && IsTxid(e.txid)
    then Some(Claim(e.txid, e.outputIndex, CHALLENGE_WINDOW_BLOCKS, e.amount - CLAIM_FEE_SOMPI))
    else None
  }

  function FindClaim(s: State, daa: nat): (State, Option<Claim>) {
    if s.pendingTxid.Some? then (s, None)
    else
      var picked := Pick(s.entries, daa);
      if picked.None? then (s, None)
      else
        var claim := BuildClaim(picked.value);
        if claim.None? then (s, None)
        else (s.(pendingTxid := Some(picked.value.txid), pendingIndex := Some(picked.value.outputIndex)), claim)
  }

  // ---------------------------------------------------------------------------------------------
  // Events

  function Compact(s: State): State {
    s.(entries := Live(s.entries))
  }

  function CountBlock(s: State): State {
    if s.blocksSinceCompact + 1 >= COMPACT_EVERY_BLOCKS
    then Compact(s.(blocksSinceCompact := 0))
    else s.(blocksSinceCompact := s.blocksSinceCompact + 1)
  }

  function FirstCoinbase(txs: seq<Tx>): Option<Tx> {
    if txs == [] then None else if txs[0].inputs == 0 then Some(txs[0]) else FirstCoinbase(txs[1..])
  }

  /** The coinbase with a usable id, or none: then the block ends before any claim. */
  function UsableCoinbase(b: Block): Option<Tx> {
    var cb := FirstCoinbase(b.txs);
    if cb.Some? && cb.value.txid.Some? && cb.value.txid.value != "" then cb else None
  }

  function BlockHash(b: Block): string {
    if b.verbose.Some? then b.verbose.value.hash else ""
  }

  /** `handle_block` up to the search for a coinbase. */
  function BeforeCoinbase(s: State, b: Block, daa: nat): State {
    var counted := CountBlock(s.(lastDaa := daa));
    if b.verbose.Some? then counted.(entries := SlashReds(counted.entries, b.verbose.value.reds)) else counted
  }

  function HandleBlock(s: State, script: string, b: Block): (State, Option<Claim>) {
    if b.daa.None? then (s, None)
    else
      var daa := b.daa.value;
      var before := BeforeCoinbase(s, b, daa);
      var cb := UsableCoinbase(b);
      if cb.None? then (before, None)
      else
        var os := cb.value.outputs;
        var tracked := before.(entries :=
          TrackOutputs(before.entries, script, cb.value.txid.value, BlockHash(b), daa, os, |os|));
        FindClaim(tracked, daa)
  }

  predicate OccursAt(s: string, sub: string, i: nat)
    requires i <= |s| - |sub|
  {
    s[i..i + |sub|] == sub
  }

  /** `str::contains`. */
  predicate Contains(s: string, sub: string) {
    exists i | 0 <= i <= |s| - |sub| :: OccursAt(s, sub, i)
  }

  /** What a response makes of the entry it is for. */
  function Respond(e: Entry, error: Option<string>, lastDaa: nat): Entry {
    if error.None? then e.(claimed := true)
    else if Contains(error.value, "orphan") then
      if e.orphanRetries + 1 >= MAX_ORPHAN_RETRIES
      then e.(orphanRetries := e.orphanRetries + 1, orphanSlashed := false, slashed := true)
      else e.(orphanRetries := e.orphanRetries + 1, orphanSlashed := true,
              retryAfter := Some(Add64(lastDaa, ORPHAN_RETRY_COOLDOWN_BLOCKS)))
    else if Contains(error.value, "sequence lock") then
      e.(retryAfter := Some(Add64(lastDaa, SEQ_LOCK_RETRY_COOLDOWN_BLOCKS)))
    else e.(slashed := true)
  }

  /** Update the first entry with the outpoint, if any. */
  function RespondFirst(es: seq<Entry>, txid: string, index: nat, error: Option<string>, lastDaa: nat): seq<Entry> {
    if es == [] then []
    else if es[0].Is(txid, index) then [Respond(es[0], error, lastDaa)] + es[1..]
    else [es[0]] + RespondFirst(es[1..], txid, index, error, lastDaa)
  }

  function OnSubmitResponse(s: State, error: Option<string>): State {
    if s.pendingTxid.None? then s
    else
      var index := if s.pendingIndex.Some? then s.pendingIndex.value else 1;
      s.(pendingTxid := None, pendingIndex := None,
         entries := RespondFirst(s.entries, s.pendingTxid.value, index, error, s.lastDaa))
  }

  function TrackInference(s: State, txid: string, daa: nat, amount: nat): State {
    if amount == 0 || Key(txid, 1) in Keys(s.entries) then s
    else s.(entries := s.entries + [InferenceEntry(txid, daa, amount)])
  }
}
