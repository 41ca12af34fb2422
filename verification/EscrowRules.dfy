/**
 The escrow claim watcher of `src/escrow.rs` as a state machine over its entry list alone. The class in `EscrowWatcher`
 keeps two indexes beside the list and is proved to take these steps; here the list is simply searched.
 */
module EscrowRules {
  import opened Options

  const CHALLENGE_WINDOW: nat := 36_000
  const MARGIN: nat := 10
  const CLAIM_FEE: nat := 30_000_000
  const COMPACT_EVERY: nat := 2_000
  const ORPHAN_COOLDOWN: nat := 100
  const SEQ_LOCK_COOLDOWN: nat := 20
  const MAX_ORPHAN_RETRIES: nat := 10

  /** Transaction id and output index. */
  type Outpoint = (string, nat)

  datatype Entry = Entry(
    txid: string,
    blockHash: string,
    confirmDaa: nat,
    amount: nat,
    outputIndex: nat,
    claimed: bool,
    slashed: bool,
    orphanSlashed: bool,
    orphanRetries: nat,
    retryAfter: Option<nat>,
    isInference: bool)

  datatype Script = Script(version: nat, hex: string)
  datatype Output = Output(amount: nat, script: Option<Script>)
  datatype Tx = Tx(inputs: nat, outputs: seq<Output>, txid: Option<string>)
  datatype Verbose = Verbose(hash: string, reds: seq<string>)
  datatype Block = Block(daaScore: Option<nat>, verbose: Option<Verbose>, txs: seq<Tx>)

  /** What a claim transaction spends and pays. */
  datatype Claim = Claim(spends: Outpoint, sequence: nat, amountOut: nat)

  datatype State = State(entries: seq<Entry>, pending: Option<Outpoint>, lastDaa: nat, sinceCompact: nat)

  /** The miner's own script, and the library's lower-casing. */
  datatype Miner = Miner(scriptHex: string, lowercase: string -> string)

  function At(e: Entry): Outpoint {
    (e.txid, e.outputIndex)
  }

  predicate Live(e: Entry) {
    !e.claimed && !e.slashed
  }

  // ---------- block handling ----------

  function KeepLive(es: seq<Entry>): (r: seq<Entry>)
    ensures |r| <= |es|
  {
    if es == [] then []
    else
      var last := es[|es| - 1];
      KeepLive(es[..|es| - 1]) + if Live(last) then [last] else []
  }

  function RedMark(e: Entry, red: string): Entry {
    if Live(e) && !e.isInference && e.blockHash != "" && e.blockHash == red then e.(slashed := true) else e
  }

  function SlashRed(es: seq<Entry>, red: string): (r: seq<Entry>)
    ensures |r| == |es|
    ensures forall i :: 0 <= i < |es| ==> r[i] == RedMark(es[i], red)
  {
    seq(|es|, i requires 0 <= i < |es| => RedMark(es[i], red))
  }

  function SlashReds(es: seq<Entry>, reds: seq<string>): (r: seq<Entry>)
    ensures |r| == |es|
  {
    if reds == [] then es else SlashRed(SlashReds(es, reds[..|reds| - 1]), reds[|reds| - 1])
  }

  predicate Tracked(es: seq<Entry>, o: Outpoint) {
    exists i :: 0 <= i < |es| && At(es[i]) == o
  }

  predicate PaysMiner(m: Miner, out: Output) {
    out.script.Some? && m.lowercase(out.script.value.hex) == m.scriptHex && out.script.value.version == 0
  }

  function CoinbaseEntry(txid: string, blockHash: string, daa: nat, amount: nat, index: nat): Entry {
    Entry(txid, blockHash, daa, amount, index, false, false, false, 0, None, false)
  }

  function InferenceEntry(txid: string, daa: nat, amount: nat): Entry {
    Entry(txid, "", daa, amount, 1, false, false, false, 0, None, true)
  }

  /** The entries after looking at the first `k` coinbase outputs. */
  function TrackOutputs(m: Miner, es: seq<Entry>, txid: string, blockHash: string, daa: nat, outs: seq<Output>, k: nat): seq<Entry>
    requires k <= |outs|
    decreases k
  {
    if k == 0 then es
    else
      var before := TrackOutputs(m, es, txid, blockHash, daa, outs, k - 1);
      if PaysMiner(m, outs[k - 1]) && !Tracked(before, (txid, k - 1))
      then before + [CoinbaseEntry(txid, blockHash, daa, outs[k - 1].amount, k - 1)]
      else before
  }

  /** The first transaction without inputs. */
  function Coinbase(txs: seq<Tx>, from: nat): (r: Option<Tx>)
    requires from <= |txs|
    decreases |txs| - from
  {
    if from == |txs| then None
    else if txs[from].inputs == 0 then Some(txs[from])
    else Coinbase(txs, from + 1)
  }

  function BlockHash(b: Block): string {
    if b.verbose.Some? then b.verbose.value.hash else ""
  }

  function Reds(b: Block): seq<string> {
    if b.verbose.Some? then b.verbose.value.reds else []
  }

  /** The coinbase whose outputs are scanned, when the block shows one with a known id. */
  function Scanned(b: Block): (r: Option<Tx>)
    ensures r.Some? ==> r.value.txid.Some?
  {
    var cb := Coinbase(b.txs, 0);
    if cb.Some? && cb.value.txid.Some? && cb.value.txid.value != "" then cb else None
  }

  function AfterHeader(s: State, daa: nat): State {
    var n := s.sinceCompact + 1;
    if n >= COMPACT_EVERY
    then State(KeepLive(s.entries), s.pending, daa, 0)
    else s.(lastDaa := daa, sinceCompact := n)
  }

  function AfterReds(s: State, reds: seq<string>): State {
    s.(entries := SlashReds(s.entries, reds))
  }

  function AfterCoinbase(m: Miner, s: State, b: Block, tx: Tx, daa: nat): State
    requires tx.txid.Some?
  {
    s.(entries := TrackOutputs(m, s.entries, tx.txid.value, BlockHash(b), daa, tx.outputs, |tx.outputs|))
  }

  // ---------- claims ----------

  predicate Eligible(e: Entry, daa: nat) {
    Live(e) && daa >= e.confirmDaa + CHALLENGE_WINDOW + MARGIN && (e.retryAfter.Some? ==> daa >= e.retryAfter.value)
  }

  /** The first eligible entry of one kind. */
  function FirstEligible(es: seq<Entry>, inference: bool, daa: nat, from: nat): (r: Option<nat>)
    requires from <= |es|
    ensures r.Some? ==> from <= r.value < |es| && es[r.value].isInference == inference && Eligible(es[r.value], daa)
    ensures var end := if r.Some? then r.value else |es|;
            forall i :: from <= i < end ==> es[i].isInference != inference || !Eligible(es[i], daa)
    decreases |es| - from
  {
    if from == |es| then None
    else if es[from].isInference == inference && Eligible(es[from], daa) then Some(from)
    else FirstEligible(es, inference, daa, from + 1)
  }

  function NextEligible(es: seq<Entry>, daa: nat): (r: Option<nat>)
    ensures r.Some? ==> r.value < |es| && Eligible(es[r.value], daa)
  {
    var inference := FirstEligible(es, true, daa, 0);
    if inference.Some? then inference else FirstEligible(es, false, daa, 0)
  }

  predicate HexDigit(c: char) {
    '0' <= c <= '9' || 'a' <= c <= 'f' || 'A' <= c <= 'F'
  }

  /** 32 bytes in hexadecimal. */
  predicate IsHash(txid: string) {
    |txid| == 64 && forall i :: 0 <= i < |txid| ==> HexDigit(txid[i])
  }

  function BuildClaim(e: Entry): Option<Claim> {
    if e.amount > CLAIM_FEE && IsHash(e.txid)
    then Some(Claim(At(e), CHALLENGE_WINDOW, e.amount - CLAIM_FEE))
    else None
  }

  function FindClaim(s: State, daa: nat): (State, Option<Claim>) {
    if s.pending.Some? then (s, None)
    else
      var next := NextEligible(s.entries, daa);
      if next.None? then (s, None)
      else
        var claim := BuildClaim(s.entries[next.value]);
        if claim.None? then (s, None) else (s.(pending := Some(claim.value.spends)), claim)
  }

  function HandleBlock(m: Miner, s: State, b: Block): (State, Option<Claim>) {
    if b.daaScore.None? then (s, None)
    else
      var daa := b.daaScore.value;
      var s' := AfterReds(AfterHeader(s, daa), Reds(b));
      var tx := Scanned(b);
      if tx.None? then (s', None) else FindClaim(AfterCoinbase(m, s', b, tx.value, daa), daa)
  }

  // ---------- responses and inference escrows ----------

  predicate Contains(text: string, part: string) {
    exists i :: 0 <= i <= |text| && part <= text[i..]
  }

  /** What an answer does to the entry it concerns; `None` is acceptance. */
  function Settled(e: Entry, error: Option<string>, daa: nat): Entry {
    if error.None? then e.(claimed := true)
    else if Contains(error.value, "orphan") then
      var retries := e.orphanRetries + 1;
      if retries >= MAX_ORPHAN_RETRIES
      then e.(orphanRetries := retries, orphanSlashed := false, slashed := true)
      else e.(orphanRetries := retries, orphanSlashed := true, retryAfter := Some(daa + ORPHAN_COOLDOWN))
    else if Contains(error.value, "sequence lock") then e.(retryAfter := Some(daa + SEQ_LOCK_COOLDOWN))
    else e.(slashed := true)
  }

  /** The first entry at an outpoint. */
  function Position(es: seq<Entry>, o: Outpoint, from: nat): (r: Option<nat>)
    requires from <= |es|
    ensures r.Some? ==> from <= r.value < |es| && At(es[r.value]) == o
    ensures var end := if r.Some? then r.value else |es|; forall i :: from <= i < end ==> At(es[i]) != o
    decreases |es| - from
  {
    if from == |es| then None else if At(es[from]) == o then Some(from) else Position(es, o, from + 1)
  }

  function SettleAt(es: seq<Entry>, o: Outpoint, error: Option<string>, daa: nat): (r: seq<Entry>)
    ensures |r| == |es|
  {
    var p := Position(es, o, 0);
    if p.None? then es else es[p.value := Settled(es[p.value], error, daa)]
  }

  function OnSubmitResponse(s: State, error: Option<string>): State {
    if s.pending.None? then s
    else s.(entries := SettleAt(s.entries, s.pending.value, error, s.lastDaa), pending := None)
  }

  function TrackInference(s: State, txid: string, daa: nat, amount: nat): State {
    if amount == 0 || Tracked(s.entries, (txid, 1)) then s
    else s.(entries := s.entries + [InferenceEntry(txid, daa, amount)])
  }

  // ---------- runs ----------

  datatype Event =
    | BlockSeen(block: Block)
    | Answered(error: Option<string>)
    | InferencePaid(txid: string, daa: nat, amount: nat)

  function Step(m: Miner, s: State, ev: Event): (State, Option<Claim>) {
    match ev
    case BlockSeen(b) => HandleBlock(m, s, b)
    case Answered(error) => (OnSubmitResponse(s, error), None)
    case InferencePaid(txid, daa, amount) => (TrackInference(s, txid, daa, amount), None)
  }

  /** The state after a run. */
  function Run(m: Miner, s: State, evs: seq<Event>): State {
    if evs == [] then s else Step(m, Run(m, s, evs[..|evs| - 1]), evs[|evs| - 1]).0
  }

  /** The claim returned by the `i`-th step of a run. */
  function ClaimAt(m: Miner, s: State, evs: seq<Event>, i: nat): Option<Claim>
    requires i < |evs|
  {
    Step(m, Run(m, s, evs[..i]), evs[i]).1
  }
}
