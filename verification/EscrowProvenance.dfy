/**
 Where the entries of the escrow watcher come from and what a block does to them, told from the blocks and payments
 themselves: every entry was loaded, paid, or is an output of a scanned coinbase to the miner's script, and every such
 output becomes one.
 */
module EscrowProvenance {
  import opened Options
  import opened EscrowRules
  import opened EscrowLifecycle
  import opened EscrowQueue

  // ---------- the outputs that pay the miner ----------

  /** Transaction `j` is the block's first without inputs and has an id. */
  ghost predicate IsCoinbase(b: Block, j: nat) {
    && j < |b.txs| && b.txs[j].inputs == 0 && (forall i :: 0 <= i < j ==> b.txs[i].inputs > 0)
    && b.txs[j].txid.Some? && b.txs[j].txid.value != ""
  }

  /** Output `k` of the block's coinbase goes to the miner's script, in version 0. */
  ghost predicate PaidBy(m: Miner, b: Block, j: nat, k: nat) {
    && b.daaScore.Some? && IsCoinbase(b, j) && k < |b.txs[j].outputs|
    && var script := b.txs[j].outputs[k].script;
       script.Some? && script.value.version == 0 && m.lowercase(script.value.hex) == m.scriptHex
  }

  /** The entry is about that output of that block. */
  ghost predicate MinedAs(m: Miner, b: Block, j: nat, k: nat, e: Entry) {
    && PaidBy(m, b, j, k) && At(e) == (b.txs[j].txid.value, k) && e.amount == b.txs[j].outputs[k].amount
    && e.confirmDaa == b.daaScore.value && !e.isInference
    && e.blockHash == if b.verbose.Some? then b.verbose.value.hash else ""
  }

  ghost predicate Mined(m: Miner, b: Block, e: Entry) {
    exists j, k :: MinedAs(m, b, j, k, e)
  }

  ghost predicate PaidAs(ev: Event, e: Entry) {
    && ev.InferencePaid? && At(e) == (ev.txid, 1) && e.amount == ev.amount > 0 && e.confirmDaa == ev.daa
    && e.isInference && e.blockHash == ""
  }

  /** Neither claimed, nor slashed, nor ever refused. */
  predicate Unspent(e: Entry) {
    Live(e) && !e.orphanSlashed && e.orphanRetries == 0 && e.retryAfter.None?
  }

  /** The same escrow, whatever has happened to it. */
  predicate Same(e: Entry, e': Entry) {
    && At(e') == At(e) && e'.blockHash == e.blockHash && e'.confirmDaa == e.confirmDaa
    && e'.amount == e.amount && e'.isInference == e.isInference
  }

  ghost predicate Brought(m: Miner, ev: Event, e: Entry) {
    PaidAs(ev, e) || (ev.BlockSeen? && Mined(m, ev.block, e))
  }

  ghost predicate Held(es: seq<Entry>, e: Entry) {
    exists i :: 0 <= i < |es| && Same(es[i], e)
  }

  lemma {:induction false} CoinbaseIs(b: Block, from: nat, j: nat)
    requires from <= j && IsCoinbase(b, j)
    ensures Coinbase(b.txs, from) == Some(b.txs[j])
    decreases j - from
  {
    if from < j {
      CoinbaseIs(b, from + 1, j);
    }
  }

  lemma {:induction false} CoinbaseAt(txs: seq<Tx>, from: nat) returns (j: nat)
    requires from <= |txs| && Coinbase(txs, from).Some?
    ensures from <= j < |txs| && txs[j] == Coinbase(txs, from).value && txs[j].inputs == 0
    ensures forall i :: from <= i < j ==> txs[i].inputs > 0
    decreases |txs| - from
  {
    if txs[from].inputs == 0 {
      j := from;
    } else {
      j := CoinbaseAt(txs, from + 1);
    }
  }

  lemma ScannedAt(b: Block) returns (j: nat)
    requires Scanned(b).Some?
    ensures IsCoinbase(b, j) && Scanned(b) == Some(b.txs[j])
  {
    j := CoinbaseAt(b.txs, 0);
  }

  // ---------- every entry has an origin ----------

  lemma {:induction false} OutputsFrom(m: Miner, b: Block, j: nat, es: seq<Entry>, k: nat, e: Entry)
    requires b.daaScore.Some? && IsCoinbase(b, j) && k <= |b.txs[j].outputs|
    requires e in TrackOutputs(m, es, b.txs[j].txid.value, BlockHash(b), b.daaScore.value, b.txs[j].outputs, k)
    ensures e in es || (Mined(m, b, e) && Unspent(e))
    decreases k
  {
    if k > 0 {
      var before := TrackOutputs(m, es, b.txs[j].txid.value, BlockHash(b), b.daaScore.value, b.txs[j].outputs, k - 1);
      if e in before {
        OutputsFrom(m, b, j, es, k - 1, e);
      } else {
        assert MinedAs(m, b, j, k - 1, e);
      }
    }
  }

  lemma StepFrom(m: Miner, s: State, ev: Event, e: Entry)
    requires e in Step(m, s, ev).0.entries
    ensures Held(s.entries, e) || Brought(m, ev, e)
  {
    match ev
    case BlockSeen(b) =>
      if b.daaScore.Some? {
        BlockFrom(m, s, b, e);
      } else {
        HeldIn(s.entries, e);
      }
    case Answered(error) =>
      var i: nat :| i < |Step(m, s, ev).0.entries| && Step(m, s, ev).0.entries[i] == e;
      if s.pending.Some? {
        SettleEvolves(s.entries, s.pending.value, error, s.lastDaa);
        assert Later(s.entries[i], e);
      }
      assert Same(s.entries[i], e);
    case InferencePaid(txid, daa, amount) =>
      if e in s.entries {
        HeldIn(s.entries, e);
      }
  }

  lemma HeldIn(es: seq<Entry>, e: Entry)
    requires e in es
    ensures Held(es, e)
  {
    var i :| 0 <= i < |es| && es[i] == e;
    assert Same(es[i], e);
  }

  lemma BlockFrom(m: Miner, s: State, b: Block, e: Entry)
    requires b.daaScore.Some? && e in HandleBlock(m, s, b).0.entries
    ensures Held(s.entries, e) || Mined(m, b, e)
  {
    var s1 := AfterHeader(s, b.daaScore.value);
    var reds := SlashReds(s1.entries, Reds(b));
    if Scanned(b).Some? {
      var j := ScannedAt(b);
      OutputsFrom(m, b, j, reds, |b.txs[j].outputs|, e);
    }
    if e in reds {
      var i: nat :| i < |reds| && reds[i] == e;
      SlashRedsAt(s1.entries, Reds(b), i);
      KeepLiveContents(s.entries, s1.entries[i]);
      var q :| 0 <= q < |s.entries| && s.entries[q] == s1.entries[i];
      assert Same(s.entries[q], e);
    }
  }

  /** Every entry of a run was loaded, paid by an event of the run, or is an output of a block of the run. */
  lemma {:induction false} Provenance(m: Miner, s: State, evs: seq<Event>, e: Entry)
    requires Held(Run(m, s, evs).entries, e)
    ensures Held(s.entries, e) || exists i :: 0 <= i < |evs| && Brought(m, evs[i], e)
    decreases |evs|
  {
    if evs != [] {
      var n := |evs| - 1;
      var es := Run(m, s, evs).entries;
      var i :| 0 <= i < |es| && Same(es[i], e);
      StepFrom(m, Run(m, s, evs[..n]), evs[n], es[i]);
      if Brought(m, evs[n], es[i]) {
        BroughtSame(m, evs[n], es[i], e);
      } else {
        HeldSame(Run(m, s, evs[..n]).entries, es[i], e);
        Provenance(m, s, evs[..n], e);
        if !Held(s.entries, e) {
          var q :| 0 <= q < n && Brought(m, evs[..n][q], e);
          assert evs[..n][q] == evs[q];
        }
      }
    }
  }

  lemma HeldSame(es: seq<Entry>, d: Entry, e: Entry)
    requires Held(es, d) && Same(d, e)
    ensures Held(es, e)
  {
    var i :| 0 <= i < |es| && Same(es[i], d);
    assert Same(es[i], e);
  }

  lemma BroughtSame(m: Miner, ev: Event, d: Entry, e: Entry)
    requires Brought(m, ev, d) && Same(d, e)
    ensures Brought(m, ev, e)
  {
    if !PaidAs(ev, d) {
      var j, k :| MinedAs(m, ev.block, j, k, d);
      assert MinedAs(m, ev.block, j, k, e);
    }
  }

  // ---------- and every payment becomes an entry ----------

  lemma {:induction false} OutputTracked(m: Miner, b: Block, j: nat, es: seq<Entry>, n: nat, k: nat)
    requires PaidBy(m, b, j, k) && k < n <= |b.txs[j].outputs|
    ensures var after := TrackOutputs(m, es, b.txs[j].txid.value, BlockHash(b), b.daaScore.value, b.txs[j].outputs, n);
            Tracked(after, (b.txs[j].txid.value, k))
    decreases n
  {
    var (txid, daa, outs) := (b.txs[j].txid.value, b.daaScore.value, b.txs[j].outputs);
    var before := TrackOutputs(m, es, txid, BlockHash(b), daa, outs, n - 1);
    var after := TrackOutputs(m, es, txid, BlockHash(b), daa, outs, n);
    if k < n - 1 {
      OutputTracked(m, b, j, es, n - 1, k);
      var i :| 0 <= i < |before| && At(before[i]) == (txid, k);
      assert after[i] == before[i];
    } else if !Tracked(before, (txid, k)) {
      assert At(after[|before|]) == (txid, k);
    }
  }

  /** After a scanned block every coinbase output to the miner's script is tracked; one new to the watcher as it stands in the block. */
  lemma OutputsAreTracked(m: Miner, s: State, b: Block, j: nat, k: nat)
    requires PaidBy(m, b, j, k)
    ensures Tracked(HandleBlock(m, s, b).0.entries, (b.txs[j].txid.value, k))
    ensures !Tracked(Base(s, BlockSeen(b)), (b.txs[j].txid.value, k)) ==>
              exists e :: e in HandleBlock(m, s, b).0.entries && Mined(m, b, e) && Unspent(e) && At(e) == (b.txs[j].txid.value, k)
  {
    CoinbaseIs(b, 0, j);
    var o := (b.txs[j].txid.value, k);
    var s2 := AfterReds(AfterHeader(s, b.daaScore.value), Reds(b));
    OutputTracked(m, b, j, s2.entries, |b.txs[j].outputs|, k);
    var es := HandleBlock(m, s, b).0.entries;
    var i :| 0 <= i < |es| && At(es[i]) == o;
    OutputsFrom(m, b, j, s2.entries, |b.txs[j].outputs|, es[i]);
    if !(Mined(m, b, es[i]) && Unspent(es[i])) {
      SlashRedsEvolves(Base(s, BlockSeen(b)), Reds(b));
      EvolvesKeepsTracked(Base(s, BlockSeen(b)), s2.entries, o);
      var q :| 0 <= q < |s2.entries| && s2.entries[q] == es[i];
    }
  }

  /** A paid inference escrow is tracked, and a payment of nothing changes nothing. */
  lemma PaymentIsTracked(m: Miner, s: State, txid: string, daa: nat, amount: nat)
    ensures var ev := InferencePaid(txid, daa, amount);
            var es := Step(m, s, ev).0.entries;
            && (amount == 0 ==> Step(m, s, ev).0 == s)
            && (amount > 0 ==> Tracked(es, (txid, 1)))
            && (amount > 0 && !Tracked(s.entries, (txid, 1)) ==> |es| == |s.entries| + 1 && PaidAs(ev, es[|s.entries|]) && Unspent(es[|s.entries|]))
  {
    if amount > 0 && !Tracked(s.entries, (txid, 1)) {
      var es := Step(m, s, InferencePaid(txid, daa, amount)).0.entries;
      assert At(es[|s.entries|]) == (txid, 1);
    }
  }

  // ---------- what a block does to the entries it finds ----------

  /**
   A scored block drops done entries when it is the 2000th since the last time, slashes exactly the live rewards of the
   blocks it lists as red, leaves every other entry as it is, and becomes the last score seen.
   */
  lemma BlockEffect(m: Miner, s: State, b: Block, i: nat)
    requires b.daaScore.Some? && s.sinceCompact < 2_000
    ensures var (es, s') := (if s.sinceCompact == 1_999 then KeepLive(s.entries) else s.entries, HandleBlock(m, s, b).0);
            && s'.lastDaa == b.daaScore.value && s'.sinceCompact == (s.sinceCompact + 1) % 2_000
            && |es| <= |s'.entries|
            && (i < |es| ==>
                 var red := Live(es[i]) && !es[i].isInference && es[i].blockHash != "" && b.verbose.Some?
                            && es[i].blockHash in b.verbose.value.reds;
                 s'.entries[i] == if red then es[i].(slashed := true) else es[i])
  {
    var daa := b.daaScore.value;
    var s1 := AfterHeader(s, daa);
    var s2 := AfterReds(s1, Reds(b));
    if i < |s1.entries| {
      SlashRedsAt(s1.entries, Reds(b), i);
    }
    if Scanned(b).Some? {
      var tx := Scanned(b).value;
      TrackOutputsEvolves(m, s2.entries, tx.txid.value, BlockHash(b), daa, tx.outputs, |tx.outputs|);
    }
  }

  /** The count of scored blocks since the last compaction stays below 2000 over every run. */
  lemma {:induction false} CountStays(m: Miner, s: State, evs: seq<Event>)
    requires s.sinceCompact < 2_000
    ensures Run(m, s, evs).sinceCompact < 2_000
  {
    if evs != [] {
      var n := |evs| - 1;
      CountStays(m, s, evs[..n]);
      if evs[n].BlockSeen? && evs[n].block.daaScore.Some? {
        BlockEffect(m, Run(m, s, evs[..n]), evs[n].block, 0);
      }
    }
  }

  /** A transaction id can be claimed under when it is 64 hexadecimal characters. */
  lemma IsHashIff(txid: string)
    ensures IsHash(txid) <==> |txid| == 64 && forall c :: c in txid ==> c in "0123456789abcdefABCDEF"
  {
    forall c: char
      ensures HexDigit(c) <==> c in "0123456789abcdefABCDEF"
    {
      HexDigitIs(c);
    }
    if IsHash(txid) {
      forall c | c in txid
        ensures HexDigit(c)
      {
        var i :| 0 <= i < |txid| && txid[i] == c;
      }
    }
    if |txid| == 64 && forall c :: c in txid ==> c in "0123456789abcdefABCDEF" {
      forall i | 0 <= i < |txid|
        ensures HexDigit(txid[i])
      {
        assert txid[i] in txid;
      }
    }
  }

  lemma HexDigitIs(c: char)
    ensures HexDigit(c) <==> c in "0123456789abcdefABCDEF"
  {
    var all := "0123456789abcdefABCDEF";
    if HexDigit(c) {
      var n := c as int;
      var i := if n <= 57 then n - 48 else if n >= 97 then n - 87 else n - 49;
      assert 0 <= i < 22 && all[i] == c;
    }
  }

  /** A text contains a part when it is the part with something before and after. */
  lemma ContainsIff(text: string, part: string)
    ensures Contains(text, part) <==> exists i, j :: 0 <= i <= j <= |text| && text[i..j] == part
  {
    if Contains(text, part) {
      var i :| 0 <= i <= |text| && part <= text[i..];
      assert text[i..i + |part|] == text[i..][..|part|];
    }
    if i, j :| 0 <= i <= j <= |text| && text[i..j] == part {
      assert text[i..][..j - i] == part;
    }
  }
}
