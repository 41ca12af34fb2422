/**
 The escrow watcher as `src/escrow.rs` runs it: an entry list with a set of outpoint keys and an index from block hash
 to positions, each method proved to take the step of `EscrowRules` and to keep both indexes exact.
 */
module EscrowWatcher {
  import opened Options
  import opened EscrowRules
  import opened EscrowLifecycle

  // ---------- the two indexes ----------

  function Decimal(n: nat): (s: string)
    ensures |s| > 0 && forall i :: 0 <= i < |s| ==> '0' <= s[i] <= '9'
  {
    var digit := [(n % 10 + '0' as nat) as char];
    if n < 10 then digit else Decimal(n / 10) + digit
  }

  lemma {:induction false} DecimalInjective(m: nat, n: nat)
    requires Decimal(m) == Decimal(n)
    ensures m == n
  {
    var s, t := Decimal(m), Decimal(n);
    assert s[|s| - 1] == t[|t| - 1] && s[..|s| - 1] == t[..|t| - 1];
    assert m >= 10 ==> s[..|s| - 1] == Decimal(m / 10);
    assert n >= 10 ==> t[..|t| - 1] == Decimal(n / 10);
    if m >= 10 && n >= 10 {
      DecimalInjective(m / 10, n / 10);
    }
  }

  /** `"{txid}:{index}"`. */
  function Key(o: Outpoint): string {
    o.0 + [':'] + Decimal(o.1)
  }

  /** Keys name outpoints: the last colon separates id and index, whatever the id holds. */
  lemma KeyInjective(o: Outpoint, p: Outpoint)
    requires Key(o) == Key(p)
    ensures o == p
  {
    var k, a, b := Key(o), Decimal(o.1), Decimal(p.1);
    assert k[|k| - |a|..] == a && k[|k| - |b|..] == b;
    assert k[|k| - |a| - 1] == ':' && k[|k| - |b| - 1] == ':';
    DecimalInjective(o.1, p.1);
    assert k[..|k| - |a| - 1] == o.0 && k[..|k| - |a| - 1] == p.0;
  }

  function Keys(es: seq<Entry>): set<string> {
    set i | 0 <= i < |es| :: Key(At(es[i]))
  }

  lemma KeysTracked(es: seq<Entry>, o: Outpoint)
    ensures Key(o) in Keys(es) <==> Tracked(es, o)
  {
    if Key(o) in Keys(es) {
      var i :| 0 <= i < |es| && Key(At(es[i])) == Key(o);
      KeyInjective(At(es[i]), o);
    }
  }

  /** Positions of the entries from one block, ascending. */
  function Positions(es: seq<Entry>, hash: string): seq<nat> {
    if es == [] then []
    else
      var n := |es| - 1;
      Positions(es[..n], hash) + if es[n].blockHash == hash then [n] else []
  }

  lemma {:induction false} PositionsExact(es: seq<Entry>, hash: string, i: nat)
    ensures i in Positions(es, hash) <==> i < |es| && es[i].blockHash == hash
  {
    if es != [] {
      PositionsExact(es[..|es| - 1], hash, i);
    }
  }

  lemma {:induction false} PositionsAscend(es: seq<Entry>, hash: string, a: nat, b: nat)
    requires a < b < |Positions(es, hash)|
    ensures Positions(es, hash)[a] < Positions(es, hash)[b]
  {
    var front := es[..|es| - 1];
    var before := Positions(front, hash);
    if b < |before| {
      PositionsAscend(front, hash, a, b);
    } else {
      PositionsExact(front, hash, before[a]);
    }
  }

  lemma {:induction false} PositionsSame(es: seq<Entry>, es': seq<Entry>, hash: string)
    requires |es| == |es'| && forall i :: 0 <= i < |es| ==> es'[i].blockHash == es[i].blockHash
    ensures Positions(es', hash) == Positions(es, hash)
  {
    if es != [] {
      var n := |es| - 1;
      PositionsSame(es[..n], es'[..n], hash);
    }
  }

  /** The index holds a list for exactly the nonempty hashes of entries. */
  ghost predicate Indexes(index: map<string, seq<nat>>, es: seq<Entry>) {
    forall hash :: (hash in index <==> hash != "" && Positions(es, hash) != [])
                   && (hash in index ==> index[hash] == Positions(es, hash))
  }

  /** `entry(hash).or_default().push(i)`, skipped for an empty hash. */
  function Pushed(index: map<string, seq<nat>>, hash: string, i: nat): map<string, seq<nat>> {
    if hash == "" then index
    else index[hash := (if hash in index then index[hash] else []) + [i]]
  }

  lemma IndexesPush(index: map<string, seq<nat>>, es: seq<Entry>, e: Entry)
    requires Indexes(index, es)
    ensures Indexes(Pushed(index, e.blockHash, |es|), es + [e])
  {
    forall hash
      ensures Positions(es + [e], hash) == Positions(es, hash) + if e.blockHash == hash then [|es|] else []
    {
      assert (es + [e])[..|es|] == es;
    }
  }

  lemma KeysPush(es: seq<Entry>, e: Entry)
    ensures Keys(es + [e]) == Keys(es) + {Key(At(e))}
  {
    var es' := es + [e];
    forall k | k in Keys(es) + {Key(At(e))}
      ensures k in Keys(es')
    {
      if k in Keys(es) {
        var i :| 0 <= i < |es| && Key(At(es[i])) == k;
        assert es'[i] == es[i];
      } else {
        assert es'[|es|] == e;
      }
    }
  }

  lemma SameIdentity(index: map<string, seq<nat>>, es: seq<Entry>, es': seq<Entry>)
    requires |es| == |es'|
    requires forall i :: 0 <= i < |es| ==> es'[i].blockHash == es[i].blockHash && At(es'[i]) == At(es[i])
    ensures Keys(es') == Keys(es)
    ensures Indexes(index, es) ==> Indexes(index, es')
  {
    forall hash
      ensures Positions(es', hash) == Positions(es, hash)
    {
      PositionsSame(es, es', hash);
    }
    forall k
      ensures k in Keys(es') <==> k in Keys(es)
    {
      if i :| 0 <= i < |es| && Key(At(es[i])) == k {
        assert Key(At(es'[i])) == k;
      }
      if i :| 0 <= i < |es'| && Key(At(es'[i])) == k {
        assert Key(At(es[i])) == k;
      }
    }
  }

  // ---------- the watcher ----------

  class Watcher {
    const miner: Miner
    var entries: seq<Entry>
    var pendingTxid: Option<string>
    var pendingIndex: Option<nat>
    var lastDaa: nat
    var outpoints: set<string>
    var blockIndex: map<string, seq<nat>>
    var sinceCompact: nat

    ghost predicate Valid()
      reads this
    {
      && outpoints == Keys(entries)
      && Indexes(blockIndex, entries)
      && (pendingTxid.Some? <==> pendingIndex.Some?)
    }

    ghost function Abstract(): State
      reads this
    {
      State(entries,
            if pendingTxid.Some? && pendingIndex.Some? then Some((pendingTxid.value, pendingIndex.value)) else None,
            lastDaa, sinceCompact)
    }

    constructor (miner: Miner, loaded: seq<Entry>)
      ensures Valid() && this.miner == miner && Abstract() == State(loaded, None, 0, 0)
    {
      this.miner := miner;
      entries := loaded;
      pendingTxid, pendingIndex, lastDaa, sinceCompact := None, None, 0, 0;
      outpoints, blockIndex := {}, map[];
      new;
      RebuildIndexes();
    }

    method RebuildIndexes()
      modifies this`outpoints, this`blockIndex
      ensures outpoints == Keys(entries) && Indexes(blockIndex, entries)
    {
      outpoints, blockIndex := {}, map[];
      for i := 0 to |entries|
        invariant outpoints == Keys(entries[..i]) && Indexes(blockIndex, entries[..i])
      {
        var e := entries[i];
        assert entries[..i + 1] == entries[..i] + [e];
        KeysPush(entries[..i], e);
        IndexesPush(blockIndex, entries[..i], e);
        outpoints := outpoints + {Key(At(e))};
        blockIndex := Pushed(blockIndex, e.blockHash, i);
      }
      assert entries[..|entries|] == entries;
    }

    method Compact()
      requires Valid()
      modifies this`entries, this`outpoints, this`blockIndex
      ensures Valid() && Abstract() == old(Abstract()).(entries := KeepLive(old(entries)))
    {
      var before := |entries|;
      KeepLiveShorter(entries);
      entries := KeepLive(entries);
      if |entries| != before {
        RebuildIndexes();
      }
    }

    /** Slash the entries of one red block, found through the index. */
    method SlashRedBlock(red: string)
      requires Valid()
      modifies this`entries
      ensures Valid() && Abstract() == old(Abstract()).(entries := SlashRed(old(entries), red))
    {
      ghost var was := entries;
      if red !in blockIndex {
        NoneRed(was, red);
        return;
      }
      var indices := blockIndex[red];
      for k := 0 to |indices|
        invariant |entries| == |was|
        invariant forall i :: 0 <= i < |was| ==> entries[i] == if i in indices[..k] then RedMark(was[i], red) else was[i]
      {
        var i := indices[k];
        PositionsExact(was, red, i);
        NotBefore(was, red, k);
        if i < |entries| {
          var e := entries[i];
          if !e.claimed && !e.slashed && !e.isInference && e.blockHash != "" {
            entries := entries[i := e.(slashed := true)];
          }
        }
        assert indices[..k + 1] == indices[..k] + [i];
      }
      assert indices[..|indices|] == indices;
      forall i | 0 <= i < |was|
        ensures entries[i] == RedMark(was[i], red)
      {
        PositionsExact(was, red, i);
      }
      SameIdentity(blockIndex, was, entries);
      assert entries == SlashRed(was, red);
    }

    method SlashRedBlocks(reds: seq<string>)
      requires Valid()
      modifies this`entries
      ensures Valid() && Abstract() == old(Abstract()).(entries := SlashReds(old(entries), reds))
    {
      for k := 0 to |reds|
        invariant Valid() && Abstract() == old(Abstract()).(entries := SlashReds(old(entries), reds[..k]))
      {
        assert reds[..k + 1][..k] == reds[..k];
        SlashRedBlock(reds[k]);
      }
      assert reds[..|reds|] == reds;
    }

    /** Append an entry whose key is new to both indexes. */
    method Append(e: Entry)
      requires Valid()
      modifies this`entries, this`outpoints, this`blockIndex
      ensures Valid() && Abstract() == old(Abstract()).(entries := old(entries) + [e])
    {
      KeysPush(entries, e);
      IndexesPush(blockIndex, entries, e);
      blockIndex := Pushed(blockIndex, e.blockHash, |entries|);
      outpoints := outpoints + {Key(At(e))};
      entries := entries + [e];
    }

    method TrackCoinbase(txid: string, blockHash: string, daa: nat, outs: seq<Output>)
      requires Valid()
      modifies this`entries, this`outpoints, this`blockIndex
      ensures Valid()
      ensures Abstract()
           == old(Abstract()).(entries := TrackOutputs(miner, old(entries), txid, blockHash, daa, outs, |outs|))
    {
      for k := 0 to |outs|
        invariant Valid()
        invariant Abstract()
               == old(Abstract()).(entries := TrackOutputs(miner, old(entries), txid, blockHash, daa, outs, k))
      {
        KeysTracked(entries, (txid, k));
        if PaysMiner(miner, outs[k]) && Key((txid, k)) !in outpoints {
          Append(CoinbaseEntry(txid, blockHash, daa, outs[k].amount, k));
        }
      }
    }

    /** The first eligible entry of one kind. */
    method SearchEligible(inference: bool, daa: nat) returns (r: Option<nat>)
      ensures r == FirstEligible(entries, inference, daa, 0)
    {
      for i := 0 to |entries|
        invariant FirstEligible(entries, inference, daa, 0) == FirstEligible(entries, inference, daa, i)
      {
        if entries[i].isInference == inference && Eligible(entries[i], daa) {
          return Some(i);
        }
      }
      return None;
    }

    method Find(daa: nat) returns (claim: Option<Claim>)
      requires Valid()
      modifies this`pendingTxid, this`pendingIndex
      ensures Valid() && (Abstract(), claim) == FindClaim(old(Abstract()), daa)
    {
      if pendingTxid.Some? {
        return None;
      }
      var next := SearchEligible(true, daa);
      if next.None? {
        next := SearchEligible(false, daa);
      }
      if next.None? {
        return None;
      }
      var entry := entries[next.value];
      claim := BuildClaim(entry);
      if claim.Some? {
        pendingIndex := Some(entry.outputIndex);
        pendingTxid := Some(entry.txid);
      }
    }

    method OnBlock(block: Block) returns (claim: Option<Claim>)
      requires Valid()
      modifies this
      ensures Valid() && (Abstract(), claim) == HandleBlock(miner, old(Abstract()), block)
    {
      if block.daaScore.None? {
        return None;
      }
      var daa := block.daaScore.value;
      lastDaa := daa;
      sinceCompact := sinceCompact + 1;
      if sinceCompact >= COMPACT_EVERY {
        sinceCompact := 0;
        Compact();
      }
      assert Abstract() == AfterHeader(old(Abstract()), daa);
      SlashRedBlocks(Reds(block));
      var coinbase := Scanned(block);
      if coinbase.None? {
        return None;
      }
      TrackCoinbase(coinbase.value.txid.value, BlockHash(block), daa, coinbase.value.outputs);
      claim := Find(daa);
    }

    method OnResponse(error: Option<string>)
      requires Valid()
      modifies this`entries, this`pendingTxid, this`pendingIndex
      ensures Valid() && Abstract() == OnSubmitResponse(old(Abstract()), error)
    {
      if pendingTxid.None? {
        return;
      }
      var txid := pendingTxid.value;
      var index := if pendingIndex.Some? then pendingIndex.value else 1;
      pendingTxid, pendingIndex := None, None;
      var at := Position(entries, (txid, index), 0);
      if at.Some? {
        ghost var was := entries;
        entries := entries[at.value := Settled(entries[at.value], error, lastDaa)];
        SameIdentity(blockIndex, was, entries);
      }
    }

    method OnInference(txid: string, daa: nat, amount: nat)
      requires Valid()
      modifies this`entries, this`outpoints, this`blockIndex
      ensures Valid() && Abstract() == TrackInference(old(Abstract()), txid, daa, amount)
    {
      if amount == 0 {
        return;
      }
      KeysTracked(entries, (txid, 1));
      if Key((txid, 1)) in outpoints {
        return;
      }
      Append(InferenceEntry(txid, daa, amount));
    }

    method Handle(ev: Event) returns (claim: Option<Claim>)
      requires Valid()
      modifies this
      ensures Valid() && (Abstract(), claim) == Step(miner, old(Abstract()), ev)
    {
      match ev
      case BlockSeen(block) => claim := OnBlock(block);
      case Answered(error) => OnResponse(error); claim := None;
      case InferencePaid(txid, daa, amount) => OnInference(txid, daa, amount); claim := None;
    }

    method HandleAll(evs: seq<Event>) returns (claims: seq<Option<Claim>>)
      requires Valid()
      modifies this
      ensures Valid() && Abstract() == Run(miner, old(Abstract()), evs)
      ensures |claims| == |evs| && forall i :: 0 <= i < |evs| ==> claims[i] == ClaimAt(miner, old(Abstract()), evs, i)
    {
      ghost var start := Abstract();
      claims := [];
      for i := 0 to |evs|
        invariant Valid() && Abstract() == Run(miner, start, evs[..i])
        invariant |claims| == i && forall j :: 0 <= j < i ==> claims[j] == ClaimAt(miner, start, evs, j)
      {
        var claim := Handle(evs[i]);
        RunOneMore(miner, start, evs, i);
        claims := claims + [claim];
      }
      assert evs[..|evs|] == evs;
    }
  }

  lemma RunOneMore(m: Miner, s: State, evs: seq<Event>, i: nat)
    requires i < |evs|
    ensures Step(m, Run(m, s, evs[..i]), evs[i]) == (Run(m, s, evs[..i + 1]), ClaimAt(m, s, evs, i))
  {
    assert evs[..i + 1][..i] == evs[..i];
  }

  /**
   A whole life of the watcher, from the entries it loads: after any events both indexes are exact, state and returned
   claims are those of the rules, and outpoints loaded without duplicates never become duplicate.
   */
  method Watch(miner: Miner, loaded: seq<Entry>, evs: seq<Event>) returns (w: Watcher, claims: seq<Option<Claim>>)
    ensures fresh(w) && w.Valid() && w.Abstract() == Run(miner, State(loaded, None, 0, 0), evs)
    ensures |claims| == |evs| && forall i :: 0 <= i < |evs| ==> claims[i] == ClaimAt(miner, State(loaded, None, 0, 0), evs, i)
    ensures Keeps(loaded, w.entries)
  {
    w := new Watcher(miner, loaded);
    claims := w.HandleAll(evs);
    RunKeeps(miner, State(loaded, None, 0, 0), evs);
  }

  lemma {:induction false} KeepLiveShorter(es: seq<Entry>)
    ensures |KeepLive(es)| == |es| ==> KeepLive(es) == es
  {
    if es != [] {
      KeepLiveShorter(es[..|es| - 1]);
      assert es == es[..|es| - 1] + [es[|es| - 1]];
    }
  }

  lemma NoneRed(es: seq<Entry>, red: string)
    requires red == "" || Positions(es, red) == []
    ensures SlashRed(es, red) == es
  {
    forall i | 0 <= i < |es|
      ensures RedMark(es[i], red) == es[i]
    {
      PositionsExact(es, red, i);
    }
  }

  lemma NotBefore(es: seq<Entry>, hash: string, k: nat)
    requires k < |Positions(es, hash)|
    ensures Positions(es, hash)[k] !in Positions(es, hash)[..k]
  {
    forall a: nat | a < k
      ensures Positions(es, hash)[a] != Positions(es, hash)[k]
    {
      PositionsAscend(es, hash, a, k);
    }
  }
}
