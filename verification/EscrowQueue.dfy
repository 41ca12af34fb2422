/**
 Which entry a block picks, told from the state before it; when every entry can be built; and what one that cannot be
 built does to the entries queued behind it.
 */
module EscrowQueue {
  import opened Options
  import opened EscrowRules
  import opened EscrowLifecycle

  // ---------- the first entry of a kind ----------

  /** The first entry with a property. */
  function First(es: seq<Entry>, p: Entry -> bool): (r: Option<Entry>)
    ensures r.Some? ==> r.value in es && p(r.value)
    ensures r.None? ==> forall e :: e in es ==> !p(e)
  {
    if es == [] then None
    else
      var n := |es| - 1;
      var before := First(es[..n], p);
      if before.Some? then before else if p(es[n]) then Some(es[n]) else None
  }

  lemma {:induction false} FirstIs(es: seq<Entry>, p: Entry -> bool, i: nat)
    requires i < |es| && p(es[i]) && forall j :: 0 <= j < i ==> !p(es[j])
    ensures First(es, p) == Some(es[i])
  {
    if i < |es| - 1 {
      FirstIs(es[..|es| - 1], p, i);
    }
  }

  lemma FirstAppend(es: seq<Entry>, e: Entry, p: Entry -> bool)
    ensures First(es + [e], p) == if First(es, p).Some? then First(es, p) else if p(e) then Some(e) else None
  {
    assert (es + [e])[..|es|] == es;
  }

  lemma KeepLiveAppend(es: seq<Entry>, e: Entry)
    ensures KeepLive(es + [e]) == if Live(e) then KeepLive(es) + [e] else KeepLive(es)
  {
    assert (es + [e])[..|es|] == es;
  }

  lemma {:induction false} FirstKeepLive(es: seq<Entry>, p: Entry -> bool)
    requires forall e :: p(e) ==> Live(e)
    ensures First(KeepLive(es), p) == First(es, p)
  {
    if es != [] {
      var front, last := es[..|es| - 1], es[|es| - 1];
      assert es == front + [last];
      FirstKeepLive(front, p);
      KeepLiveAppend(front, last);
      FirstAppend(front, last, p);
      FirstAppend(KeepLive(front), last, p);
    }
  }

  /** Entries may change as long as none gains the property and the first one that has it stays. */
  lemma {:induction false} FirstKept(es: seq<Entry>, es': seq<Entry>, p: Entry -> bool, q: Entry -> bool)
    requires |es'| == |es|
    requires forall i :: 0 <= i < |es| ==> !p(es[i]) ==> !q(es'[i])
    requires forall i :: 0 <= i < |es| ==> First(es, p) == Some(es[i]) && p(es[i]) ==> q(es'[i]) && es'[i] == es[i]
    ensures First(es, p).Some? ==> First(es', q) == First(es, p)
    ensures First(es, p).None? ==> First(es', q).None?
  {
    if es != [] {
      var n := |es| - 1;
      FirstKept(es[..n], es'[..n], p, q);
    }
  }

  // ---------- the pick of a block ----------

  /** The entry's coinbase is in one of the red blocks. */
  predicate Reddened(e: Entry, reds: seq<string>) {
    !e.isInference && e.blockHash != "" && e.blockHash in reds
  }

  function Ready(kind: bool, reds: seq<string>, daa: nat): Entry -> bool {
    (e: Entry) => e.isInference == kind && Eligible(e, daa) && !Reddened(e, reds)
  }

  /** The entry a block with these reds picks: an inference entry before any reward. */
  function Pick(es: seq<Entry>, reds: seq<string>, daa: nat): (r: Option<Entry>)
    ensures r.None? <==> forall e :: e in es ==> !(Eligible(e, daa) && !Reddened(e, reds))
  {
    var inference := First(es, Ready(true, reds, daa));
    if inference.Some? then inference
    else
      var reward := First(es, Ready(false, reds, daa));
      assert reward.None? ==> forall e :: e in es ==> !Ready(true, reds, daa)(e) && !Ready(false, reds, daa)(e);
      reward
  }

  /** Slashing by red blocks marks exactly the live rewards of those blocks. */
  lemma {:induction false} SlashRedsAt(es: seq<Entry>, reds: seq<string>, i: nat)
    requires i < |es|
    ensures SlashReds(es, reds)[i] == if Live(es[i]) && Reddened(es[i], reds) then es[i].(slashed := true) else es[i]
    decreases reds
  {
    if reds != [] {
      var n := |reds| - 1;
      SlashRedsAt(es, reds[..n], i);
      assert reds == reds[..n] + [reds[n]];
    }
  }

  lemma FirstAfterReds(es: seq<Entry>, reds: seq<string>, kind: bool, daa: nat)
    ensures First(SlashReds(es, reds), Ready(kind, [], daa)) == First(es, Ready(kind, reds, daa))
  {
    forall i | 0 <= i < |es|
      ensures Ready(kind, [], daa)(SlashReds(es, reds)[i]) <==> Ready(kind, reds, daa)(es[i])
      ensures Ready(kind, reds, daa)(es[i]) ==> SlashReds(es, reds)[i] == es[i]
    {
      SlashRedsAt(es, reds, i);
    }
    FirstKept(es, SlashReds(es, reds), Ready(kind, reds, daa), Ready(kind, [], daa));
  }

  /** A reward tracked now is not mature, so it is not picked now. */
  lemma {:induction false} FirstAfterCoinbase(
      m: Miner, es: seq<Entry>, txid: string, hash: string, daa: nat, outs: seq<Output>, k: nat, kind: bool)
    requires k <= |outs|
    ensures First(TrackOutputs(m, es, txid, hash, daa, outs, k), Ready(kind, [], daa)) == First(es, Ready(kind, [], daa))
    decreases k
  {
    if k > 0 {
      FirstAfterCoinbase(m, es, txid, hash, daa, outs, k - 1, kind);
      var e := CoinbaseEntry(txid, hash, daa, outs[k - 1].amount, k - 1);
      FirstAppend(TrackOutputs(m, es, txid, hash, daa, outs, k - 1), e, Ready(kind, [], daa));
    }
  }

  lemma FirstEligibleIs(es: seq<Entry>, kind: bool, daa: nat)
    ensures var r := FirstEligible(es, kind, daa, 0);
            First(es, Ready(kind, [], daa)) == if r.None? then None else Some(es[r.value])
  {
    var r := FirstEligible(es, kind, daa, 0);
    if r.Some? {
      FirstIs(es, Ready(kind, [], daa), r.value);
    }
  }

  /** The entry looked for in the end is the one the state before the block decides. */
  lemma FirstInBlock(m: Miner, s: State, b: Block, kind: bool)
    requires b.daaScore.Some? && Scanned(b).Some?
    ensures var (daa, tx) := (b.daaScore.value, Scanned(b).value);
            var s3 := AfterCoinbase(m, AfterReds(AfterHeader(s, daa), Reds(b)), b, tx, daa);
            First(s3.entries, Ready(kind, [], daa)) == First(s.entries, Ready(kind, Reds(b), daa))
  {
    var (daa, tx) := (b.daaScore.value, Scanned(b).value);
    var s1 := AfterHeader(s, daa);
    FirstKeepLive(s.entries, Ready(kind, Reds(b), daa));
    FirstAfterReds(s1.entries, Reds(b), kind, daa);
    FirstAfterCoinbase(m, AfterReds(s1, Reds(b)).entries, tx.txid.value, BlockHash(b), daa, tx.outputs, |tx.outputs|, kind);
  }

  /**
   The claim a scanned block returns, told from the state before it: compaction, slashing and tracking within the block
   change the pick only by what its own red blocks take away.
   */
  lemma ClaimIs(m: Miner, s: State, b: Block)
    requires b.daaScore.Some? && Scanned(b).Some?
    ensures var pick := Pick(s.entries, Reds(b), b.daaScore.value);
            HandleBlock(m, s, b).1 == if s.pending.Some? || pick.None? then None else BuildClaim(pick.value)
  {
    var (daa, tx) := (b.daaScore.value, Scanned(b).value);
    var s3 := AfterCoinbase(m, AfterReds(AfterHeader(s, daa), Reds(b)), b, tx, daa);
    FirstInBlock(m, s, b, true);
    FirstInBlock(m, s, b, false);
    FirstEligibleIs(s3.entries, true, daa);
    FirstEligibleIs(s3.entries, false, daa);
  }

  // ---------- when every entry can be built ----------

  ghost predicate AllBuildable(es: seq<Entry>) {
    forall e :: e in es ==> BuildClaim(e).Some?
  }

  /** What the event starts to track is worth more than the fee, under a 64-digit transaction id. */
  ghost predicate Sound(m: Miner, ev: Event) {
    match ev
    case BlockSeen(b) =>
      Scanned(b).Some? ==>
        var tx := Scanned(b).value;
        IsHash(tx.txid.value) && forall out :: out in tx.outputs && PaysMiner(m, out) ==> out.amount > CLAIM_FEE
    case Answered(_) => true
    case InferencePaid(txid, _, amount) => amount == 0 || (IsHash(txid) && amount > CLAIM_FEE)
  }

  lemma EvolvedBuildable(es: seq<Entry>, es': seq<Entry>)
    requires AllBuildable(es) && Evolves(es, es') && |es'| == |es|
    ensures AllBuildable(es')
  {
    forall e | e in es'
      ensures BuildClaim(e).Some?
    {
      var i: nat :| i < |es'| && es'[i] == e;
      assert Later(es[i], es'[i]) && es[i] in es;
    }
  }

  lemma {:induction false} CoinbaseBuildable(
      m: Miner, es: seq<Entry>, txid: string, hash: string, daa: nat, outs: seq<Output>, k: nat)
    requires k <= |outs| && AllBuildable(es) && IsHash(txid)
    requires forall out :: out in outs && PaysMiner(m, out) ==> out.amount > CLAIM_FEE
    ensures AllBuildable(TrackOutputs(m, es, txid, hash, daa, outs, k))
    decreases k
  {
    if k > 0 {
      CoinbaseBuildable(m, es, txid, hash, daa, outs, k - 1);
      assert outs[k - 1] in outs;
    }
  }

  lemma StepBuildable(m: Miner, s: State, ev: Event)
    requires AllBuildable(s.entries) && Sound(m, ev)
    ensures AllBuildable(Step(m, s, ev).0.entries)
  {
    match ev
    case BlockSeen(b) =>
      if b.daaScore.Some? {
        var daa := b.daaScore.value;
        var s1 := AfterHeader(s, daa);
        forall e
          ensures e in KeepLive(s.entries) ==> e in s.entries
        {
          KeepLiveContents(s.entries, e);
        }
        SlashRedsEvolves(s1.entries, Reds(b));
        EvolvedBuildable(s1.entries, SlashReds(s1.entries, Reds(b)));
        if Scanned(b).Some? {
          var tx := Scanned(b).value;
          CoinbaseBuildable(m, AfterReds(s1, Reds(b)).entries, tx.txid.value, BlockHash(b), daa, tx.outputs, |tx.outputs|);
        }
      }
    case Answered(error) =>
      if s.pending.Some? {
        SettleEvolves(s.entries, s.pending.value, error, s.lastDaa);
        EvolvedBuildable(s.entries, SettleAt(s.entries, s.pending.value, error, s.lastDaa));
      }
    case InferencePaid(_, _, _) =>
  }

  lemma {:induction false} RunBuildable(m: Miner, s: State, evs: seq<Event>)
    requires AllBuildable(s.entries) && forall i :: 0 <= i < |evs| ==> Sound(m, evs[i])
    ensures AllBuildable(Run(m, s, evs).entries)
  {
    if evs != [] {
      var n := |evs| - 1;
      RunBuildable(m, s, evs[..n]);
      StepBuildable(m, Run(m, s, evs[..n]), evs[n]);
    }
  }

  /**
   When all that is loaded, scanned and paid can be built, the watcher never idles: after any run, a scanned block with
   no claim pending returns one exactly when some entry is eligible and not taken away by the block itself.
   */
  lemma ClaimIff(m: Miner, s: State, evs: seq<Event>, b: Block)
    requires AllBuildable(s.entries) && forall i :: 0 <= i < |evs| ==> Sound(m, evs[i])
    requires b.daaScore.Some? && Scanned(b).Some? && Run(m, s, evs).pending.None?
    ensures HandleBlock(m, Run(m, s, evs), b).1.Some?
       <==> exists e :: e in Run(m, s, evs).entries && Eligible(e, b.daaScore.value) && !Reddened(e, Reds(b))
  {
    RunBuildable(m, s, evs);
    ClaimIs(m, Run(m, s, evs), b);
    var pick := Pick(Run(m, s, evs).entries, Reds(b), b.daaScore.value);
    if pick.Some? {
      assert pick.value in Run(m, s, evs).entries;
    }
  }

  // ---------- an entry that cannot be built ----------

  function LiveOf(kind: bool): Entry -> bool {
    (e: Entry) => Live(e) && e.isInference == kind
  }

  /** The entry leads the live entries of its kind and, from `floor` on, may be claimed. */
  ghost predicate Leads(s: State, x: Entry, floor: nat) {
    First(s.entries, LiveOf(x.isInference)) == Some(x) && Eligible(x, floor) && s.pending != Some(At(x))
  }

  /** A block no earlier than `floor` that does not take the entry away; or no block at all. */
  predicate Spares(ev: Event, x: Entry, floor: nat) {
    ev.BlockSeen? && ev.block.daaScore.Some? ==> floor <= ev.block.daaScore.value && !Reddened(x, Reds(ev.block))
  }

  /** The step returns a claim on an entry of this kind. */
  ghost predicate Claims(m: Miner, s: State, ev: Event, kind: bool) {
    var claim := Step(m, s, ev).1;
    claim.Some? && exists e :: e in s.entries && e.isInference == kind && At(e) == claim.value.spends
  }

  lemma {:induction false} FirstPrefix(es: seq<Entry>, es': seq<Entry>, p: Entry -> bool)
    requires es <= es' && First(es, p).Some?
    ensures First(es', p) == First(es, p)
    decreases es'
  {
    if es != es' {
      FirstPrefix(es, es'[..|es'| - 1], p);
    }
  }

  lemma LeaderThroughReds(es: seq<Entry>, reds: seq<string>, x: Entry)
    requires First(es, LiveOf(x.isInference)) == Some(x) && !Reddened(x, reds)
    ensures First(SlashReds(es, reds), LiveOf(x.isInference)) == Some(x)
  {
    forall i | 0 <= i < |es|
      ensures !LiveOf(x.isInference)(es[i]) ==> !LiveOf(x.isInference)(SlashReds(es, reds)[i])
      ensures es[i] == x ==> SlashReds(es, reds)[i] == x
    {
      SlashRedsAt(es, reds, i);
    }
    FirstKept(es, SlashReds(es, reds), LiveOf(x.isInference), LiveOf(x.isInference));
  }

  lemma LeaderThroughBlock(m: Miner, s: State, b: Block, x: Entry, floor: nat)
    requires Leads(s, x, floor) && Spares(BlockSeen(b), x, floor)
    ensures First(HandleBlock(m, s, b).0.entries, LiveOf(x.isInference)) == Some(x)
  {
    if b.daaScore.Some? {
      var daa := b.daaScore.value;
      var s1 := AfterHeader(s, daa);
      var s2 := AfterReds(s1, Reds(b));
      FirstKeepLive(s.entries, LiveOf(x.isInference));
      LeaderThroughReds(s1.entries, Reds(b), x);
      if Scanned(b).Some? {
        var tx := Scanned(b).value;
        TrackOutputsEvolves(m, s2.entries, tx.txid.value, BlockHash(b), daa, tx.outputs, |tx.outputs|);
        FirstPrefix(s2.entries, AfterCoinbase(m, s2, b, tx, daa).entries, LiveOf(x.isInference));
      }
    }
  }

  lemma LeaderThroughAnswer(s: State, error: Option<string>, x: Entry, floor: nat)
    requires Leads(s, x, floor)
    ensures Leads(OnSubmitResponse(s, error), x, floor)
  {
    FirstKept(s.entries, OnSubmitResponse(s, error).entries, LiveOf(x.isInference), LiveOf(x.isInference));
  }

  /** What leads its kind now is what a block picks of that kind. */
  lemma LeaderIsPicked(s: State, x: Entry, floor: nat, reds: seq<string>, daa: nat)
    requires Leads(s, x, floor) && floor <= daa && !Reddened(x, reds)
    ensures First(s.entries, Ready(x.isInference, reds, daa)) == Some(x)
  {
    FirstKept(s.entries, s.entries, LiveOf(x.isInference), Ready(x.isInference, reds, daa));
  }

  /** A claim returned beside a leader that cannot be built is on an entry of the other kind. */
  lemma ClaimPassesLeader(m: Miner, s: State, b: Block, x: Entry, floor: nat)
    requires Good(s.entries) && Leads(s, x, floor) && BuildClaim(x).None? && Spares(BlockSeen(b), x, floor)
    ensures !Claims(m, s, BlockSeen(b), x.isInference) && (x.isInference ==> HandleBlock(m, s, b).1.None?)
    ensures HandleBlock(m, s, b).0.pending != Some(At(x))
  {
    if b.daaScore.Some? && Scanned(b).Some? {
      var daa := b.daaScore.value;
      ClaimIs(m, s, b);
      LeaderIsPicked(s, x, floor, Reds(b), daa);
      StepPending(m, s, BlockSeen(b));
      var claim := HandleBlock(m, s, b).1;
      if claim.Some? {
        var pick := Pick(s.entries, Reds(b), daa).value;
        assert pick.isInference != x.isInference;
        OneEntryAt(s.entries, pick, claim.value.spends);
      }
    }
  }

  lemma OneEntryAt(es: seq<Entry>, e: Entry, o: Outpoint)
    requires Distinct(es) && e in es && At(e) == o
    ensures forall d :: d in es && At(d) == o ==> d == e
  {
    var i: nat :| i < |es| && es[i] == e;
    forall d | d in es && At(d) == o
      ensures d == e
    {
      var j: nat :| j < |es| && es[j] == d;
      assert i == j;
    }
  }

  /** The leader of its kind cannot be built. */
  ghost predicate Stuck(s: State, x: Entry, floor: nat) {
    Good(s.entries) && Leads(s, x, floor) && BuildClaim(x).None?
  }

  lemma StepStaysStuck(m: Miner, s: State, ev: Event, x: Entry, floor: nat)
    requires Stuck(s, x, floor) && Spares(ev, x, floor)
    ensures Stuck(Step(m, s, ev).0, x, floor) && !Claims(m, s, ev, x.isInference)
    ensures x.isInference ==> Step(m, s, ev).1.None?
  {
    StepEvolves(m, s, ev);
    match ev
    case BlockSeen(b) =>
      LeaderThroughBlock(m, s, b, x, floor);
      ClaimPassesLeader(m, s, b, x, floor);
    case Answered(error) => LeaderThroughAnswer(s, error, x, floor);
    case InferencePaid(txid, daa, amount) =>
      FirstPrefix(s.entries, TrackInference(s, txid, daa, amount).entries, LiveOf(x.isInference));
  }

  /** Step `i` of the run claims nothing of the kind; nothing at all when the kind is inference. */
  ghost predicate PassesOver(m: Miner, s: State, evs: seq<Event>, i: nat, kind: bool)
    requires i < |evs|
  {
    !Claims(m, Run(m, s, evs[..i]), evs[i], kind) && (kind ==> ClaimAt(m, s, evs, i).None?)
  }

  lemma PassesOverLonger(m: Miner, s: State, evs: seq<Event>, n: nat, i: nat, kind: bool)
    requires i < n <= |evs| && PassesOver(m, s, evs[..n], i, kind)
    ensures PassesOver(m, s, evs, i, kind)
  {
    assert evs[..n][..i] == evs[..i];
  }

  /**
   An entry that cannot be built leads its kind for ever: no entry of its kind is claimed in any run, and behind an
   inference entry no entry at all.
   */
  lemma {:induction false} StuckForever(m: Miner, s: State, evs: seq<Event>, x: Entry, floor: nat)
    requires Stuck(s, x, floor) && forall i :: 0 <= i < |evs| ==> Spares(evs[i], x, floor)
    ensures Stuck(Run(m, s, evs), x, floor)
    ensures forall i :: 0 <= i < |evs| ==> PassesOver(m, s, evs, i, x.isInference)
  {
    if evs != [] {
      var n := |evs| - 1;
      StuckForever(m, s, evs[..n], x, floor);
      StepStaysStuck(m, Run(m, s, evs[..n]), evs[n], x, floor);
      forall i | 0 <= i < n
        ensures PassesOver(m, s, evs, i, x.isInference)
      {
        PassesOverLonger(m, s, evs, n, i, x.isInference);
      }
    }
  }

  /** No run whose blocks spare the entry ever returns a claim on its kind. */
  ghost predicate Starved(m: Miner, s: State, x: Entry, floor: nat) {
    forall evs: seq<Event>, i: nat ::
      i < |evs| && (forall j :: 0 <= j < |evs| ==> Spares(evs[j], x, floor)) ==>
        !Claims(m, Run(m, s, evs[..i]), evs[i], x.isInference)
  }

  /** A block with an empty coinbase. */
  function QuietBlock(daa: nat): Block {
    Block(Some(daa), None, [Tx(0, [], Some("a"))])
  }

  lemma QuietBlockIsScanned(daa: nat)
    ensures Scanned(QuietBlock(daa)).Some? && Reds(QuietBlock(daa)) == []
  {
    assert Coinbase(QuietBlock(daa).txs, 0) == Some(Tx(0, [], Some("a")));
  }

  /** Once nothing is pending, a quiet block claims a leader that can be built. */
  lemma LeaderIsClaimed(m: Miner, s: State, x: Entry, floor: nat)
    requires Leads(s, x, floor) && BuildClaim(x).Some? && s.pending.None?
    requires x.isInference || forall e :: e in s.entries ==> !(e.isInference && Eligible(e, floor))
    ensures Claims(m, s, BlockSeen(QuietBlock(floor)), x.isInference)
  {
    QuietBlockIsScanned(floor);
    ClaimIs(m, s, QuietBlock(floor));
    LeaderIsPicked(s, x, floor, [], floor);
    assert x in s.entries;
  }

  lemma AnswerReadiesNone(s: State, floor: nat)
    requires forall e :: e in s.entries ==> !(e.isInference && Eligible(e, floor))
    ensures forall e :: e in OnSubmitResponse(s, None).entries ==> !(e.isInference && Eligible(e, floor))
  {
  }

  lemma TwoSteps(m: Miner, s: State, a: Event, b: Event)
    ensures Run(m, s, [a, b][..1]) == Step(m, s, a).0
  {
    assert [a, b][..1] == [a] && [a][..0] == [];
  }

  /**
   The kind a leader belongs to is starved exactly when the leader cannot be built: worth no more than the fee, or
   under a transaction id that is not 64 hexadecimal digits. For rewards this is told while no inference entry is
   eligible, since those go first.
   */
  lemma StarvedIff(m: Miner, s: State, x: Entry, floor: nat)
    requires Good(s.entries) && Leads(s, x, floor)
    requires x.isInference || forall e :: e in s.entries ==> !(e.isInference && Eligible(e, floor))
    ensures Starved(m, s, x, floor) <==> x.amount <= 30_000_000 || !IsHash(x.txid)
  {
    if BuildClaim(x).None? {
      forall evs: seq<Event>, i: nat | i < |evs| && forall j :: 0 <= j < |evs| ==> Spares(evs[j], x, floor)
        ensures !Claims(m, Run(m, s, evs[..i]), evs[i], x.isInference)
      {
        StuckForever(m, s, evs, x, floor);
        assert PassesOver(m, s, evs, i, x.isInference);
      }
    } else {
      var answer, block := Answered(None), BlockSeen(QuietBlock(floor));
      var s1 := OnSubmitResponse(s, None);
      LeaderThroughAnswer(s, None, x, floor);
      if !x.isInference {
        AnswerReadiesNone(s, floor);
      }
      LeaderIsClaimed(m, s1, x, floor);
      TwoSteps(m, s, answer, block);
      var evs := [answer, block];
      assert Claims(m, Run(m, s, evs[..1]), evs[1], x.isInference);
      QuietBlockIsScanned(floor);
      assert forall j :: 0 <= j < |evs| ==> Spares(evs[j], x, floor);
    }
  }

  lemma AppendGood(es: seq<Entry>, e: Entry)
    requires Good(es) && !Tracked(es, At(e)) && e.orphanRetries == 0
    ensures Good(es + [e])
  {
    AppendKeeps(es, e);
  }

  /**
   How a run gets there: an inference escrow that cannot be built leads its kind from its maturity on exactly when it
   is tracked while no other inference entry is live.
   */
  lemma UnbuildableLeads(s: State, txid: string, daa: nat, amount: nat)
    requires Good(s.entries) && amount > 0 && !Tracked(s.entries, (txid, 1)) && s.pending != Some((txid, 1))
    requires amount <= CLAIM_FEE || !IsHash(txid)
    ensures Stuck(TrackInference(s, txid, daa, amount), InferenceEntry(txid, daa, amount), daa + 36_010)
       <==> forall e :: e in s.entries ==> !(e.isInference && Live(e))
  {
    var x := InferenceEntry(txid, daa, amount);
    AppendGood(s.entries, x);
    FirstAppend(s.entries, x, LiveOf(true));
    assert At(x) == (txid, 1);
  }
}
