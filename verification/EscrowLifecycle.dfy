/** What every run of the escrow claim watcher keeps, and what its claims are worth. */
module EscrowLifecycle {
  import opened Options
  import opened EscrowRules

  ghost predicate Distinct(es: seq<Entry>) {
    forall i, j :: 0 <= i < j < |es| ==> At(es[i]) != At(es[j])
  }

  /** Ten orphan rejections slash. */
  ghost predicate RetriesBounded(es: seq<Entry>) {
    forall i :: 0 <= i < |es| ==> es[i].orphanRetries < MAX_ORPHAN_RETRIES || es[i].slashed
  }

  ghost predicate Good(es: seq<Entry>) {
    Distinct(es) && RetriesBounded(es)
  }

  // ---------- entries only move forward ----------

  /** The same escrow, with no done flag taken back and no retry forgotten. */
  predicate Later(e: Entry, e': Entry) {
    && At(e') == At(e) && e'.blockHash == e.blockHash && e'.confirmDaa == e.confirmDaa
    && e'.amount == e.amount && e'.isInference == e.isInference
    && (e.claimed ==> e'.claimed) && (e.slashed ==> e'.slashed) && e.orphanRetries <= e'.orphanRetries
  }

  ghost predicate Evolves(es: seq<Entry>, es': seq<Entry>) {
    |es| <= |es'| && forall i :: 0 <= i < |es| ==> Later(es[i], es'[i])
  }

  lemma EvolvesTransitive(a: seq<Entry>, b: seq<Entry>, c: seq<Entry>)
    requires Evolves(a, b) && Evolves(b, c)
    ensures Evolves(a, c)
  {
    forall i | 0 <= i < |a|
      ensures Later(a[i], c[i])
    {
      assert Later(a[i], b[i]) && Later(b[i], c[i]);
    }
  }

  lemma KeepDistinct(es: seq<Entry>, es': seq<Entry>)
    requires Distinct(es) && Evolves(es, es') && |es'| == |es|
    ensures Distinct(es')
  {
    forall i, j | 0 <= i < j < |es'|
      ensures At(es'[i]) != At(es'[j])
    {
      assert Later(es[i], es'[i]) && Later(es[j], es'[j]);
    }
  }

  /** Compaction keeps exactly the live entries. */
  lemma {:induction false} KeepLiveContents(es: seq<Entry>, e: Entry)
    ensures e in KeepLive(es) <==> e in es && Live(e)
  {
    if es != [] {
      var n := |es| - 1;
      KeepLiveContents(es[..n], e);
      assert es == es[..n] + [es[n]];
    }
  }

  lemma {:induction false} KeepLiveDistinct(es: seq<Entry>)
    requires Distinct(es)
    ensures Distinct(KeepLive(es))
  {
    if es != [] {
      var n := |es| - 1;
      var before := KeepLive(es[..n]);
      KeepLiveDistinct(es[..n]);
      forall i | 0 <= i < |before|
        ensures At(before[i]) != At(es[n])
      {
        KeepLiveContents(es[..n], before[i]);
      }
    }
  }

  lemma KeepLiveRetries(es: seq<Entry>)
    requires RetriesBounded(es)
    ensures RetriesBounded(KeepLive(es))
  {
    forall i | 0 <= i < |KeepLive(es)|
      ensures KeepLive(es)[i] in es
    {
      KeepLiveContents(es, KeepLive(es)[i]);
    }
  }

  /** Outpoints stay distinct, and the retry bound, where it holds, stays. */
  ghost predicate Keeps(es: seq<Entry>, es': seq<Entry>) {
    (Distinct(es) ==> Distinct(es')) && (RetriesBounded(es) ==> RetriesBounded(es'))
  }

  lemma KeepLiveKeeps(es: seq<Entry>)
    ensures Keeps(es, KeepLive(es))
  {
    if Distinct(es) {
      KeepLiveDistinct(es);
    }
    if RetriesBounded(es) {
      KeepLiveRetries(es);
    }
  }

  lemma {:induction false} SlashRedsEvolves(es: seq<Entry>, reds: seq<string>)
    ensures Evolves(es, SlashReds(es, reds))
    ensures Keeps(es, SlashReds(es, reds))
  {
    if reds != [] {
      var n := |reds| - 1;
      SlashRedsEvolves(es, reds[..n]);
      SlashRedEvolves(SlashReds(es, reds[..n]), reds[n]);
      EvolvesTransitive(es, SlashReds(es, reds[..n]), SlashReds(es, reds));
    }
  }

  lemma SlashRedEvolves(es: seq<Entry>, red: string)
    ensures Evolves(es, SlashRed(es, red))
    ensures Keeps(es, SlashRed(es, red))
  {
    if Distinct(es) {
      KeepDistinct(es, SlashRed(es, red));
    }
  }

  lemma AppendKeeps(es: seq<Entry>, e: Entry)
    requires !Tracked(es, At(e)) && e.orphanRetries == 0
    ensures Keeps(es, es + [e])
  {
  }

  lemma {:induction false} TrackOutputsEvolves(
      m: Miner, es: seq<Entry>, txid: string, hash: string, daa: nat, outs: seq<Output>, k: nat)
    requires k <= |outs|
    ensures es <= TrackOutputs(m, es, txid, hash, daa, outs, k)
    ensures Keeps(es, TrackOutputs(m, es, txid, hash, daa, outs, k))
    decreases k
  {
    if k > 0 {
      var before := TrackOutputs(m, es, txid, hash, daa, outs, k - 1);
      TrackOutputsEvolves(m, es, txid, hash, daa, outs, k - 1);
      var e := CoinbaseEntry(txid, hash, daa, outs[k - 1].amount, k - 1);
      if !Tracked(before, At(e)) {
        AppendKeeps(before, e);
      }
    }
  }

  lemma SettleEvolves(es: seq<Entry>, o: Outpoint, error: Option<string>, daa: nat)
    ensures Evolves(es, SettleAt(es, o, error, daa))
    ensures Keeps(es, SettleAt(es, o, error, daa))
  {
    if Distinct(es) {
      KeepDistinct(es, SettleAt(es, o, error, daa));
    }
  }

  /** The entries a step starts from: the live ones when it compacts. */
  function Base(s: State, ev: Event): seq<Entry> {
    if ev.BlockSeen? && ev.block.daaScore.Some? && s.sinceCompact + 1 >= COMPACT_EVERY
    then KeepLive(s.entries)
    else s.entries
  }

  /** One step: entries are dropped only by compaction, only when done, and otherwise only move forward. */
  lemma StepEvolves(m: Miner, s: State, ev: Event)
    ensures Evolves(Base(s, ev), Step(m, s, ev).0.entries)
    ensures Keeps(s.entries, Step(m, s, ev).0.entries)
  {
    match ev
    case BlockSeen(b) =>
      if b.daaScore.Some? {
        BlockEvolves(m, s, b);
      }
    case Answered(error) =>
      if s.pending.Some? {
        SettleEvolves(s.entries, s.pending.value, error, s.lastDaa);
      }
    case InferencePaid(txid, daa, amount) =>
      if !Tracked(s.entries, (txid, 1)) {
        AppendKeeps(s.entries, InferenceEntry(txid, daa, amount));
      }
  }

  lemma BlockEvolves(m: Miner, s: State, b: Block)
    requires b.daaScore.Some?
    ensures Evolves(Base(s, BlockSeen(b)), HandleBlock(m, s, b).0.entries)
    ensures Keeps(s.entries, HandleBlock(m, s, b).0.entries)
  {
    var daa := b.daaScore.value;
    var s1 := AfterHeader(s, daa);
    var s2 := AfterReds(s1, Reds(b));
    KeepLiveKeeps(s.entries);
    SlashRedsEvolves(s1.entries, Reds(b));
    if Scanned(b).Some? {
      var tx := Scanned(b).value;
      TrackOutputsEvolves(m, s2.entries, tx.txid.value, BlockHash(b), daa, tx.outputs, |tx.outputs|);
      EvolvesTransitive(s1.entries, s2.entries, AfterCoinbase(m, s2, b, tx, daa).entries);
    }
  }

  /** Over every run distinct outpoints stay distinct and, independently, the retry bound stays. */
  lemma {:induction false} RunKeeps(m: Miner, s: State, evs: seq<Event>)
    ensures Keeps(s.entries, Run(m, s, evs).entries)
  {
    if evs != [] {
      var n := |evs| - 1;
      RunKeeps(m, s, evs[..n]);
      StepEvolves(m, Run(m, s, evs[..n]), evs[n]);
    }
  }

  // ---------- one claim in flight ----------

  /** A step that returns a claim finds none pending and leaves it pending; only an answer clears it. */
  lemma StepPending(m: Miner, s: State, ev: Event)
    ensures var (s', claim) := Step(m, s, ev);
            && (claim.Some? ==> s.pending.None? && s'.pending == Some(claim.value.spends))
            && (claim.None? && !ev.Answered? ==> s'.pending == s.pending)
            && (ev.Answered? ==> s'.pending.None?)
  {
  }

  lemma {:induction false} PendingLasts(m: Miner, s: State, evs: seq<Event>, i: nat, k: nat)
    requires i < k <= |evs| && ClaimAt(m, s, evs, i).Some?
    requires forall j :: i < j < k ==> !evs[j].Answered?
    ensures Run(m, s, evs[..k]).pending == Some(ClaimAt(m, s, evs, i).value.spends)
    decreases k
  {
    assert evs[..k][..k - 1] == evs[..k - 1];
    StepPending(m, Run(m, s, evs[..k - 1]), evs[k - 1]);
    if k - 1 > i {
      PendingLasts(m, s, evs, i, k - 1);
    }
  }

  /** Between two returned claims lies an answer. */
  lemma OneInFlight(m: Miner, s: State, evs: seq<Event>, i: nat, j: nat)
    requires i < j < |evs| && ClaimAt(m, s, evs, i).Some? && ClaimAt(m, s, evs, j).Some?
    ensures exists k :: i < k < j && evs[k].Answered?
  {
    if forall k :: i < k < j ==> !evs[k].Answered? {
      PendingLasts(m, s, evs, i, j);
      StepPending(m, Run(m, s, evs[..j]), evs[j]);
    }
  }

  // ---------- what a claim spends ----------

  ghost predicate SoundClaim(es: seq<Entry>, i: nat, daa: nat, claim: Claim) {
    && i < |es| && At(es[i]) == claim.spends && Live(es[i])
    && daa >= es[i].confirmDaa + 36_010 && (es[i].retryAfter.Some? ==> daa >= es[i].retryAfter.value)
    && claim.amountOut > 0 && claim.amountOut + 30_000_000 == es[i].amount
    && claim.sequence == 36_000 && IsHash(claim.spends.0)
    && (es[i].isInference || forall j :: 0 <= j < |es| && es[j].isInference ==> !Eligible(es[j], daa))
  }

  /** Every returned claim spends a live, mature, cooled-down entry, and a reward only when no inference waits. */
  lemma ClaimIsSound(m: Miner, s: State, b: Block)
    requires HandleBlock(m, s, b).1.Some?
    ensures b.daaScore.Some?
    ensures var (s', claim) := HandleBlock(m, s, b);
            exists i :: SoundClaim(s'.entries, i, b.daaScore.value, claim.value)
  {
    var daa := b.daaScore.value;
    var before := AfterCoinbase(m, AfterReds(AfterHeader(s, daa), Reds(b)), b, Scanned(b).value, daa);
    var next := NextEligible(before.entries, daa);
    assert SoundClaim(before.entries, next.value, daa, HandleBlock(m, s, b).1.value);
  }

  /** When the entry may be claimed again: from `wait` blocks after the last one seen, and not before it is mature. */
  ghost predicate ReadyAfter(s: State, e: Entry, wait: nat) {
    Live(e) && forall daa: nat :: Eligible(e, daa) <==> daa >= e.confirmDaa + 36_010 && daa >= s.lastDaa + wait
  }

  /** What an answer means for the pending entry, and that it touches no other. */
  lemma AnswerDecides(s: State, error: Option<string>, i: nat)
    requires Good(s.entries) && i < |s.entries| && s.pending == Some(At(s.entries[i])) && Live(s.entries[i])
    ensures var s' := OnSubmitResponse(s, error);
            s'.pending.None? && s'.entries == s.entries[i := s'.entries[i]]
    ensures var e, e' := s.entries[i], OnSubmitResponse(s, error).entries[i];
            if error.None? then e'.claimed && !e'.slashed
            else if Contains(error.value, "orphan") then
              e'.orphanRetries == e.orphanRetries + 1 && (if e.orphanRetries < 9 then ReadyAfter(s, e', 100) else e'.slashed)
            else
              e'.orphanRetries == e.orphanRetries
              && if Contains(error.value, "sequence lock") then ReadyAfter(s, e', 20) else e'.slashed
  {
    PositionIs(s.entries, i);
  }

  // ---------- how often one outpoint is submitted ----------

  lemma PositionIs(es: seq<Entry>, i: nat)
    requires Distinct(es) && i < |es|
    ensures Position(es, At(es[i]), 0) == Some(i)
  {
  }

  /** Submissions already spent on an outpoint; all ten when it is done or not tracked. */
  function Spent(s: State, o: Outpoint): nat {
    var p := Position(s.entries, o, 0);
    if p.None? || !Live(s.entries[p.value]) then MAX_ORPHAN_RETRIES
    else s.entries[p.value].orphanRetries + if s.pending == Some(o) then 1 else 0
  }

  predicate IsSeqLock(s: State, ev: Event, o: Outpoint) {
    && ev.Answered? && ev.error.Some? && !Contains(ev.error.value, "orphan")
    && Contains(ev.error.value, "sequence lock") && s.pending == Some(o)
  }

  /** The step starts to track the outpoint. */
  predicate Begins(m: Miner, s: State, ev: Event, o: Outpoint) {
    !Tracked(Base(s, ev), o) && Tracked(Step(m, s, ev).0.entries, o)
  }

  function One(b: bool): nat {
    if b then 1 else 0
  }

  function Submissions(m: Miner, s: State, evs: seq<Event>, o: Outpoint): nat {
    if evs == [] then 0
    else
      var n := |evs| - 1;
      var claim := Step(m, Run(m, s, evs[..n]), evs[n]).1;
      Submissions(m, s, evs[..n], o) + One(claim.Some? && claim.value.spends == o)
  }

  function SeqLocks(m: Miner, s: State, evs: seq<Event>, o: Outpoint): nat {
    if evs == [] then 0
    else
      var n := |evs| - 1;
      SeqLocks(m, s, evs[..n], o) + One(IsSeqLock(Run(m, s, evs[..n]), evs[n], o))
  }

  function Trackings(m: Miner, s: State, evs: seq<Event>, o: Outpoint): nat {
    if evs == [] then 0
    else
      var n := |evs| - 1;
      Trackings(m, s, evs[..n], o) + One(Begins(m, Run(m, s, evs[..n]), evs[n], o))
  }

  lemma SpentBounded(s: State, o: Outpoint)
    requires Good(s.entries)
    ensures Spent(s, o) <= MAX_ORPHAN_RETRIES
  {
  }

  lemma SpentOf(s: State, i: nat)
    requires Distinct(s.entries) && i < |s.entries|
    ensures var e := s.entries[i];
            Spent(s, At(e)) == if Live(e) then e.orphanRetries + One(s.pending == Some(At(e))) else MAX_ORPHAN_RETRIES
  {
    PositionIs(s.entries, i);
  }

  lemma SpentUntracked(s: State, o: Outpoint)
    requires !Tracked(s.entries, o)
    ensures Spent(s, o) == MAX_ORPHAN_RETRIES
  {
  }

  lemma EvolvesKeepsTracked(es: seq<Entry>, es': seq<Entry>, o: Outpoint)
    requires Evolves(es, es')
    ensures Tracked(es, o) ==> Tracked(es', o)
    ensures |es| == |es'| ==> (Tracked(es, o) <==> Tracked(es', o))
  {
    if Tracked(es, o) {
      var i: nat :| i < |es| && At(es[i]) == o;
      assert Later(es[i], es'[i]);
    }
    if |es| == |es'| && Tracked(es', o) {
      var i: nat :| i < |es'| && At(es'[i]) == o;
      assert Later(es[i], es'[i]);
    }
  }

  /** Entries that move forward spend no submission back; a new one starts a fresh ten. */
  lemma SpentEvolves(s: State, s': State, o: Outpoint)
    requires Good(s.entries) && Good(s'.entries) && Evolves(s.entries, s'.entries) && s'.pending == s.pending
    ensures Spent(s', o) + 10 * One(!Tracked(s.entries, o) && Tracked(s'.entries, o)) >= Spent(s, o)
  {
    SpentBounded(s, o);
    if Tracked(s.entries, o) {
      var i: nat :| i < |s.entries| && At(s.entries[i]) == o;
      assert Later(s.entries[i], s'.entries[i]);
      SpentOf(s, i);
      SpentOf(s', i);
    } else if !Tracked(s'.entries, o) {
      SpentUntracked(s', o);
    }
  }

  lemma SpentKeepLive(s: State, s': State, o: Outpoint)
    requires Good(s.entries) && s'.entries == KeepLive(s.entries) && s'.pending == s.pending
    ensures Spent(s', o) >= Spent(s, o)
  {
    SpentBounded(s, o);
    KeepLiveKeeps(s.entries);
    if Tracked(s'.entries, o) {
      var i: nat :| i < |s'.entries| && At(s'.entries[i]) == o;
      KeepLiveContents(s.entries, s'.entries[i]);
      var j: nat :| j < |s.entries| && s.entries[j] == s'.entries[i];
      SpentOf(s, j);
      SpentOf(s', i);
    } else {
      SpentUntracked(s', o);
    }
  }

  /** A claim of the outpoint is paid for by a larger `Spent`, up to a credit. */
  predicate Pays(s: State, after: (State, Option<Claim>), o: Outpoint, credit: nat) {
    Spent(s, o) + One(after.1.Some? && after.1.value.spends == o) <= Spent(after.0, o) + credit
  }

  lemma SpentFindClaim(s: State, daa: nat, o: Outpoint)
    requires Good(s.entries)
    ensures Pays(s, FindClaim(s, daa), o, 0)
  {
    var (s', claim) := FindClaim(s, daa);
    if claim.Some? {
      var i := NextEligible(s.entries, daa).value;
      SpentOf(s, i);
      SpentOf(s', i);
    }
  }

  lemma SpentAnswered(s: State, error: Option<string>, o: Outpoint)
    requires Good(s.entries)
    ensures Spent(OnSubmitResponse(s, error), o) + One(IsSeqLock(s, Answered(error), o)) >= Spent(s, o)
  {
    SpentBounded(s, o);
    if s.pending.Some? {
      var s' := OnSubmitResponse(s, error);
      SettleEvolves(s.entries, s.pending.value, error, s.lastDaa);
      EvolvesKeepsTracked(s.entries, s'.entries, o);
      if Tracked(s.entries, o) {
        var i: nat :| i < |s.entries| && At(s.entries[i]) == o;
        assert Later(s.entries[i], s'.entries[i]);
        PositionIs(s.entries, i);
        SpentOf(s, i);
        SpentOf(s', i);
      } else {
        SpentUntracked(s', o);
      }
    }
  }

  /** Compaction and slashing lose no submission and start no tracking. */
  lemma SpentBeforeCoinbase(s: State, b: Block, daa: nat, o: Outpoint)
    requires Good(s.entries) && b.daaScore == Some(daa)
    ensures var s2 := AfterReds(AfterHeader(s, daa), Reds(b));
            && Good(s2.entries) && Spent(s, o) <= Spent(s2, o)
            && (Tracked(Base(s, BlockSeen(b)), o) <==> Tracked(s2.entries, o))
  {
    var s1 := AfterHeader(s, daa);
    KeepLiveKeeps(s.entries);
    if s.sinceCompact + 1 >= COMPACT_EVERY {
      SpentKeepLive(s, s1, o);
    } else {
      SpentEvolves(s, s1, o);
    }
    SlashRedsEvolves(s1.entries, Reds(b));
    SpentEvolves(s1, AfterReds(s1, Reds(b)), o);
    EvolvesKeepsTracked(s1.entries, SlashReds(s1.entries, Reds(b)), o);
  }

  lemma SpentBlock(m: Miner, s: State, b: Block, o: Outpoint)
    requires Good(s.entries)
    ensures Pays(s, HandleBlock(m, s, b), o, 10 * One(Begins(m, s, BlockSeen(b), o)))
  {
    if b.daaScore.Some? {
      var daa := b.daaScore.value;
      var s2 := AfterReds(AfterHeader(s, daa), Reds(b));
      SpentBeforeCoinbase(s, b, daa, o);
      if Scanned(b).Some? {
        var tx := Scanned(b).value;
        var s3 := AfterCoinbase(m, s2, b, tx, daa);
        TrackOutputsEvolves(m, s2.entries, tx.txid.value, BlockHash(b), daa, tx.outputs, |tx.outputs|);
        SpentEvolves(s2, s3, o);
        SpentFindClaim(s3, daa, o);
      }
    }
  }

  lemma SpentStep(m: Miner, s: State, ev: Event, o: Outpoint)
    requires Good(s.entries)
    ensures Pays(s, Step(m, s, ev), o, 10 * One(Begins(m, s, ev, o)) + One(IsSeqLock(s, ev, o)))
  {
    match ev
    case BlockSeen(b) => SpentBlock(m, s, b, o);
    case Answered(error) => SpentAnswered(s, error, o);
    case InferencePaid(txid, daa, amount) =>
      StepEvolves(m, s, ev);
      SpentEvolves(s, TrackInference(s, txid, daa, amount), o);
  }

  /** Every time an outpoint is tracked it is submitted at most ten times, plus once per sequence-lock rejection. */
  lemma {:induction false} SubmissionsBounded(m: Miner, s: State, evs: seq<Event>, o: Outpoint)
    requires Good(s.entries)
    ensures Submissions(m, s, evs, o) + Spent(s, o) <= 10 + 10 * Trackings(m, s, evs, o) + SeqLocks(m, s, evs, o)
  {
    SpentSums(m, s, evs, o);
    RunKeeps(m, s, evs);
    SpentBounded(Run(m, s, evs), o);
  }

  lemma {:induction false} SpentSums(m: Miner, s: State, evs: seq<Event>, o: Outpoint)
    requires Good(s.entries)
    ensures Submissions(m, s, evs, o) + Spent(s, o)
         <= Spent(Run(m, s, evs), o) + 10 * Trackings(m, s, evs, o) + SeqLocks(m, s, evs, o)
  {
    if evs != [] {
      var n := |evs| - 1;
      SpentSums(m, s, evs[..n], o);
      RunKeeps(m, s, evs[..n]);
      SpentStep(m, Run(m, s, evs[..n]), evs[n], o);
    }
  }
}
