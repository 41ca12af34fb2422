/**
 How a GPU ends up on a mining tier (`src/pom_gpu.rs`): a model that fails to load is banned on that GPU, which then
 falls back to the largest smaller model already served. The block DAA score, the served list and the outcome of
 every load are fixed; state is kept per device, as in the maps of the program.
 */
module Downgrade {
  import opened Options

  datatype Model =
    | Qwen3_1_7B
    | Gemma3_4B
    | DolphinLlama3_8B
    | Qwen3_32B
    | Llama33_70B
    | Llama33_70B_Q2
    | OtherModel(id: nat)

  const VERY_LIGHT_ACTIVATION_DAA: nat := 38_951_445

  /** `pom_tier_index`: a sixth model joins at the bottom at the activation, and the top one is replaced. */
  function PomTierIndex(m: Model, daa: nat): Option<nat> {
    if daa >= VERY_LIGHT_ACTIVATION_DAA then
      match m
      case Qwen3_1_7B => Some(0)
      case Gemma3_4B => Some(1)
      case DolphinLlama3_8B => Some(2)
      case Qwen3_32B => Some(3)
      case Llama33_70B_Q2 => Some(4)
      case _ => None
    else
      match m
      case Gemma3_4B => Some(0)
      case DolphinLlama3_8B => Some(1)
      case Qwen3_32B => Some(2)
      case Llama33_70B => Some(3)
      case _ => None
  }

  lemma TiersAreDistinct(a: Model, b: Model, daa: nat)
    requires PomTierIndex(a, daa).Some? && PomTierIndex(a, daa) == PomTierIndex(b, daa)
    ensures a == b
  {
  }

  /** The activation moves every model that keeps a tier up by one, and replaces only the top one. */
  lemma TiersShiftUp(m: Model, before: nat, after: nat)
    requires before < VERY_LIGHT_ACTIVATION_DAA <= after && PomTierIndex(m, before).Some?
    ensures PomTierIndex(m, after) == if PomTierIndex(m, before) == Some(3) then None else Some(PomTierIndex(m, before).value + 1)
  {
  }

  /** Hundreds of millions of parameters, as the models are named. */
  function Size(m: Model): nat {
    match m
    case Qwen3_1_7B => 17
    case Gemma3_4B => 40
    case DolphinLlama3_8B => 80
    case Qwen3_32B => 320
    case Llama33_70B => 700
    case Llama33_70B_Q2 => 700
    case OtherModel(_) => 0
  }

  /** At every score the tiers are numbered from 0 without a gap, and larger models have higher ones. */
  lemma TiersFollowSize(a: Model, b: Model, daa: nat, t: nat)
    ensures PomTierIndex(a, daa).Some? && PomTierIndex(b, daa).Some? ==>
              (PomTierIndex(a, daa).value < PomTierIndex(b, daa).value <==> Size(a) < Size(b))
    ensures (exists m :: PomTierIndex(m, daa) == Some(t)) <==> t < if daa >= 38_951_445 then 5 else 4
  {
    var after := daa >= VERY_LIGHT_ACTIVATION_DAA;
    assert PomTierIndex(if after then Qwen3_1_7B else Gemma3_4B, daa) == Some(0);
    assert PomTierIndex(if after then Gemma3_4B else DolphinLlama3_8B, daa) == Some(1);
    assert PomTierIndex(if after then DolphinLlama3_8B else Qwen3_32B, daa) == Some(2);
    assert PomTierIndex(if after then Qwen3_32B else Llama33_70B, daa) == Some(3);
    assert after ==> PomTierIndex(Llama33_70B_Q2, daa) == Some(4);
  }

  /** What does not change while a GPU looks for its tier; `ready` says an index is or can be built. */
  datatype Env = Env(
    daa: nat, served: seq<Model>,
    ready: Model -> bool, loads: (nat, Model) -> bool, matches: (nat, Model) -> bool)

  datatype State = State(tiers: map<nat, Model>, banned: set<(nat, Model)>, miners: set<nat>)

  function Tier(env: Env, m: Model): Option<nat> {
    PomTierIndex(m, env.daa)
  }

  predicate Below(env: Env, m: Model, tier: nat) {
    Tier(env, m).Some? && Tier(env, m).value < tier
  }

  /** A smaller model, not banned, and no smaller than the best so far. */
  predicate Beats(env: Env, banned: set<(nat, Model)>, d: nat, failed: nat, m: Model, best: Option<Model>)
    requires best.Some? ==> Tier(env, best.value).Some?
  {
    Below(env, m, failed) && (d, m) !in banned && (best.None? || Tier(env, best.value).value <= Tier(env, m).value)
  }

  /** `max_by_key` over the first `k` served models that are smaller than the failed one and not banned. */
  function Pick(env: Env, banned: set<(nat, Model)>, d: nat, failed: nat, k: nat): (r: Option<Model>)
    requires k <= |env.served|
    ensures r.Some? ==>
      var t := PomTierIndex(r.value, env.daa); r.value in env.served[..k] && t.Some? && t.value < failed && (d, r.value) !in banned
    ensures forall i :: 0 <= i < k && (d, env.served[i]) !in banned ==>
      var t := PomTierIndex(env.served[i], env.daa);
      t.Some? && t.value < failed ==> r.Some? && t.value <= Tier(env, r.value).value
    decreases k
  {
    if k == 0 then None
    else
      var before := Pick(env, banned, d, failed, k - 1);
      var m := env.served[k - 1];
      if Beats(env, banned, d, failed, m, before) then Some(m) else before
  }

  lemma PickNext(env: Env, banned: set<(nat, Model)>, d: nat, failed: nat, k: nat, best: Option<Model>)
    requires k < |env.served| && best == Pick(env, banned, d, failed, k)
    ensures Pick(env, banned, d, failed, k + 1)
         == if Beats(env, banned, d, failed, env.served[k], best) then Some(env.served[k]) else best
  {
  }

  function AfterOom(env: Env, s: State, d: nat, failed: Model): State {
    var t := Tier(env, failed);
    var banned := s.banned + {(d, failed)};
    var pick := if t.Some? then Pick(env, banned, d, t.value, |env.served|) else None;
    State(if pick.Some? then s.tiers[d := pick.value] else s.tiers, banned, s.miners)
  }

  /** The model the next call tries to load, if it gets that far. */
  function Attempt(env: Env, s: State, d: nat): Option<Model> {
    if d in s.miners || d !in s.tiers || Tier(env, s.tiers[d]).None? || (d, s.tiers[d]) in s.banned
       || !env.ready(s.tiers[d])
    then None
    else Some(s.tiers[d])
  }

  /** `ensure_installed`. */
  function Step(env: Env, s: State, d: nat): (State, bool) {
    if d in s.miners then (s, true)
    else
      var m := Attempt(env, s, d);
      if m.None? then (s, false)
      else if !env.loads(d, m.value) then (AfterOom(env, s, d, m.value), false)
      else if !env.matches(d, m.value) then (s, false)
      else (s.(miners := s.miners + {d}), true)
  }

  function Steps(env: Env, s: State, d: nat, n: nat): State {
    if n == 0 then s else Step(env, Steps(env, s, d, n - 1), d).0
  }

  // ---------- the installer ----------

  class Installer {
    var miningTiers: map<nat, Model>
    var oomBanlist: set<(nat, Model)>
    var miners: set<nat>

    function Abstract(): State
      reads this
    {
      State(miningTiers, oomBanlist, miners)
    }

    /** The largest smaller served model that is not banned on the device. */
    method LargestSmaller(env: Env, d: nat, tier: nat) returns (best: Option<Model>)
      ensures best == Pick(env, oomBanlist, d, tier, |env.served|)
    {
      best := None;
      for k := 0 to |env.served|
        invariant best == Pick(env, oomBanlist, d, tier, k)
      {
        PickNext(env, oomBanlist, d, tier, k, best);
        var m := env.served[k];
        if Beats(env, oomBanlist, d, tier, m, best) {
          best := Some(m);
        }
      }
    }

    method DowngradeAfterOom(env: Env, d: nat, failed: Model) returns (ok: bool)
      requires (d, failed) in oomBanlist
      modifies this`miningTiers
      ensures Abstract() == AfterOom(env, old(Abstract()), d, failed)
    {
      assert oomBanlist + {(d, failed)} == oomBanlist;
      var tier := Tier(env, failed);
      if tier.None? {
        return false;
      }
      var best := LargestSmaller(env, d, tier.value);
      if best.Some? {
        miningTiers := miningTiers[d := best.value];
      }
      return best.Some?;
    }

    method EnsureInstalled(env: Env, d: nat) returns (ok: bool)
      modifies this
      ensures (Abstract(), ok) == Step(env, old(Abstract()), d)
    {
      if d in miners {
        return true;
      }
      if d !in miningTiers {
        return false;
      }
      var m := miningTiers[d];
      if PomTierIndex(m, env.daa).None? || (d, m) in oomBanlist || !env.ready(m) {
        return false;
      }
      if !env.loads(d, m) {
        ghost var before := Abstract();
        oomBanlist := oomBanlist + {(d, m)};
        var _ := DowngradeAfterOom(env, d, m);
        assert Abstract() == AfterOom(env, before, d, m);
        return false;
      }
      if !env.matches(d, m) {
        return false;
      }
      miners := miners + {d};
      return true;
    }
  }

  // ---------- where it stops ----------

  /** A GPU about to look for its tier. */
  predicate Starting(env: Env, s: State, d: nat) {
    d !in s.miners && d in s.tiers && Tier(env, s.tiers[d]).Some? && (d, s.tiers[d]) !in s.banned
  }

  /** The assigned model, and the smaller served ones not banned at the start. */
  predicate Candidate(env: Env, s: State, d: nat, m: Model)
    requires Starting(env, s, d)
  {
    m == s.tiers[d] || (m in env.served && Below(env, m, Tier(env, s.tiers[d]).value) && (d, m) !in s.banned)
  }

  predicate Fails(env: Env, d: nat, m: Model) {
    env.ready(m) && !env.loads(d, m)
  }

  /** Every larger candidate has failed and is banned, every smaller one is untouched. */
  ghost predicate Descending(env: Env, s0: State, s: State, d: nat)
    requires Starting(env, s0, d)
  {
    && d in s.tiers && Candidate(env, s0, d, s.tiers[d])
    && (forall m :: Candidate(env, s0, d, m) ==> Placed(env, s, d, m))
    && (d in s.miners ==> env.loads(d, s.tiers[d]) && env.matches(d, s.tiers[d]) && (d, s.tiers[d]) !in s.banned)
    && ((d, s.tiers[d]) in s.banned ==>
        Fails(env, d, s.tiers[d])
        && forall m :: Candidate(env, s0, d, m) ==> !Below(env, m, Tier(env, s.tiers[d]).value))
    && (forall m :: (d, m) in s.banned && (d, m) !in s0.banned ==> Candidate(env, s0, d, m) && Fails(env, d, m))
    && (forall m :: (d, m) in s0.banned ==> (d, m) in s.banned)
  }

  predicate Placed(env: Env, s: State, d: nat, m: Model)
    requires d in s.tiers
  {
    var cur := Tier(env, s.tiers[d]);
    && Tier(env, m).Some? && cur.Some?
    && (Tier(env, m).value > cur.value ==> (d, m) in s.banned && Fails(env, d, m))
    && (Tier(env, m).value < cur.value ==> (d, m) !in s.banned)
  }

  /** A device just assigned a model with a tier is about to look. */
  lemma FreshStarts(env: Env, d: nat, m: Model)
    requires PomTierIndex(m, env.daa).Some?
    ensures Starting(env, State(map[d := m], {}, {}), d)
  {
  }

  lemma StartDescends(env: Env, s: State, d: nat)
    requires Starting(env, s, d)
    ensures Descending(env, s, s, d)
  {
  }

  lemma StepDescends(env: Env, s0: State, s: State, d: nat)
    requires Starting(env, s0, d) && Descending(env, s0, s, d)
    ensures Descending(env, s0, Step(env, s, d).0, d)
  {
    var m := Attempt(env, s, d);
    if m.Some? && !env.loads(d, m.value) {
      OomDescends(env, s0, s, d);
    }
  }

  lemma OomDescends(env: Env, s0: State, s: State, d: nat)
    requires Starting(env, s0, d) && Descending(env, s0, s, d)
    requires Attempt(env, s, d).Some? && !env.loads(d, s.tiers[d])
    ensures Descending(env, s0, AfterOom(env, s, d, s.tiers[d]), d)
  {
    var cur := s.tiers[d];
    var t := Tier(env, cur).value;
    var s' := AfterOom(env, s, d, cur);
    var pick := Pick(env, s'.banned, d, t, |env.served|);
    assert env.served[..|env.served|] == env.served;
    forall m | Candidate(env, s0, d, m)
      ensures Placed(env, s', d, m)
      ensures pick.None? ==> !Below(env, m, t)
    {
      assert Placed(env, s, d, m);
      if m != cur && Tier(env, m) == Tier(env, cur) {
        TiersAreDistinct(m, cur, env.daa);
      }
      if Below(env, m, t) {
        var i :| 0 <= i < |env.served| && env.served[i] == m;
        if pick.Some? && Tier(env, m) == Tier(env, pick.value) {
          TiersAreDistinct(m, pick.value, env.daa);
        }
      }
    }
  }

  /** Nothing left to try: installed, given up, or refused for a reason other than memory. */
  predicate Final(env: Env, s: State, d: nat)
    requires d in s.tiers
  {
    var m := s.tiers[d];
    d in s.miners || (d, m) in s.banned || !env.ready(m) || (env.loads(d, m) && !env.matches(d, m))
  }

  /** The tiers still open to the device. */
  function Room(env: Env, s: State, d: nat): nat
    requires d in s.tiers
  {
    var m := s.tiers[d];
    if d in s.miners || (d, m) in s.banned || Tier(env, m).None? then 0 else Tier(env, m).value + 1
  }

  lemma StepFalls(env: Env, s0: State, s: State, d: nat)
    requires Starting(env, s0, d) && Descending(env, s0, s, d)
    ensures d in Step(env, s, d).0.tiers
    ensures Final(env, s, d) ==> Step(env, s, d) == (s, d in s.miners)
    ensures !Final(env, s, d) ==> Room(env, Step(env, s, d).0, d) < Room(env, s, d)
  {
    StepDescends(env, s0, s, d);
    assert Placed(env, s, d, s.tiers[d]);
  }

  lemma {:induction false} StepsDescend(env: Env, s0: State, d: nat, n: nat)
    requires Starting(env, s0, d)
    ensures Descending(env, s0, Steps(env, s0, d, n), d)
    ensures var s := Steps(env, s0, d, n); Final(env, s, d) || Room(env, s, d) + n <= Room(env, s0, d)
  {
    if n == 0 {
      StartDescends(env, s0, d);
    } else {
      StepsDescend(env, s0, d, n - 1);
      var s := Steps(env, s0, d, n - 1);
      StepDescends(env, s0, s, d);
      StepFalls(env, s0, s, d);
    }
  }

  /**
   After one call per tier the search is over: the device mines the largest candidate that does not fail to load, or,
   when that one cannot be indexed or does not match, stays on it without mining, or all candidates have failed.
   */
  lemma EndsAtRightTier(env: Env, s0: State, d: nat, n: nat)
    requires Starting(env, s0, d) && n > Tier(env, s0.tiers[d]).value
    ensures var s := Steps(env, s0, d, n);
            && d in s.tiers && Final(env, s, d) && Candidate(env, s0, d, s.tiers[d])
            && (forall m :: Candidate(env, s0, d, m) && !Fails(env, d, m) ==>
                 !Fails(env, d, s.tiers[d]) && Tier(env, m).value <= Tier(env, s.tiers[d]).value)
            && (d in s.miners ==> env.loads(d, s.tiers[d]) && env.matches(d, s.tiers[d]))
  {
    StepsDescend(env, s0, d, n);
    var s := Steps(env, s0, d, n);
    assert Placed(env, s, d, s.tiers[d]);
    forall m | Candidate(env, s0, d, m) && !Fails(env, d, m)
      ensures !Fails(env, d, s.tiers[d]) && Tier(env, m).value <= Tier(env, s.tiers[d]).value
    {
      assert Placed(env, s, d, m);
      if Tier(env, m) == Tier(env, s.tiers[d]) {
        TiersAreDistinct(m, s.tiers[d], env.daa);
      }
    }
  }

  /** With indexes and counts in order, the device ends up mining exactly when some candidate loads. */
  lemma MinesIffSomethingLoads(env: Env, s0: State, d: nat, n: nat)
    requires Starting(env, s0, d) && n > Tier(env, s0.tiers[d]).value
    requires forall m :: Candidate(env, s0, d, m) ==> env.ready(m) && env.matches(d, m)
    ensures d in Steps(env, s0, d, n).miners <==> exists m :: Candidate(env, s0, d, m) && env.loads(d, m)
  {
    EndsAtRightTier(env, s0, d, n);
    StepsDescend(env, s0, d, n);
    var s := Steps(env, s0, d, n);
    if m :| Candidate(env, s0, d, m) && env.loads(d, m) {
      assert !Fails(env, d, m);
    }
  }

  lemma RoomStep(env: Env, s0: State, d: nat, n: nat)
    requires Starting(env, s0, d)
    ensures var s, s' := Steps(env, s0, d, n), Steps(env, s0, d, n + 1);
            && d in s.tiers && d in s'.tiers && Room(env, s', d) <= Room(env, s, d)
            && (Attempt(env, s, d).Some? && !env.loads(d, s.tiers[d]) ==> Room(env, s', d) < Room(env, s, d))
  {
    StepsDescend(env, s0, d, n);
    StepFalls(env, s0, Steps(env, s0, d, n), d);
  }

  function RoomAt(env: Env, s0: State, d: nat, n: nat): nat {
    var s := Steps(env, s0, d, n);
    if d in s.tiers then Room(env, s, d) else 0
  }

  /** The attempt of the `n`-th call, which fails. */
  predicate FailsAt(env: Env, s0: State, d: nat, n: nat) {
    var a := Attempt(env, Steps(env, s0, d, n), d);
    a.Some? && !env.loads(d, a.value)
  }

  lemma RoomNeverRises(env: Env, s0: State, d: nat, n: nat, next: nat)
    requires Starting(env, s0, d) && next == n + 1
    ensures RoomAt(env, s0, d, next) <= RoomAt(env, s0, d, n)
  {
    RoomStep(env, s0, d, n);
  }

  lemma RoomFallsAt(env: Env, s0: State, d: nat, n: nat, next: nat)
    requires Starting(env, s0, d) && FailsAt(env, s0, d, n) && next == n + 1
    ensures RoomAt(env, s0, d, next) < RoomAt(env, s0, d, n)
  {
    RoomStep(env, s0, d, n);
  }

  lemma {:induction false} RoomFalls(env: Env, s0: State, d: nat, i: nat, j: nat)
    requires Starting(env, s0, d) && FailsAt(env, s0, d, i) && i < j
    ensures RoomAt(env, s0, d, j) < RoomAt(env, s0, d, i)
    decreases j
  {
    var n: nat := j - 1;
    if n == i {
      RoomFallsAt(env, s0, d, i, j);
    } else {
      RoomFalls(env, s0, d, i, n);
      RoomNeverRises(env, s0, d, n, j);
    }
  }

  lemma AttemptHasRoom(env: Env, s0: State, d: nat, n: nat)
    requires Attempt(env, Steps(env, s0, d, n), d).Some?
    ensures var m := Attempt(env, Steps(env, s0, d, n), d).value; Tier(env, m).Some? && RoomAt(env, s0, d, n) == Tier(env, m).value + 1
  {
  }

  lemma {:induction false} FinalLasts(env: Env, s0: State, d: nat, n: nat, m: nat)
    requires Starting(env, s0, d) && d in Steps(env, s0, d, n).tiers && Final(env, Steps(env, s0, d, n), d) && n <= m
    ensures Steps(env, s0, d, m) == Steps(env, s0, d, n)
    decreases m
  {
    if n < m {
      FinalLasts(env, s0, d, n, m - 1);
      StepsDescend(env, s0, d, m - 1);
      StepFalls(env, s0, Steps(env, s0, d, m - 1), d);
    }
  }

  /** A load that succeeds ends the search: the device mines, or every later call tries the same model again. */
  lemma SuccessIsLast(env: Env, s0: State, d: nat, i: nat, next: nat, j: nat)
    requires Starting(env, s0, d) && Attempt(env, Steps(env, s0, d, i), d).Some? && !FailsAt(env, s0, d, i) && next == i + 1 <= j
    ensures Attempt(env, Steps(env, s0, d, j), d).None? || Attempt(env, Steps(env, s0, d, j), d) == Attempt(env, Steps(env, s0, d, i), d)
  {
    var s := Steps(env, s0, d, i);
    assert Steps(env, s0, d, next) == Step(env, s, d).0;
    SuccessSettles(env, s, d);
    FinalLasts(env, s0, d, next, j);
  }

  lemma SuccessSettles(env: Env, s: State, d: nat)
    requires Attempt(env, s, d).Some? && env.loads(d, s.tiers[d])
    ensures var s' := Step(env, s, d).0;
            d in s'.tiers && Final(env, s', d) && (Attempt(env, s', d).None? || Attempt(env, s', d) == Attempt(env, s, d))
  {
  }

  /** The tiers of a device's load attempts never rise; a later one is lower exactly when the earlier load failed. */
  lemma AttemptsDescend(env: Env, s0: State, d: nat, i: nat, j: nat, a: Model, b: Model)
    requires Starting(env, s0, d) && i < j && Attempt(env, Steps(env, s0, d, i), d) == Some(a) && Attempt(env, Steps(env, s0, d, j), d) == Some(b)
    ensures Tier(env, a).Some? && Tier(env, b).Some? && Tier(env, b).value <= Tier(env, a).value
    ensures Tier(env, b).value < Tier(env, a).value <==> FailsAt(env, s0, d, i)
  {
    AttemptHasRoom(env, s0, d, i);
    AttemptHasRoom(env, s0, d, j);
    if FailsAt(env, s0, d, i) {
      RoomFalls(env, s0, d, i, j);
    } else {
      SuccessIsLast(env, s0, d, i, i + 1, j);
    }
  }

  // ---------- all calls of all devices ----------

  /** The state after calls of any devices, each with its own score, served list and load outcomes. */
  function RunCalls(s: State, calls: seq<(Env, nat)>): State {
    if calls == [] then s
    else
      var n := |calls| - 1;
      Step(calls[n].0, RunCalls(s, calls[..n]), calls[n].1).0
  }

  /** The model call `i` tries to load. */
  function CallAttempt(s: State, calls: seq<(Env, nat)>, i: nat): Option<Model>
    requires i < |calls|
  {
    Attempt(calls[i].0, RunCalls(s, calls[..i]), calls[i].1)
  }

  lemma {:induction false} BansGrow(s: State, calls: seq<(Env, nat)>, i: nat)
    requires i <= |calls|
    ensures RunCalls(s, calls[..i]).banned <= RunCalls(s, calls).banned
    decreases |calls| - i
  {
    if i < |calls| {
      BansGrow(s, calls, i + 1);
      assert calls[..i + 1][..i] == calls[..i];
    } else {
      assert calls[..i] == calls;
    }
  }

  /** The bans are the failed loads: a call adds the device and model it tried and could not load, and nothing else. */
  lemma BanIff(s: State, calls: seq<(Env, nat)>, i: nat, e: nat, m: Model)
    requires i < |calls|
    ensures (e, m) in RunCalls(s, calls[..i + 1]).banned
       <==> (e, m) in RunCalls(s, calls[..i]).banned
            || (e == calls[i].1 && CallAttempt(s, calls, i) == Some(m) && !calls[i].0.loads(e, m))
  {
    assert calls[..i + 1][..i] == calls[..i];
  }

  /** A model that failed to load on a device is never loaded on it again, whatever is called in between. */
  lemma NeverRetried(s: State, calls: seq<(Env, nat)>, i: nat, j: nat)
    requires i < j < |calls| && CallAttempt(s, calls, i).Some?
    requires !calls[i].0.loads(calls[i].1, CallAttempt(s, calls, i).value)
    ensures calls[j].1 == calls[i].1 ==> CallAttempt(s, calls, j) != CallAttempt(s, calls, i)
  {
    var front := calls[..j];
    BansGrow(s, front, i + 1);
    assert front[..i + 1] == calls[..i + 1] && calls[..i + 1][..i] == calls[..i];
    assert (calls[i].1, CallAttempt(s, calls, i).value) in RunCalls(s, calls[..i + 1]).banned;
  }

  /** The device keeps its assignment, its bans and its miner. */
  ghost predicate Untouched(s: State, s': State, e: nat) {
    && (e in s'.tiers <==> e in s.tiers) && (e in s.tiers ==> s'.tiers[e] == s.tiers[e])
    && (forall m :: (e, m) in s'.banned <==> (e, m) in s.banned) && (e in s'.miners <==> e in s.miners)
  }

  lemma StepSparesOthers(env: Env, s: State, d: nat, e: nat)
    requires e != d
    ensures Untouched(s, Step(env, s, d).0, e)
  {
  }

  /** Whatever is called for other devices, a device keeps its assignment, its bans and its miner. */
  lemma {:induction false} OthersUntouched(s: State, calls: seq<(Env, nat)>, e: nat)
    requires forall i :: 0 <= i < |calls| ==> calls[i].1 != e
    ensures Untouched(s, RunCalls(s, calls), e)
  {
    if calls != [] {
      var n := |calls| - 1;
      OthersUntouched(s, calls[..n], e);
      StepSparesOthers(calls[n].0, RunCalls(s, calls[..n]), calls[n].1, e);
    }
  }
}
