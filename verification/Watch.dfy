/**
 The watch channel of `src/watch.rs`: one sender and any number of receivers sharing a value behind a read-write lock,
 a version counter, a mutex and a condition variable. Every access to shared state is one step, and steps of
 different threads interleave freely.
 */
module Watch {
  import opened Options

  /** Which read of the channel a receiver is in; the last two hold the mutex. */
  datatype Context = Get | First | Locked | Woken

  datatype ReceiverPc =
    | Idle
    | CheckAlive(c: Context)
    | ReadId(c: Context)
    | WantRead(c: Context)
    | Reading(c: Context)
    | WantMutex
    | EnterWait
    | Sleeping
    | Reacquire
    | Gone

  datatype SenderPc<T> =
    | SIdle
    | SWantWrite(v: T)
    | SWriting(v: T)
    | SWritten
    | SPublished
    | SWantMutex(dropping: bool)
    | SNotify(dropping: bool)
    | SRelease(dropping: bool)
    | SDead

  /** What a receiver's last call answered. */
  datatype Answer<T> = NoAnswer | Closed | NoChange(id: nat) | Value(v: T, version: nat)

  /** `seen` is the version of the value last returned, by this receiver or the one it was cloned from. */
  datatype Receiver<T> = Receiver(pc: ReceiverPc, lastObserved: nat, seen: nat, answer: Answer<T>)

  datatype Owner = BySender | ByReceiver(r: nat)

  /** `history` lists the values ever stored; the stored value is its last, whose version is its length. */
  datatype State<T> = State(
    value: T, id: nat, history: seq<T>,
    writing: bool, readers: set<nat>, mutex: Option<Owner>,
    count: int, alive: bool,
    sender: SenderPc<T>, receivers: seq<Receiver<T>>)

  function Channel<T>(init: T): State<T> {
    State(init, 1, [init], false, {}, None, 1, true, SIdle, [Receiver(Idle, 0, 0, NoAnswer)])
  }

  // ---------- steps ----------

  predicate SenderCanStep<T>(s: State<T>) {
    match s.sender
    case SIdle => false
    case SDead => false
    case SWantWrite(_) => !s.writing && s.readers == {}
    case SWantMutex(_) => s.mutex.None?
    case _ => true
  }

  function WakeAll<T>(rs: seq<Receiver<T>>): (woken: seq<Receiver<T>>)
    ensures |woken| == |rs|
    ensures forall r :: 0 <= r < |rs| ==> woken[r] == Wake(rs[r])
  {
    seq(|rs|, r requires 0 <= r < |rs| => Wake(rs[r]))
  }

  function Wake<T>(rc: Receiver<T>): Receiver<T> {
    if rc.pc.Sleeping? then rc.(pc := Reacquire) else rc
  }

  function SenderStep<T>(s: State<T>): State<T> {
    match s.sender
    case SWantWrite(v) => s.(writing := true, sender := SWriting(v))
    case SWriting(v) => s.(value := v, history := s.history + [v], sender := SWritten)
    case SWritten => s.(id := s.id + 1, sender := SPublished)
    case SPublished => s.(writing := false, sender := SWantMutex(false))
    case SWantMutex(d) => s.(mutex := Some(BySender), sender := SNotify(d))
    case SNotify(d) => s.(receivers := WakeAll(s.receivers), sender := SRelease(d))
    case SRelease(d) => s.(mutex := None, sender := if d then SDead else SIdle)
    case _ => s
  }

  predicate ReceiverCanStep<T>(s: State<T>, r: nat) {
    r < |s.receivers|
    && match s.receivers[r].pc
       case Idle => false
       case Gone => false
       case Sleeping => false
       case WantRead(_) => !s.writing
       case WantMutex => s.mutex.None?
       case Reacquire => s.mutex.None?
       case _ => true
  }

  predicate UnderMutex(c: Context) {
    c.Locked? || c.Woken?
  }

  function At<T>(s: State<T>, r: nat, rc: Receiver<T>): State<T>
    requires r < |s.receivers|
  {
    s.(receivers := s.receivers[r := rc])
  }

  /** Leave the call with an answer, dropping the mutex guard if one is held. */
  function Answered<T>(s: State<T>, r: nat, rc: Receiver<T>, c: Context, answer: Answer<T>): State<T>
    requires r < |s.receivers|
  {
    At(s, r, rc.(pc := Idle, answer := answer)).(mutex := if UnderMutex(c) then None else s.mutex)
  }

  function ReceiverStep<T>(s: State<T>, r: nat): State<T>
    requires ReceiverCanStep(s, r)
  {
    var rc := s.receivers[r];
    match rc.pc
    case CheckAlive(c) =>
      if s.alive then At(s, r, rc.(pc := ReadId(c))) else Answered(s, r, rc, c, Closed)
    case ReadId(c) =>
      if c.Woken? || rc.lastObserved != s.id then At(s, r, rc.(pc := WantRead(c), lastObserved := s.id))
      else if c.Get? then Answered(s, r, rc, c, NoChange(s.id))
      else At(s, r, rc.(pc := if c.First? then WantMutex else EnterWait))
    case WantRead(c) => At(s, r, rc.(pc := Reading(c))).(readers := s.readers + {r})
    case Reading(c) =>
      var version := |s.history|;
      Answered(s, r, rc.(seen := version), c, Value(s.value, version)).(readers := s.readers - {r})
    case WantMutex => At(s, r, rc.(pc := CheckAlive(Locked))).(mutex := Some(ByReceiver(r)))
    case EnterWait => At(s, r, rc.(pc := Sleeping)).(mutex := None)
    case Reacquire => At(s, r, rc.(pc := CheckAlive(Woken))).(mutex := Some(ByReceiver(r)))
    case _ => s
  }

  /** Calls beginning, spurious wake-ups, clones and drops. */
  datatype Event<T> =
    | Send(v: T)
    | DropSender
    | Call(r: nat, wait: bool)
    | Spurious(r: nat)
    | CloneReceiver(r: nat)
    | DropReceiver(r: nat)

  predicate Possible<T>(s: State<T>, ev: Event<T>) {
    match ev
    case Send(_) => s.sender.SIdle?
    case DropSender => s.sender.SIdle?
    case Spurious(r) => r < |s.receivers| && s.receivers[r].pc.Sleeping?
    case Call(r, _) => r < |s.receivers| && s.receivers[r].pc.Idle?
    case CloneReceiver(r) => r < |s.receivers| && s.receivers[r].pc.Idle?
    case DropReceiver(r) => r < |s.receivers| && s.receivers[r].pc.Idle?
  }

  function Happen<T>(s: State<T>, ev: Event<T>): State<T>
    requires Possible(s, ev)
  {
    match ev
    case Send(v) => if s.count == 0 then s else s.(sender := SWantWrite(v))
    case DropSender => s.(alive := false, sender := SWantMutex(true))
    case Call(r, wait) => At(s, r, s.receivers[r].(pc := CheckAlive(if wait then First else Get)))
    case Spurious(r) => At(s, r, s.receivers[r].(pc := Reacquire))
    case CloneReceiver(r) =>
      s.(count := s.count + 1, receivers := s.receivers + [s.receivers[r].(answer := NoAnswer)])
    case DropReceiver(r) => At(s, r, s.receivers[r].(pc := Gone)).(count := s.count - 1)
  }

  /** One step of some thread. */
  datatype Action<T> = Outside(ev: Event<T>) | BySenderStep | ByReceiverStep(r: nat)

  predicate Enabled<T>(s: State<T>, a: Action<T>) {
    match a
    case Outside(ev) => Possible(s, ev)
    case BySenderStep => SenderCanStep(s)
    case ByReceiverStep(r) => ReceiverCanStep(s, r)
  }

  function Apply<T>(s: State<T>, a: Action<T>): State<T>
    requires Enabled(s, a)
  {
    match a
    case Outside(ev) => Happen(s, ev)
    case BySenderStep => SenderStep(s)
    case ByReceiverStep(r) => ReceiverStep(s, r)
  }

  /** A run, in which steps that cannot be taken are skipped. */
  function Run<T>(s: State<T>, acts: seq<Action<T>>): State<T> {
    if acts == [] then s
    else
      var before := Run(s, acts[..|acts| - 1]);
      if Enabled(before, acts[|acts| - 1]) then Apply(before, acts[|acts| - 1]) else before
  }

  // ---------- the invariant ----------

  predicate HoldsMutex(pc: ReceiverPc) {
    match pc
    case CheckAlive(c) => UnderMutex(c)
    case ReadId(c) => UnderMutex(c)
    case WantRead(c) => UnderMutex(c)
    case Reading(c) => UnderMutex(c)
    case EnterWait => true
    case _ => false
  }

  predicate HoldsWrite<T>(pc: SenderPc<T>) {
    pc.SWriting? || pc.SWritten? || pc.SPublished?
  }

  predicate SenderHoldsMutex<T>(pc: SenderPc<T>) {
    pc.SNotify? || pc.SRelease?
  }

  ghost predicate SharedLocks<T>(s: State<T>) {
    && s.writing == HoldsWrite(s.sender)
    && (s.writing ==> s.readers == {})
    && (s.mutex == Some(BySender) <==> SenderHoldsMutex(s.sender))
    && (forall r :: r in s.readers ==> r < |s.receivers|)
    && (s.mutex.Some? && s.mutex.value.ByReceiver? ==> s.mutex.value.r < |s.receivers|)
  }

  /** Each lock is held by exactly the threads that are between taking and releasing it. */
  ghost predicate Locks<T>(s: State<T>) {
    && SharedLocks(s)
    && (forall r: nat :: r < |s.receivers| ==> ReceiverLocks(s, r))
  }

  ghost predicate ReceiverLocks<T>(s: State<T>, r: nat)
    requires r < |s.receivers|
  {
    && (r in s.readers <==> s.receivers[r].pc.Reading?)
    && (s.mutex == Some(ByReceiver(r)) <==> HoldsMutex(s.receivers[r].pc))
  }

  function Living<T>(rs: seq<Receiver<T>>): nat {
    if rs == [] then 0
    else Living(rs[..|rs| - 1]) + if rs[|rs| - 1].pc.Gone? then 0 else 1
  }

  predicate Dropped<T>(pc: SenderPc<T>) {
    pc.SDead? || ((pc.SWantMutex? || pc.SNotify? || pc.SRelease?) && pc.dropping)
  }

  /** The counter is the version of the stored value, except between storing and counting. */
  ghost predicate Counters<T>(s: State<T>) {
    && |s.history| > 0 && s.value == s.history[|s.history| - 1]
    && s.id + (if s.sender.SWritten? then 1 else 0) == |s.history|
    && s.alive == !Dropped(s.sender)
    && s.count == Living(s.receivers)
  }

  ghost predicate AnswerHolds<T>(s: State<T>, rc: Receiver<T>) {
    match rc.answer
    case Value(v, version) => 0 < version <= |s.history| && v == s.history[version - 1] && version <= rc.seen
    case NoChange(id) => id <= rc.seen
    case _ => true
  }

  /** What a receiver last returned is at least as new as what it last observed, unless it is fetching. */
  ghost predicate Fresh<T>(s: State<T>, rc: Receiver<T>) {
    && rc.seen <= |s.history| && rc.lastObserved <= s.id
    && (rc.pc.WantRead? || rc.pc.Reading? || rc.lastObserved <= rc.seen)
    && AnswerHolds(s, rc)
  }

  predicate UpToDate<T>(s: State<T>, rc: Receiver<T>) {
    s.alive && rc.lastObserved == s.id
  }

  /** A change was made and the wake-up for it is still to come. */
  predicate Announcing<T>(pc: SenderPc<T>) {
    pc.SPublished? || pc.SWantMutex? || pc.SNotify?
  }

  /** No receiver sleeps, or is about to, on something it has not seen and will not be woken for. */
  ghost predicate Wakeable<T>(s: State<T>, rc: Receiver<T>) {
    && (rc.pc.Sleeping? || rc.pc.EnterWait? ==> UpToDate(s, rc) || Announcing(s.sender))
    && (rc.pc == ReadId(Locked) ==> s.alive || Announcing(s.sender))
  }

  ghost predicate ReceiverInv<T>(s: State<T>, r: nat)
    requires r < |s.receivers|
  {
    Fresh(s, s.receivers[r]) && Wakeable(s, s.receivers[r])
  }

  ghost predicate Inv<T>(s: State<T>) {
    Locks(s) && Counters(s) && forall r: nat :: r < |s.receivers| ==> ReceiverInv(s, r)
  }

  lemma ChannelInv<T>(init: T)
    ensures Inv(Channel(init))
  {
    var rs := Channel(init).receivers;
    assert rs[..0] == [];
    assert Living(rs) == 1;
  }

  lemma {:induction false} LivingUpdate<T>(rs: seq<Receiver<T>>, r: nat, rc: Receiver<T>)
    requires r < |rs|
    ensures Living(rs[r := rc]) + (if rs[r].pc.Gone? then 0 else 1) == Living(rs) + if rc.pc.Gone? then 0 else 1
  {
    var n := |rs| - 1;
    if r < n {
      LivingUpdate(rs[..n], r, rc);
      assert rs[r := rc][..n] == rs[..n][r := rc];
    } else {
      assert rs[r := rc][..n] == rs[..n];
    }
  }

  lemma {:induction false} LivingWake<T>(rs: seq<Receiver<T>>)
    ensures Living(WakeAll(rs)) == Living(rs)
  {
    if rs != [] {
      var n := |rs| - 1;
      LivingWake(rs[..n]);
      assert WakeAll(rs)[..n] == WakeAll(rs[..n]);
    }
  }

  lemma SenderStepInv<T>(s: State<T>)
    requires Inv(s) && SenderCanStep(s)
    ensures Inv(SenderStep(s))
  {
    var s' := SenderStep(s);
    if s.sender.SNotify? {
      LivingWake(s.receivers);
    }
    forall r: nat | r < |s'.receivers|
      ensures ReceiverInv(s', r) && ReceiverLocks(s', r)
    {
      assert ReceiverInv(s, r) && ReceiverLocks(s, r);
    }
  }

  lemma StepOwnLocks<T>(s: State<T>, r: nat)
    requires Inv(s) && ReceiverCanStep(s, r)
    ensures ReceiverLocks(ReceiverStep(s, r), r)
  {
    assert ReceiverLocks(s, r);
  }

  lemma StepOwnFresh<T>(s: State<T>, r: nat)
    requires Inv(s) && ReceiverCanStep(s, r)
    ensures Fresh(ReceiverStep(s, r), ReceiverStep(s, r).receivers[r])
  {
    assert ReceiverInv(s, r) && ReceiverLocks(s, r);
  }

  lemma StepOwnWakeable<T>(s: State<T>, r: nat)
    requires Inv(s) && ReceiverCanStep(s, r)
    ensures Wakeable(ReceiverStep(s, r), ReceiverStep(s, r).receivers[r])
  {
    assert ReceiverInv(s, r) && ReceiverLocks(s, r);
  }

  lemma StepOther<T>(s: State<T>, r: nat, q: nat)
    requires Inv(s) && ReceiverCanStep(s, r) && q < |s.receivers| && q != r
    ensures ReceiverInv(ReceiverStep(s, r), q) && ReceiverLocks(ReceiverStep(s, r), q)
  {
    var s' := ReceiverStep(s, r);
    assert ReceiverInv(s, q) && ReceiverLocks(s, q) && ReceiverLocks(s, r);
    assert s'.receivers[q] == s.receivers[q] && s'.history == s.history && s'.id == s.id;
    assert s'.alive == s.alive && s'.sender == s.sender;
  }

  lemma ReceiverStepFrame<T>(s: State<T>, r: nat)
    requires ReceiverCanStep(s, r)
    ensures var s' := ReceiverStep(s, r);
            |s'.receivers| == |s.receivers| && s'.receivers == s.receivers[r := s'.receivers[r]] && s'.sender == s.sender
  {
  }

  lemma StepCounters<T>(s: State<T>, r: nat)
    requires Inv(s) && ReceiverCanStep(s, r)
    ensures Counters(ReceiverStep(s, r))
  {
    LivingUpdate(s.receivers, r, ReceiverStep(s, r).receivers[r]);
  }

  lemma StepLocks<T>(s: State<T>, r: nat)
    requires Inv(s) && ReceiverCanStep(s, r)
    ensures SharedLocks(ReceiverStep(s, r))
  {
    assert ReceiverLocks(s, r);
  }

  lemma ReceiverStepInv<T>(s: State<T>, r: nat)
    requires Inv(s) && ReceiverCanStep(s, r)
    ensures Inv(ReceiverStep(s, r))
  {
    StepCounters(s, r);
    StepLocks(s, r);
    forall q: nat | q < |s.receivers|
      ensures ReceiverInv(ReceiverStep(s, r), q) && ReceiverLocks(ReceiverStep(s, r), q)
    {
      if q == r {
        StepOwnLocks(s, r);
        StepOwnFresh(s, r);
        StepOwnWakeable(s, r);
      } else {
        StepOther(s, r, q);
      }
    }
  }

  lemma SenderEventInv<T>(s: State<T>, ev: Event<T>)
    requires Inv(s) && Possible(s, ev) && (ev.Send? || ev.DropSender?)
    ensures Inv(Happen(s, ev))
  {
    var s' := Happen(s, ev);
    forall q: nat | q < |s'.receivers|
      ensures ReceiverInv(s', q) && ReceiverLocks(s', q)
    {
      assert ReceiverInv(s, q) && ReceiverLocks(s, q);
    }
  }

  lemma ReceiverEventInv<T>(s: State<T>, ev: Event<T>)
    requires Inv(s) && Possible(s, ev) && (ev.Call? || ev.Spurious? || ev.DropReceiver?)
    ensures Inv(Happen(s, ev))
  {
    var s' := Happen(s, ev);
    LivingUpdate(s.receivers, ev.r, s'.receivers[ev.r]);
    forall q: nat | q < |s'.receivers|
      ensures ReceiverInv(s', q) && ReceiverLocks(s', q)
    {
      assert ReceiverInv(s, q) && ReceiverLocks(s, q);
    }
  }

  lemma CloneInv<T>(s: State<T>, r: nat)
    requires Inv(s) && Possible(s, CloneReceiver(r))
    ensures Inv(Happen(s, CloneReceiver(r)))
  {
    var s' := Happen(s, CloneReceiver(r));
    assert s'.receivers[..|s.receivers|] == s.receivers;
    assert ReceiverInv(s, r) && ReceiverLocks(s, r);
    forall q: nat | q < |s'.receivers|
      ensures ReceiverInv(s', q) && ReceiverLocks(s', q)
    {
      if q < |s.receivers| {
        assert ReceiverInv(s, q) && ReceiverLocks(s, q);
      }
    }
  }

  lemma HappenInv<T>(s: State<T>, ev: Event<T>)
    requires Inv(s) && Possible(s, ev)
    ensures Inv(Happen(s, ev))
  {
    match ev
    case Send(_) => SenderEventInv(s, ev);
    case DropSender => SenderEventInv(s, ev);
    case CloneReceiver(r) => CloneInv(s, r);
    case _ => ReceiverEventInv(s, ev);
  }

  lemma ApplyInv<T>(s: State<T>, a: Action<T>)
    requires Inv(s) && Enabled(s, a)
    ensures Inv(Apply(s, a))
  {
    match a
    case Outside(ev) => HappenInv(s, ev);
    case BySenderStep => SenderStepInv(s);
    case ByReceiverStep(r) => ReceiverStepInv(s, r);
  }

  /** Every reachable interleaving keeps the invariant. */
  lemma {:induction false} RunInv<T>(init: T, acts: seq<Action<T>>)
    ensures Inv(Run(Channel(init), acts))
  {
    if acts == [] {
      ChannelInv(init);
    } else {
      var before := Run(Channel(init), acts[..|acts| - 1]);
      RunInv(init, acts[..|acts| - 1]);
      if Enabled(before, acts[|acts| - 1]) {
        ApplyInv(before, acts[|acts| - 1]);
      }
    }
  }

  // ---------- no lost wake-up ----------

  /** A sleeping receiver has seen the current version of a live channel, unless the wake-up is on its way. */
  lemma NoLostWakeup<T>(init: T, acts: seq<Action<T>>, r: nat)
    requires var s := Run(Channel(init), acts);
             r < |s.receivers| && s.receivers[r].pc.Sleeping? && !Announcing(s.sender)
    ensures var s := Run(Channel(init), acts); s.alive && s.receivers[r].lastObserved == s.id
    ensures var s := Run(Channel(init), acts); !s.sender.SWritten? ==> s.id == |s.history|
  {
    RunInv(init, acts);
    var s := Run(Channel(init), acts);
    assert ReceiverInv(s, r);
  }

  // ---------- freshness ----------

  /** An answered value was sent, and a refused change means the caller already holds a version no older than the counter it read. */
  lemma AnswersAreFresh<T>(init: T, acts: seq<Action<T>>, r: nat)
    requires r < |Run(Channel(init), acts).receivers|
    ensures var s := Run(Channel(init), acts);
            var rc := s.receivers[r];
            && (rc.answer.Value? ==> 0 < rc.answer.version <= |s.history| && s.history[rc.answer.version - 1] == rc.answer.v)
            && (rc.answer.NoChange? ==> rc.answer.id <= rc.seen)
            && (rc.pc.Idle? ==> rc.lastObserved <= rc.seen)
  {
    RunInv(init, acts);
    assert ReceiverInv(Run(Channel(init), acts), r);
  }

  /** Under the read lock the stored value and the counter agree: no new value with an old id. */
  lemma ReadMatchesId<T>(s: State<T>, r: nat)
    requires Inv(s) && r < |s.receivers| && s.receivers[r].pc.Reading?
    ensures s.id == |s.history| && s.value == s.history[s.id - 1]
  {
    assert ReceiverLocks(s, r);
  }

  lemma ReceiverStepSeen<T>(s: State<T>, r: nat)
    requires Inv(s) && ReceiverCanStep(s, r)
    ensures var rc, rc' := s.receivers[r], ReceiverStep(s, r).receivers[r];
            rc.seen <= rc'.seen && rc.lastObserved <= rc'.lastObserved
  {
    assert ReceiverInv(s, r);
  }

  /** No step takes a receiver back to an older version. */
  lemma SeenGrows<T>(s: State<T>, a: Action<T>, q: nat)
    requires Inv(s) && Enabled(s, a) && q < |s.receivers|
    ensures q < |Apply(s, a).receivers|
    ensures var rc, rc' := s.receivers[q], Apply(s, a).receivers[q];
            rc.seen <= rc'.seen && rc.lastObserved <= rc'.lastObserved
  {
    match a
    case ByReceiverStep(r) =>
      ReceiverStepFrame(s, r);
      ReceiverStepSeen(s, r);
    case BySenderStep =>
    case Outside(ev) =>
  }

  lemma {:induction false} SeenGrowsOverRuns<T>(init: T, acts: seq<Action<T>>, k: nat, r: nat)
    requires k <= |acts| && r < |Run(Channel(init), acts[..k]).receivers|
    ensures r < |Run(Channel(init), acts).receivers|
    ensures Run(Channel(init), acts[..k]).receivers[r].seen <= Run(Channel(init), acts).receivers[r].seen
    decreases |acts|
  {
    if k == |acts| {
      assert acts[..k] == acts;
    } else {
      var front := acts[..|acts| - 1];
      assert front[..k] == acts[..k];
      SeenGrowsOverRuns(init, front, k, r);
      RunInv(init, front);
      var before := Run(Channel(init), front);
      if Enabled(before, acts[|acts| - 1]) {
        SeenGrows(before, acts[|acts| - 1], r);
      }
    }
  }

  /** The count a send looks at is the number of receivers not yet dropped. */
  lemma CountIsLiving<T>(init: T, acts: seq<Action<T>>)
    ensures var s := Run(Channel(init), acts);
            s.count == Living(s.receivers)
            && (s.count == 0 <==> forall r :: 0 <= r < |s.receivers| ==> s.receivers[r].pc.Gone?)
  {
    RunInv(init, acts);
    LivingZero(Run(Channel(init), acts).receivers);
  }

  lemma {:induction false} LivingZero<T>(rs: seq<Receiver<T>>)
    ensures Living(rs) == 0 <==> forall r :: 0 <= r < |rs| ==> rs[r].pc.Gone?
  {
    if rs != [] {
      LivingZero(rs[..|rs| - 1]);
    }
  }

  // ---------- no deadlock ----------

  predicate Resting(pc: ReceiverPc) {
    pc.Idle? || pc.Gone? || pc.Sleeping?
  }

  /** No call is under way except receivers asleep. */
  ghost predicate Settled<T>(s: State<T>) {
    (s.sender.SIdle? || s.sender.SDead?) && forall r :: 0 <= r < |s.receivers| ==> Resting(s.receivers[r].pc)
  }

  /** The holder of the mutex can move whenever nobody writes. */
  lemma HolderMoves<T>(s: State<T>)
    requires Inv(s) && s.mutex.Some? && !SenderHoldsMutex(s.sender) && !s.writing
    ensures exists r :: ReceiverCanStep(s, r)
  {
    var r := s.mutex.value.r;
    assert ReceiverLocks(s, r);
    assert ReceiverCanStep(s, r);
  }

  /** Waiting never forms a cycle: while any call is under way, some thread can take its next step. */
  lemma Progress<T>(s: State<T>)
    requires Inv(s) && !Settled(s)
    ensures SenderCanStep(s) || exists r :: ReceiverCanStep(s, r)
  {
    if !SenderCanStep(s) {
      if s.sender.SWantWrite? {
        var r :| r in s.readers;
        assert ReceiverLocks(s, r);
        assert ReceiverCanStep(s, r);
      } else if s.mutex.Some? {
        HolderMoves(s);
      } else {
        var r: nat :| r < |s.receivers| && !Resting(s.receivers[r].pc);
        assert ReceiverCanStep(s, r);
      }
    }
  }

  // ---------- every call ends ----------

  function ReceiverRank(pc: ReceiverPc): nat {
    match pc
    case Idle => 0
    case Gone => 0
    case Reading(_) => 1
    case WantRead(_) => 2
    case ReadId(c) => if c.Woken? then 3 else if c.Locked? then 8 else 11
    case CheckAlive(c) => if c.Woken? then 4 else if c.Locked? then 9 else 12
    case Reacquire => 5
    case Sleeping => 6
    case EnterWait => 7
    case WantMutex => 10
  }

  function SenderRank<T>(pc: SenderPc<T>): nat {
    match pc
    case SIdle => 0
    case SDead => 0
    case SRelease(_) => 1
    case SNotify(_) => 2
    case SWantMutex(_) => 3
    case SPublished => 4
    case SWritten => 5
    case SWriting(_) => 6
    case SWantWrite(_) => 7
  }

  function Ranks<T>(rs: seq<Receiver<T>>): nat {
    if rs == [] then 0 else Ranks(rs[..|rs| - 1]) + ReceiverRank(rs[|rs| - 1].pc)
  }

  /** A bound on the steps the calls under way can still take. */
  function Rank<T>(s: State<T>): nat {
    SenderRank(s.sender) + Ranks(s.receivers)
  }

  lemma {:induction false} RanksUpdate<T>(rs: seq<Receiver<T>>, r: nat, rc: Receiver<T>)
    requires r < |rs|
    ensures Ranks(rs[r := rc]) + ReceiverRank(rs[r].pc) == Ranks(rs) + ReceiverRank(rc.pc)
  {
    var n := |rs| - 1;
    if r < n {
      RanksUpdate(rs[..n], r, rc);
      assert rs[r := rc][..n] == rs[..n][r := rc];
    } else {
      assert rs[r := rc][..n] == rs[..n];
    }
  }

  lemma {:induction false} RanksWake<T>(rs: seq<Receiver<T>>)
    ensures Ranks(WakeAll(rs)) <= Ranks(rs)
  {
    if rs != [] {
      var n := |rs| - 1;
      RanksWake(rs[..n]);
      assert WakeAll(rs)[..n] == WakeAll(rs[..n]);
    }
  }

  predicate Internal<T>(a: Action<T>) {
    a.BySenderStep? || a.ByReceiverStep?
  }

  lemma ReceiverRankFalls<T>(s: State<T>, r: nat)
    requires ReceiverCanStep(s, r)
    ensures ReceiverRank(ReceiverStep(s, r).receivers[r].pc) < ReceiverRank(s.receivers[r].pc)
  {
  }

  lemma RankFalls<T>(s: State<T>, a: Action<T>)
    requires Internal(a) && Enabled(s, a)
    ensures Rank(Apply(s, a)) < Rank(s)
  {
    match a
    case BySenderStep =>
      RanksWake(s.receivers);
    case ByReceiverStep(r) =>
      ReceiverStepFrame(s, r);
      ReceiverRankFalls(s, r);
      RanksUpdate(s.receivers, r, ReceiverStep(s, r).receivers[r]);
  }

  /** A schedule of threads' own steps, none of them idle. */
  ghost predicate Schedule<T>(s: State<T>, acts: seq<Action<T>>)
    decreases |acts|
  {
    acts == [] || (Internal(acts[0]) && Enabled(s, acts[0]) && Schedule(Apply(s, acts[0]), acts[1..]))
  }

  function After<T>(s: State<T>, acts: seq<Action<T>>): State<T>
    requires Schedule(s, acts)
    decreases |acts|
  {
    if acts == [] then s else After(Apply(s, acts[0]), acts[1..])
  }

  /**
   Whatever the schedule, the calls under way end within `Rank` steps; and when no thread can move any more, nobody
   waits except receivers that have seen the current version of a live channel.
   */
  lemma {:induction false} CallsEnd<T>(s: State<T>, acts: seq<Action<T>>)
    requires Inv(s) && Schedule(s, acts)
    ensures |acts| + Rank(After(s, acts)) <= Rank(s)
    ensures var t := After(s, acts);
            (forall a :: Internal(a) ==> !Enabled(t, a)) ==> Settled(t) && AsleepUpToDate(t)
    decreases |acts|
  {
    if acts == [] {
      if forall a :: Internal(a) ==> !Enabled(s, a) {
        StuckIsSettled(s);
      }
    } else {
      ApplyInv(s, acts[0]);
      RankFalls(s, acts[0]);
      CallsEnd(Apply(s, acts[0]), acts[1..]);
    }
  }

  ghost predicate AsleepUpToDate<T>(s: State<T>) {
    forall r :: 0 <= r < |s.receivers| && s.receivers[r].pc.Sleeping? ==> UpToDate(s, s.receivers[r])
  }

  lemma StuckIsSettled<T>(s: State<T>)
    requires Inv(s)
    requires forall a :: Internal(a) ==> !Enabled(s, a)
    ensures Settled(s) && AsleepUpToDate(s)
  {
    assert !Enabled(s, BySenderStep);
    if r :| ReceiverCanStep(s, r) {
      assert Enabled(s, ByReceiverStep(r));
    }
    if !Settled(s) {
      Progress(s);
    }
    forall r: nat | r < |s.receivers| && s.receivers[r].pc.Sleeping?
      ensures UpToDate(s, s.receivers[r])
    {
      assert ReceiverInv(s, r);
    }
  }
}
