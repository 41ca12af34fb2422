/**
 What the watch channel of `src/watch.rs` delivers, told from the calls alone: which values were ever stored, when the
 channel is closed, and what a call by a receiver answers.
 */
module WatchHistory {
  import opened Watch

  // ---------- what was stored ----------

  ghost predicate SomeReceiver<T>(s: State<T>) {
    exists r :: 0 <= r < |s.receivers| && !s.receivers[r].pc.Gone?
  }

  /** The action is a send that is not refused. */
  ghost predicate Sends<T>(s: State<T>, a: Action<T>) {
    a.Outside? && a.ev.Send? && s.sender.SIdle? && SomeReceiver(s)
  }

  /** The values sent in a run, in order; a send without a receiver is refused. */
  ghost function Sent<T>(init: T, acts: seq<Action<T>>): seq<T> {
    if acts == [] then []
    else
      var n := |acts| - 1;
      Sent(init, acts[..n]) + if Sends(Run(Channel(init), acts[..n]), acts[n]) then [acts[n].ev.v] else []
  }

  /** The value being sent and not yet stored. */
  function Pending<T>(pc: SenderPc<T>): seq<T> {
    match pc
    case SWantWrite(v) => [v]
    case SWriting(v) => [v]
    case _ => []
  }

  function Stored<T>(s: State<T>): seq<T> {
    s.history + Pending(s.sender)
  }

  lemma SenderStepHistory<T>(s: State<T>)
    requires SenderCanStep(s)
    ensures Stored(SenderStep(s)) == Stored(s)
  {
  }

  lemma ReceiverStepHistory<T>(s: State<T>, r: nat)
    requires ReceiverCanStep(s, r)
    ensures Stored(ReceiverStep(s, r)) == Stored(s)
  {
  }

  lemma CountedReceivers<T>(s: State<T>)
    requires Counters(s)
    ensures SomeReceiver(s) <==> s.count != 0
  {
    LivingZero(s.receivers);
  }

  lemma HappenHistory<T>(s: State<T>, ev: Event<T>)
    requires Possible(s, ev)
    ensures Stored(Happen(s, ev)) == Stored(s) + if ev.Send? && s.count != 0 then [ev.v] else []
  {
  }

  lemma StepHistory<T>(s: State<T>, a: Action<T>)
    requires Inv(s) && Enabled(s, a)
    ensures Stored(Apply(s, a)) == Stored(s) + if Sends(s, a) then [a.ev.v] else []
  {
    match a
    case Outside(ev) =>
      CountedReceivers(s);
      HappenHistory(s, ev);
    case BySenderStep => SenderStepHistory(s);
    case ByReceiverStep(r) => ReceiverStepHistory(s, r);
  }

  /** The stored values are the first one and the ones sent, in order, less the one being written. */
  lemma {:induction false} HistoryIsSent<T>(init: T, acts: seq<Action<T>>)
    ensures Stored(Run(Channel(init), acts)) == [init] + Sent(init, acts)
  {
    if acts != [] {
      var n := |acts| - 1;
      var before := Run(Channel(init), acts[..n]);
      HistoryIsSent(init, acts[..n]);
      RunInv(init, acts[..n]);
      if Enabled(before, acts[n]) {
        StepHistory(before, acts[n]);
      } else {
        assert !Sends(before, acts[n]);
      }
    }
  }

  /** Under any interleaving an answered value is the first one or one that was sent, under its place in that order. */
  lemma AnsweredWasSent<T>(init: T, acts: seq<Action<T>>, r: nat)
    requires r < |Run(Channel(init), acts).receivers| && Run(Channel(init), acts).receivers[r].answer.Value?
    ensures var (stored, answer) := ([init] + Sent(init, acts), Run(Channel(init), acts).receivers[r].answer);
            0 < answer.version <= |stored| && answer.v == stored[answer.version - 1]
  {
    AnswersAreFresh(init, acts, r);
    HistoryIsSent(init, acts);
    var s := Run(Channel(init), acts);
    InFront(s.history, Pending(s.sender), [init] + Sent(init, acts), s.receivers[r].answer.version - 1);
  }

  lemma InFront<T>(front: seq<T>, back: seq<T>, all: seq<T>, i: nat)
    requires all == front + back && i < |front|
    ensures i < |all| && all[i] == front[i]
  {
  }

  /** At some point of the run a receiver was answered the value of this version. */
  ghost predicate Returned<T>(init: T, acts: seq<Action<T>>, version: nat) {
    exists k, q :: AnsweredAt(init, acts, version, k, q)
  }

  ghost predicate AnsweredAt<T>(init: T, acts: seq<Action<T>>, version: nat, k: int, q: int) {
    && 0 <= k <= |acts| && var rs := Run(Channel(init), acts[..k]).receivers;
    0 <= q < |rs| && rs[q].answer.Value? && rs[q].answer.version == version
  }

  /** A receiver's version changes only when it is answered, and a clone starts from the receiver it was cloned from. */
  lemma StepSeen<T>(s: State<T>, a: Action<T>, r: nat)
    requires Enabled(s, a) && r < |Apply(s, a).receivers|
    ensures var (rc, version) := (Apply(s, a).receivers[r], Apply(s, a).receivers[r].seen);
            || (rc.answer.Value? && rc.answer.version == version)
            || (exists q :: 0 <= q < |s.receivers| && s.receivers[q].seen == version)
  {
    match a
    case Outside(ev) =>
      if r < |s.receivers| {
        assert s.receivers[r].seen == Apply(s, a).receivers[r].seen;
      } else {
        assert s.receivers[ev.r].seen == Apply(s, a).receivers[r].seen;
      }
    case BySenderStep =>
      assert s.receivers[r].seen == Apply(s, a).receivers[r].seen;
    case ByReceiverStep(q) =>
      ReceiverStepFrame(s, q);
      if !(s.receivers[q].pc.Reading? && q == r) {
        assert s.receivers[r].seen == Apply(s, a).receivers[r].seen;
      }
  }

  /** What a receiver is taken to hold was returned, by it or the one it was cloned from; at first it holds nothing. */
  lemma {:induction false} SeenWasReturned<T>(init: T, acts: seq<Action<T>>, r: nat)
    requires r < |Run(Channel(init), acts).receivers|
    ensures var version := Run(Channel(init), acts).receivers[r].seen; version == 0 || Returned(init, acts, version)
    decreases |acts|
  {
    if acts != [] {
      var n := |acts| - 1;
      var (before, after) := (Run(Channel(init), acts[..n]), Run(Channel(init), acts));
      var version := after.receivers[r].seen;
      if Enabled(before, acts[n]) {
        StepSeen(before, acts[n], r);
        if after.receivers[r].answer.Value? && after.receivers[r].answer.version == version {
          assert acts[..|acts|] == acts;
          assert AnsweredAt(init, acts, version, |acts|, r);
          return;
        }
      }
      var q: nat :| q < |before.receivers| && before.receivers[q].seen == version;
      SeenWasReturned(init, acts[..n], q);
      ReturnedLonger(init, acts, n, version);
    }
  }

  lemma ReturnedLonger<T>(init: T, acts: seq<Action<T>>, n: nat, version: nat)
    requires n <= |acts|
    ensures Returned(init, acts[..n], version) ==> Returned(init, acts, version)
  {
    if Returned(init, acts[..n], version) {
      var k, q :| AnsweredAt(init, acts[..n], version, k, q);
      assert acts[..n][..k] == acts[..k];
      assert AnsweredAt(init, acts, version, k, q);
    }
  }

  // ---------- when the channel is closed ----------

  ghost predicate SenderDropped<T>(init: T, acts: seq<Action<T>>) {
    exists i :: DroppedAt(init, acts, i)
  }

  ghost predicate DroppedAt<T>(init: T, acts: seq<Action<T>>, i: int) {
    0 <= i < |acts| && acts[i] == Outside(DropSender) && Run(Channel(init), acts[..i]).sender.SIdle?
  }

  lemma StepAlive<T>(s: State<T>, a: Action<T>)
    requires Enabled(s, a)
    ensures Apply(s, a).alive == (s.alive && a != Outside(DropSender))
  {
  }

  /** The channel is alive exactly while the sender has not been dropped. */
  lemma {:induction false} AliveIff<T>(init: T, acts: seq<Action<T>>)
    ensures Run(Channel(init), acts).alive <==> !SenderDropped(init, acts)
  {
    if acts == [] {
      assert Run(Channel(init), acts) == Channel(init);
    } else {
      var n := |acts| - 1;
      var before := Run(Channel(init), acts[..n]);
      AliveIff(init, acts[..n]);
      if Enabled(before, acts[n]) {
        StepAlive(before, acts[n]);
      }
      DroppedLater(init, acts);
    }
  }

  lemma DroppedLater<T>(init: T, acts: seq<Action<T>>)
    requires acts != []
    ensures SenderDropped(init, acts) <==> SenderDropped(init, acts[..|acts| - 1]) || DroppedAt(init, acts, |acts| - 1)
  {
    var n := |acts| - 1;
    forall i: int
      ensures DroppedAt(init, acts, i) <==> DroppedAt(init, acts[..n], i) || (i == n && DroppedAt(init, acts, n))
    {
      if 0 <= i < n {
        assert acts[..n][..i] == acts[..i];
      }
    }
  }

  // ---------- what a call answers ----------

  lemma StepClosed<T>(s: State<T>, a: Action<T>, r: nat)
    requires Enabled(s, a) && r < |Apply(s, a).receivers| && Apply(s, a).receivers[r].answer.Closed?
    ensures !s.alive || (r < |s.receivers| && s.receivers[r].answer.Closed?)
  {
  }

  /** Under any interleaving a receiver is told that the channel is closed only after the sender was dropped. */
  lemma {:induction false} ClosedIsDropped<T>(init: T, acts: seq<Action<T>>, r: nat)
    requires r < |Run(Channel(init), acts).receivers| && Run(Channel(init), acts).receivers[r].answer.Closed?
    ensures !Run(Channel(init), acts).alive && SenderDropped(init, acts)
    decreases |acts|
  {
    if acts != [] {
      var n := |acts| - 1;
      var before := Run(Channel(init), acts[..n]);
      if Enabled(before, acts[n]) {
        StepAlive(before, acts[n]);
        StepClosed(before, acts[n], r);
      }
      if before.alive {
        ClosedIsDropped(init, acts[..n], r);
      }
    }
    AliveIff(init, acts);
  }

  /** Neither a send nor anything else of this receiver. */
  predicate LeavesAlone<T>(a: Action<T>, r: nat) {
    a.Outside? ==> !a.ev.Send? && !(a.ev.Call? && a.ev.r == r) && !(a.ev.DropReceiver? && a.ev.r == r)
  }

  predicate NotSending<T>(pc: SenderPc<T>) {
    pc.SIdle? || pc.SDead? || ((pc.SWantMutex? || pc.SNotify? || pc.SRelease?) && pc.dropping)
  }

  /** What is known when the call begins: whether it waits, the last version observed, and whether the sender lives. */
  datatype Start = Start(wait: bool, observed: nat, alive: bool)

  /** What the answer of the call says. */
  ghost predicate Fits<T>(s: State<T>, rc: Receiver<T>, b: Start) {
    var h := s.history;
    match rc.answer
    case NoAnswer => false
    case Closed => !s.alive
    case NoChange(_) => b.alive && !b.wait && b.observed == |h| && rc.seen == |h|
    case Value(v, n) => b.alive && n == |h| > 0 && v == h[n - 1] && (b.wait || b.observed != |h|)
  }

  /** Where the call can be, and what it has found out so far. */
  ghost predicate Underway<T>(s: State<T>, rc: Receiver<T>, b: Start) {
    var beginning := if b.wait then First else Get;
    match rc.pc
    case Idle => Fits(s, rc, b)
    case Gone => false
    case CheckAlive(c) => (c == beginning ==> rc.lastObserved == b.observed) && (c != beginning ==> b.alive && b.wait && UnderMutex(c)) && (!b.alive ==> !s.alive)
    case ReadId(c) => b.alive && (c == beginning ==> rc.lastObserved == b.observed) && (c != beginning ==> b.wait && UnderMutex(c))
    case WantRead(c) => b.alive && (b.wait || b.observed != |s.history|)
    case Reading(c) => b.alive && (b.wait || b.observed != |s.history|)
    case _ => b.alive && b.wait
  }

  ghost predicate InCall<T>(s: State<T>, r: nat, b: Start, h: seq<T>) {
    && Inv(s) && r < |s.receivers| && NotSending(s.sender) && s.history == h && Underway(s, s.receivers[r], b)
  }

  lemma SenderInCall<T>(s: State<T>, r: nat, b: Start, h: seq<T>)
    requires InCall(s, r, b, h) && SenderCanStep(s)
    ensures InCall(SenderStep(s), r, b, h)
  {
    SenderStepInv(s);
  }

  lemma OwnInCall<T>(s: State<T>, r: nat, b: Start, h: seq<T>)
    requires InCall(s, r, b, h) && ReceiverCanStep(s, r)
    ensures InCall(ReceiverStep(s, r), r, b, h)
  {
    ReceiverStepInv(s, r);
    assert ReceiverInv(s, r) && ReceiverInv(ReceiverStep(s, r), r);
  }

  lemma OtherInCall<T>(s: State<T>, r: nat, b: Start, h: seq<T>, q: nat)
    requires InCall(s, r, b, h) && ReceiverCanStep(s, q) && q != r
    ensures InCall(ReceiverStep(s, q), r, b, h)
  {
    ReceiverStepInv(s, q);
    ReceiverStepFrame(s, q);
  }

  lemma EventInCall<T>(s: State<T>, r: nat, b: Start, h: seq<T>, ev: Event<T>)
    requires InCall(s, r, b, h) && Possible(s, ev) && LeavesAlone(Outside(ev), r)
    ensures InCall(Happen(s, ev), r, b, h)
  {
    HappenInv(s, ev);
  }

  lemma {:induction false} RunInCall<T>(s: State<T>, r: nat, b: Start, h: seq<T>, acts: seq<Action<T>>)
    requires InCall(s, r, b, h) && forall i :: 0 <= i < |acts| ==> LeavesAlone(acts[i], r)
    ensures InCall(Run(s, acts), r, b, h)
  {
    if acts != [] {
      var n := |acts| - 1;
      var before := Run(s, acts[..n]);
      RunInCall(s, r, b, h, acts[..n]);
      if Enabled(before, acts[n]) {
        match acts[n]
        case Outside(ev) => EventInCall(before, r, b, h, ev);
        case BySenderStep => SenderInCall(before, r, b, h);
        case ByReceiverStep(q) =>
          if q == r {
            OwnInCall(before, r, b, h);
          } else {
            OtherInCall(before, r, b, h, q);
          }
      }
    }
  }

  lemma {:induction false} RunAppend<T>(s: State<T>, xs: seq<Action<T>>, ys: seq<Action<T>>)
    ensures Run(s, xs + ys) == Run(Run(s, xs), ys)
  {
    if ys == [] {
      assert xs + ys == xs;
    } else {
      var n := |ys| - 1;
      RunAppend(s, xs, ys[..n]);
      assert (xs + ys)[..|xs + ys| - 1] == xs + ys[..n];
    }
  }

  lemma {:induction false} SentAppend<T>(init: T, xs: seq<Action<T>>, ys: seq<Action<T>>)
    requires forall i :: 0 <= i < |ys| ==> !(ys[i].Outside? && ys[i].ev.Send?)
    ensures Sent(init, xs + ys) == Sent(init, xs)
  {
    if ys == [] {
      assert xs + ys == xs;
    } else {
      var n := |ys| - 1;
      SentAppend(init, xs, ys[..n]);
      assert (xs + ys)[..|xs + ys| - 1] == xs + ys[..n];
    }
  }

  lemma CallBegins<T>(s: State<T>, r: nat, wait: bool)
    requires Inv(s) && (s.sender.SIdle? || s.sender.SDead?) && Possible(s, Call(r, wait))
    ensures InCall(Happen(s, Call(r, wait)), r, Start(wait, s.receivers[r].lastObserved, s.alive), s.history)
  {
    HappenInv(s, Call(r, wait));
  }

  function Calling<T>(before: seq<Action<T>>, r: nat, wait: bool, during: seq<Action<T>>): seq<Action<T>> {
    before + ([Outside(Call(r, wait))] + during)
  }

  lemma RunCall<T>(s: State<T>, before: seq<Action<T>>, r: nat, wait: bool, during: seq<Action<T>>, t: State<T>)
    requires t == Run(s, before) && Possible(t, Call(r, wait))
    ensures Run(s, Calling(before, r, wait, during)) == Run(Happen(t, Call(r, wait)), during)
  {
    var call: seq<Action<T>> := [Outside(Call(r, wait))];
    RunAppend(s, before, call + during);
    RunAppend(t, call, during);
    assert call[..0] == [] && call[0] == Outside(Call(r, wait));
    assert Run(t, call) == Happen(t, Call(r, wait));
  }

  /** The answer to a call: the value stored last, unless the channel is closed or this receiver has it and does not wait. */
  ghost predicate Latest<T>(answer: Answer<T>, stored: seq<T>, observed: nat, wait: bool, openBefore: bool, openAfter: bool) {
    match answer
    case NoAnswer => false
    case Closed => !openAfter
    case NoChange(_) => openBefore && !wait && observed == |stored|
    case Value(v, n) => openBefore && 0 < n == |stored| && v == stored[n - 1] && (wait || observed != n)
  }

  /**
   A call that begins while no send is under way and answers before the next one begins answers with the value sent
   last, unless the sender was dropped or, when it does not wait, the receiver has that value already.
   */
  lemma CallAnswers<T>(init: T, before: seq<Action<T>>, r: nat, wait: bool, during: seq<Action<T>>)
    requires var s := Run(Channel(init), before);
             (s.sender.SIdle? || s.sender.SDead?) && r < |s.receivers| && s.receivers[r].pc.Idle?
    requires forall i :: 0 <= i < |during| ==> LeavesAlone(during[i], r)
    ensures var (all, rs) := (Calling(before, r, wait, during), Run(Channel(init), Calling(before, r, wait, during)).receivers);
            var observed := Run(Channel(init), before).receivers[r].lastObserved;
            r < |rs| && Sent(init, all) == Sent(init, before) && (rs[r].pc.Idle? ==>
              Latest(rs[r].answer, [init] + Sent(init, all), observed, wait, !SenderDropped(init, before), !SenderDropped(init, all)))
  {
    var s := Run(Channel(init), before);
    var all := Calling(before, r, wait, during);
    var b := Start(wait, s.receivers[r].lastObserved, s.alive);
    RunInv(init, before);
    CallBegins(s, r, wait);
    RunInCall(Happen(s, Call(r, wait)), r, b, s.history, during);
    RunCall(Channel(init), before, r, wait, during, s);
    SentAppend(init, before, [Outside(Call(r, wait))] + during);
    HistoryIsSent(init, all);
    AliveIff(init, before);
    AliveIff(init, all);
    InCallAnswer(Run(Channel(init), all), r, b);
  }

  lemma InCallAnswer<T>(s: State<T>, r: nat, b: Start)
    requires r < |s.receivers| && NotSending(s.sender) && Underway(s, s.receivers[r], b)
    ensures s.receivers[r].pc.Idle? ==> Latest(s.receivers[r].answer, Stored(s), b.observed, b.wait, b.alive, s.alive)
  {
    assert Stored(s) == s.history;
  }
}
