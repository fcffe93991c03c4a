/** When Shutdown of the event envelope drains what was accepted, and when it can leave events behind. */
module EnvelopeDrain {
  import opened Common
  import opened EventEnvelope
  import opened EnvelopeProofs

  /** Any continuation of a run, from the state it starts in. */
  ghost predicate Chain(states: seq<State>, steps: seq<Step>) {
    && |states| == |steps| + 1
    && forall i :: 0 <= i < |steps| ==> Enabled(states[i], steps[i]) && states[i + 1] == Next(states[i], steps[i])
  }

  lemma ChainJoin(a: seq<State>, sa: seq<Step>, b: seq<State>, sb: seq<Step>)
    requires Chain(a, sa) && Chain(b, sb) && a[|sa|] == b[0]
    ensures Chain(a + b[1..], sa + sb)
    ensures (a + b[1..])[0] == a[0] && (a + b[1..])[|sa + sb|] == b[|sb|]
  {
    hide Next, Enabled;
    var states, steps := a + b[1..], sa + sb;
    forall i | 0 <= i < |steps| ensures Enabled(states[i], steps[i]) && states[i + 1] == Next(states[i], steps[i]) {
      if i >= |sa| {
        assert states[i] == b[i - |sa|] && states[i + 1] == b[i - |sa| + 1] && steps[i] == sb[i - |sa|];
      }
    }
  }

  /** A continuation in which the worker leaves and nothing fails. */
  ghost predicate CleanExit(s: State, states: seq<State>, steps: seq<Step>) {
    Chain(states, steps) && states[0] == s && states[|steps|].worker.Exited? && !Degraded(states[|steps|])
  }

  /** Every way for the worker to leave without a failure has processed all that was accepted. */
  ghost predicate AlwaysDrains(s: State) {
    forall after: seq<State>, more: seq<Step> :: CleanExit(s, after, more) ==>
        after[|more|].processed == after[|more|].accepted
  }

  // ---------------------------------------------------------------- what the worker has seen

  /** The newest index seen lies between the two indexes, and ahead of an event being taken; a worker
      about to look at the stop flag, or gone without a failure, has dealt with all it has seen. */
  ghost predicate SeenOk(s: State) {
    && s.readIndex <= s.seen <= s.writeIndex
    && (s.worker.TakeSlot? || s.worker.StoreRead? ==> s.readIndex < s.seen)
    && (s.worker.LoadStopping? ==> s.seen == s.readIndex)
    && (s.worker.WorkerNotify? ==> Degraded(s))
    && (s.worker.Exited? && !Degraded(s) ==> s.stopping && s.seen == s.readIndex == |s.delivered| == s.processed)
  }

  /** With an event in its hands, or failing, the worker looks at no index. */
  ghost predicate Blind(s: State, s': State) {
    && s'.writeIndex == s.writeIndex && s'.log == s.log && s'.seen == s.seen && s'.stopping == s.stopping
    && s'.readIndex == (if s.worker.StoreRead? then s.readIndex + 1 else s.readIndex)
    && !s'.worker.TakeSlot? && !s'.worker.LoadStopping?
    && (s'.worker.StoreRead? ==> s.worker.TakeSlot?)
    && (s'.worker.WorkerNotify? ==> Degraded(s'))
    && (s'.worker.Exited? ==> s.worker.WorkerNotify?)
    && s'.flags == (if s.worker.WorkerDegrade? then ENVELOPE_FAILED else s.flags)
    && (|| s'.delivered == s.delivered
        || (&& s.worker.CompareSequence? && s'.delivered == s.delivered + [s.worker.ev]
            && s.worker.ev.sequence == s.expected))
  }

  lemma ServingIsBlind(s: State, pick: nat, ok: bool)
    requires WorkerEnabled(s, pick) && !BetweenEvents(s.worker)
    requires s.worker.StoreRead? ==> s.worker.index == s.readIndex
    ensures Blind(s, WorkerNext(s, pick, ok))
  {
    if s.worker.TakeSlot? || s.worker.StoreRead? || s.worker.CompareSequence? {
      TakingIsBlind(s, pick, ok);
    } else {
      hide Pos;
    }
  }

  lemma TakingIsBlind(s: State, pick: nat, ok: bool)
    requires WorkerEnabled(s, pick) && (s.worker.TakeSlot? || s.worker.StoreRead? || s.worker.CompareSequence?)
    requires s.worker.StoreRead? ==> s.worker.index == s.readIndex
    ensures Blind(s, WorkerNext(s, pick, ok))
  {
    hide Pos;
  }

  lemma WorkerSeen(s: State, pick: nat, ok: bool)
    requires Inv(s) && SeenOk(s) && WorkerEnabled(s, pick)
    ensures SeenOk(WorkerNext(s, pick, ok))
  {
    assert s.worker.LoadStopping? ==> Settled(TallyOf(s));
    assert s.worker.StoreRead? ==> s.worker.index == s.readIndex;
    hide Inv, Pos, CanRun;
    if !BetweenEvents(s.worker) {
      ServingIsBlind(s, pick, ok);
      hide WorkerNext;
    }
  }

  /** What a caller's step can do to what the worker goes by. */
  ghost predicate WorkerLeftAlone(s: State, s': State, published: bool) {
    && s'.readIndex == s.readIndex && s'.seen == s.seen && s'.delivered == s.delivered && s'.processed == s.processed
    && (s'.worker == s.worker || (s.worker.Sleeping? && s'.worker.LockAndTest?))
    && (s.stopping ==> s'.stopping)
    && ((s'.writeIndex == s.writeIndex && s'.log == s.log) || (published && !Degraded(s) && !s.stopping))
    && (Degraded(s) ==> Degraded(s'))
  }

  lemma HolderLeavesWorker(s: State, t: nat, pick: nat, ok: bool)
    requires ThreadEnabled(s, t, pick) && Holding(s.threads[t])
    ensures WorkerLeftAlone(s, ThreadNext(s, t, pick, ok), s.threads[t].Publish?)
  {
    hide Pos;
  }

  lemma SignallerLeavesWorker(s: State, t: nat, pick: nat, ok: bool)
    requires ThreadEnabled(s, t, pick) && Signalling(s.threads[t])
    ensures WorkerLeftAlone(s, ThreadNext(s, t, pick, ok), false)
  {
    hide Pos;
  }

  lemma ThreadLeavesWorker(s: State, t: nat, pick: nat, ok: bool)
    requires ThreadEnabled(s, t, pick)
    ensures WorkerLeftAlone(s, ThreadNext(s, t, pick, ok), s.threads[t].Publish?)
  {
    if Holding(s.threads[t]) {
      HolderLeavesWorker(s, t, pick, ok);
    } else if Signalling(s.threads[t]) {
      SignallerLeavesWorker(s, t, pick, ok);
    } else {
      hide Pos, Wake;
    }
  }

  lemma ThreadSeen(s: State, t: nat, pick: nat, ok: bool)
    requires Inv(s) && SeenOk(s) && ThreadEnabled(s, t, pick)
    ensures SeenOk(ThreadNext(s, t, pick, ok))
  {
    ThreadLeavesWorker(s, t, pick, ok);
    ThreadStepInv(s, t, pick, ok);
    if s.threads[t].Publish? {
      assert ThreadNext(s, t, pick, ok).writeIndex >= s.writeIndex by { assert Holding(s.threads[t]) && t == s.owner; }
    }
    hide ThreadNext, RingOf, Numbered, OneHolder, NotifyPending, Pos, HolderOk, Filled, CanRun, Progress;
  }

  lemma StepSeen(s: State, step: Step)
    requires Inv(s) && SeenOk(s) && Enabled(s, step)
    ensures Inv(Next(s, step)) && SeenOk(Next(s, step))
  {
    StepInv(s, step);
    hide Inv, WorkerNext, ThreadNext;
    match step
    case WorkerMove(pick, ok) => WorkerSeen(s, pick, ok);
    case ThreadMove(t, pick, ok) => ThreadSeen(s, t, pick, ok);
    case _ =>
  }

  lemma {:induction false} ChainSeen(states: seq<State>, steps: seq<Step>, i: nat)
    requires Chain(states, steps) && i <= |steps| && Inv(states[0]) && SeenOk(states[0])
    ensures Inv(states[i]) && SeenOk(states[i])
  {
    hide Inv, SeenOk, Next, Enabled;
    if i > 0 {
      ChainSeen(states, steps, i - 1);
      StepSeen(states[i - 1], steps[i - 1]);
    }
  }

  /** In every state of every run. */
  lemma RunSeen(states: seq<State>, steps: seq<Step>, i: nat)
    requires IsRun(states, steps) && i <= |steps|
    ensures Inv(states[i]) && SeenOk(states[i])
  {
    RunInv(states, steps, 0);
    assert SeenOk(states[0]);
    hide Inv, SeenOk, Next, Enabled, Init;
    ChainSeen(states, steps, i);
  }

  // ---------------------------------------------------------------- exactly when draining is certain

  /** The events in [from, to) carry the numbers the worker will expect. */
  ghost predicate RightNumbers(log: seq<Event>, from: nat, to: nat) {
    forall k :: from <= k < to && k < |log| ==> log[k].sequence == k + 1
  }

  /** The worker can stop short: something was published that it has not seen, it will not take the
      mutex again before it looks at the stop flag, and all it has seen it can serve. */
  ghost predicate CanStopShort(s: State) {
    && s.seen < s.writeIndex
    && !(s.worker.LockAndTest? || s.worker.Sleeping? || s.worker.WorkerDegrade? || s.worker.WorkerNotify?)
    && RightNumbers(s.log, |s.delivered|, s.seen)
  }

  ghost predicate WillDrain(s: State) { s.stopping && (Degraded(s) || !CanStopShort(s)) }

  lemma WorkerKeepsDraining(s: State, pick: nat, ok: bool)
    requires Inv(s) && SeenOk(s) && WillDrain(s) && WorkerEnabled(s, pick)
    ensures WillDrain(WorkerNext(s, pick, ok))
  {
    assert s.worker.StoreRead? ==> s.worker.index == s.readIndex;
    assert s.worker.CompareSequence? ==>
             |s.delivered| < |s.log| && s.log[|s.delivered|] == s.worker.ev && s.expected == |s.delivered| + 1;
    hide Inv, Pos, CanRun;
    if BetweenEvents(s.worker) {
    } else {
      ServingIsBlind(s, pick, ok);
      hide WorkerNext;
    }
  }

  /** Draining, once certain, stays certain until something fails. */
  lemma StepKeepsDraining(s: State, step: Step)
    requires Inv(s) && SeenOk(s) && WillDrain(s) && Enabled(s, step)
    ensures WillDrain(Next(s, step))
  {
    hide Inv, WorkerNext, ThreadNext, RightNumbers;
    match step
    case WorkerMove(pick, ok) => WorkerKeepsDraining(s, pick, ok);
    case ThreadMove(t, pick, ok) => ThreadLeavesWorker(s, t, pick, ok);
    case _ =>
  }

  lemma {:induction false} ChainKeepsDraining(states: seq<State>, steps: seq<Step>, i: nat)
    requires Chain(states, steps) && i <= |steps| && Inv(states[0]) && SeenOk(states[0]) && WillDrain(states[0])
    ensures WillDrain(states[i])
  {
    hide Inv, SeenOk, Next, Enabled, WillDrain;
    if i > 0 {
      ChainKeepsDraining(states, steps, i - 1);
      ChainSeen(states, steps, i - 1);
      StepKeepsDraining(states[i - 1], steps[i - 1]);
    }
  }

  /** A worker that is gone without a failure has processed exactly what it has seen. */
  lemma CleanlyGone(s: State)
    requires Inv(s) && SeenOk(s) && s.worker.Exited? && !Degraded(s)
    ensures s.processed == s.seen && s.accepted == s.writeIndex
    ensures WillDrain(s) ==> s.processed == s.accepted
  {
    hide RingOf, Numbered, OneHolder, NotifyPending, Pos, HolderOk, Filled;
  }

  /** How many steps the worker is from its next consumer call, or from leaving. */
  function Rank(worker: WorkerPc): nat {
    match worker
    case InCall(_) => 10
    case StoreLast(_) => 9
    case CountProcessed => 8
    case NextSequence => 7
    case LoadFlags => 6
    case LoadIndexes => 5
    case LoadStopping => 4
    case TakeSlot(_) => 4
    case StoreRead(_, _) => 3
    case CompareSequence(_) => 2
    case _ => 0
  }

  /** One step on the way out that reads no newer index. */
  ghost predicate Nears(s: State, s': State) {
    && s'.stopping && !Degraded(s') && CanStopShort(s') && s'.seen == s.seen && |s.delivered| <= s.seen
    && (|| (|s'.delivered| == |s.delivered| && Rank(s'.worker) < Rank(s.worker))
        || (|s.delivered| < |s'.delivered| <= s.seen))
  }

  lemma StepShort(s: State)
    requires Inv(s) && SeenOk(s) && s.stopping && !Degraded(s) && CanStopShort(s) && !s.worker.Exited?
    ensures WorkerEnabled(s, s.seen) && Nears(s, WorkerNext(s, s.seen, true))
  {
    ShortHolds(s);
    hide Inv, Pos;
    if BetweenEvents(s.worker) {
      hide RightNumbers;
    } else {
      hide SeenOk;
    }
  }

  /** What the invariant says of a worker that can stop short. */
  lemma ShortHolds(s: State)
    requires Inv(s) && SeenOk(s) && CanStopShort(s) && !s.worker.Exited?
    ensures s.capacity > 0 && |s.slots| == s.capacity && |s.delivered| <= s.seen < |s.log|
    ensures s.worker.CompareSequence? ==>
              && |s.delivered| < s.seen && s.log[|s.delivered|] == s.worker.ev
              && s.expected == |s.delivered| + 1 == s.worker.ev.sequence
    ensures s.worker.NextSequence? ==> s.expected < UINT64_MAX
    ensures s.worker.TakeSlot? ==> WorkerNext(s, s.seen, true).worker.StoreRead?
  {
    if s.worker.TakeSlot? { WorkerMovesEvent(s, s.seen, true); }
    hide RingOf, Numbered, OneHolder, NotifyPending, Pos, HolderOk, Filled, Ring, SleepOk;
  }

  lemma LeavesShort(s: State) returns (states: seq<State>, steps: seq<Step>)
    requires Inv(s) && SeenOk(s) && s.stopping && !Degraded(s) && CanStopShort(s)
    ensures CleanExit(s, states, steps) && CanStopShort(states[|steps|])
    decreases s.seen - |s.delivered|, Rank(s.worker)
  {
    hide Inv, SeenOk, CanStopShort, Rank, WorkerNext;
    if s.worker.Exited? {
      states, steps := [s], [];
    } else {
      StepShort(s);
      var step := WorkerMove(s.seen, true);
      var s' := Next(s, step);
      StepSeen(s, step);
      assert Chain([s, s'], [step]);
      var rest, more := LeavesShort(s');
      ChainJoin([s, s'], [step], rest, more);
      states, steps := [s, s'] + rest[1..], [step] + more;
    }
  }

  /** Shutdown's drain, exactly. From any state of any run in which the stop flag is set and nothing
      has failed, every way for the worker to leave without a failure has processed all that was
      accepted, if and only if the worker cannot stop short. */
  lemma DrainExact(states: seq<State>, steps: seq<Step>, i: nat)
    requires IsRun(states, steps) && i <= |steps| && states[i].stopping && !Degraded(states[i])
    ensures AlwaysDrains(states[i]) <==> !CanStopShort(states[i])
  {
    RunSeen(states, steps, i);
    var s := states[i];
    hide Inv, SeenOk, Next, Enabled, IsRun;
    if CanStopShort(s) {
      var after, more := LeavesShort(s);
      ChainSeen(after, more, |more|);
      CleanlyGone(after[|more|]);
      assert CleanExit(s, after, more) && after[|more|].processed != after[|more|].accepted;
    } else {
      assert WillDrain(s);
      hide CanStopShort;
      forall after: seq<State>, more: seq<Step> | CleanExit(s, after, more)
        ensures after[|more|].processed == after[|more|].accepted
      {
        ChainSeen(after, more, |more|);
        ChainKeepsDraining(after, more, |more|);
        CleanlyGone(after[|more|]);
      }
    }
  }

  /** What a caller can check: when the counters agree at the stop, nothing can be left behind. */
  lemma DrainOfCounted(states: seq<State>, steps: seq<Step>, i: nat)
    requires IsRun(states, steps) && i <= |steps| && states[i].stopping && !Degraded(states[i])
    requires states[i].accepted == states[i].processed
    ensures AlwaysDrains(states[i])
  {
    DrainExact(states, steps, i);
    RunSeen(states, steps, i);
    hide RingOf, OneHolder, NotifyPending, Pos, Numbered, HolderOk, Filled, AlwaysDrains, IsRun;
  }

  // ---------------------------------------------------------------- with current loads

  /** The step's load of the other side's index returns its current value. */
  predicate Current(s: State, step: Step) {
    match step
    case WorkerMove(pick, _) => s.worker.LoadIndexes? ==> pick == s.writeIndex
    case ThreadMove(t, pick, _) => t in s.threads && s.threads[t].HeldRead? ==> pick == s.readIndex
    case _ => true
  }

  ghost predicate CurrentChain(states: seq<State>, steps: seq<Step>) {
    Chain(states, steps) && forall i :: 0 <= i < |steps| ==> Current(states[i], steps[i])
  }

  lemma CurrentJoin(a: seq<State>, sa: seq<Step>, b: seq<State>, sb: seq<Step>)
    requires CurrentChain(a, sa) && CurrentChain(b, sb) && a[|sa|] == b[0]
    ensures CurrentChain(a + b[1..], sa + sb)
    ensures (a + b[1..])[0] == a[0] && (a + b[1..])[|sa + sb|] == b[|sb|]
  {
    hide Next, Enabled, Current;
    ChainJoin(a, sa, b, sb);
    var states, steps := a + b[1..], sa + sb;
    forall i | 0 <= i < |steps| ensures Current(states[i], steps[i]) {
      if i >= |sa| {
        assert states[i] == b[i - |sa|] && steps[i] == sb[i - |sa|];
      }
    }
  }

  /** The worker looked at the stop flag, if it did, after it had seen everything. */
  predicate LookedLast(s: State) {
    s.stopping && (s.worker.LoadStopping? || (s.worker.Exited? && !Degraded(s)) ==> s.seen == s.writeIndex)
  }

  lemma StepLooksLast(s: State, step: Step)
    requires Inv(s) && SeenOk(s) && LookedLast(s) && Enabled(s, step) && Current(s, step)
    ensures LookedLast(Next(s, step))
  {
    assert s.worker.StoreRead? ==> s.worker.index == s.readIndex;
    hide Inv, ThreadNext, CanRun, Pos;
    match step
    case WorkerMove(pick, ok) =>
      if !BetweenEvents(s.worker) {
        ServingIsBlind(s, pick, ok);
        hide WorkerNext;
      }
    case ThreadMove(t, pick, ok) => ThreadLeavesWorker(s, t, pick, ok);
    case _ =>
  }

  lemma {:induction false} ChainLooksLast(states: seq<State>, steps: seq<Step>, i: nat)
    requires CurrentChain(states, steps) && i <= |steps| && Inv(states[0]) && SeenOk(states[0]) && LookedLast(states[0])
    ensures LookedLast(states[i])
  {
    hide Inv, SeenOk, Next, Enabled, LookedLast, Current;
    if i > 0 {
      ChainLooksLast(states, steps, i - 1);
      ChainSeen(states, steps, i - 1);
      StepLooksLast(states[i - 1], steps[i - 1]);
    }
  }

  /** With current loads alone one window is left, and it is real: the worker has compared the indexes
      and not yet looked at the stop flag. */
  lemma DrainExactWhenCurrent(states: seq<State>, steps: seq<Step>, i: nat)
    requires IsRun(states, steps) && i <= |steps| && states[i].stopping && !Degraded(states[i])
    ensures (forall after: seq<State>, more: seq<Step> ::
               CleanExit(states[i], after, more) && CurrentChain(after, more) ==>
                 after[|more|].processed == after[|more|].accepted)
            <==> !((states[i].worker.LoadStopping? || states[i].worker.Exited?)
                   && states[i].readIndex < states[i].writeIndex)
  {
    RunSeen(states, steps, i);
    var s := states[i];
    if LookedLast(s) {
      hide Inv, SeenOk, Next, Enabled, IsRun;
      forall after: seq<State>, more: seq<Step> | CleanExit(s, after, more) && CurrentChain(after, more)
        ensures after[|more|].processed == after[|more|].accepted
      {
        ChainSeen(after, more, |more|);
        ChainLooksLast(after, more, |more|);
        CleanlyGone(after[|more|]);
      }
    } else {
      var step := WorkerMove(0, true);
      var after: seq<State>, more: seq<Step> := [s], [];
      if !s.worker.Exited? {
        after, more := [s, s.(worker := Exited)], [step];
      }
      assert CurrentChain(after, more) by { hide Inv, IsRun; }
      ChainSeen(after, more, |more|);
      CleanlyGone(after[|more|]);
      assert CleanExit(s, after, more);
    }
  }

  // ---------------------------------------------------------------- runs that leave events behind

  /** Where a caller is in a Submit that goes well, counted down to its return. */
  function SubmitRank(pc: ThreadPc): nat {
    match pc
    case SubmitFlags(_) => 12
    case SubmitStopping(_) => 11
    case Acquire(_) => 10
    case HeldFlags(_) => 9
    case HeldStopping(_) => 8
    case HeldWrite(_) => 7
    case HeldRead(_, _) => 6
    case Inspect(_, _) => 5
    case Fill(_, _) => 4
    case Publish(_, _) => 3
    case Release => 2
    case NotifyOne => 1
    case _ => 0
  }

  /** Good order, and the worker awake. */
  ghost predicate Fine(s: State) { Inv(s) && SeenOk(s) && s.flags == 0 && !s.stopping && !s.worker.Sleeping? }

  /** One thread is inside Submit, on the way to publish `events`. */
  predicate Alone(s: State, t: nat, events: seq<Event>) {
    && s.threads.Keys == {t} && SubmitRank(s.threads[t]) > 0
    && events == (if SubmitRank(s.threads[t]) > 2 then [s.threads[t].ev] else [])
    && (events != [] ==> 0 < events[0].sequence <= UINT64_MAX)
    && (events != [] ==> s.writeIndex < UINT64_MAX && s.writeIndex < s.readIndex + s.capacity)
  }

  /** The callers have added `events` and nothing else has changed. */
  predicate Added(s: State, s': State, events: seq<Event>) {
    && s'.log == s.log + events && s'.capacity == s.capacity && s'.readIndex == s.readIndex && s'.worker == s.worker
    && s'.delivered == s.delivered && s'.processed == s.processed && s'.seen == s.seen
  }

  /** The step of a Submit that goes well, and where it leads. */
  ghost predicate GoesOn(s: State, t: nat, events: seq<Event>, s': State)
    requires t in s.threads
  {
    && s'.flags == 0 && !s'.stopping
    && (if t in s'.threads then
          && SubmitRank(s'.threads[t]) < SubmitRank(s.threads[t])
          && if s.threads[t].Publish? then Alone(s', t, []) && Added(s, s', events)
             else Alone(s', t, events) && Added(s, s', [])
        else s'.threads == map[] && events == [] && Added(s, s', []))
  }

  /** What the invariant says of a caller that is alone. */
  lemma AloneHolds(s: State, t: nat, events: seq<Event>)
    requires Fine(s) && Alone(s, t, events)
    ensures s.capacity > 0 && |s.slots| == s.capacity
    ensures s.busy <==> Holding(s.threads[t])
    ensures SubmitRank(s.threads[t]) in {3, 4, 5, 6} ==> s.threads[t].index == s.writeIndex
    ensures s.threads[t].Inspect? ==> ThreadNext(s, t, s.readIndex, true).threads[t].Fill?
  {
    if s.threads[t].Inspect? { LoadingInv(s, t, s.readIndex, true); }
    hide RingOf, Numbered, NotifyPending, Pos, Progress, Ring, WorkerOk, SleepOk, Filled;
  }

  lemma SubmitLooks(s: State, t: nat, events: seq<Event>)
    requires Fine(s) && Alone(s, t, events) && SubmitRank(s.threads[t]) > 4
    ensures ThreadEnabled(s, t, s.readIndex) && GoesOn(s, t, events, ThreadNext(s, t, s.readIndex, true))
  {
    AloneHolds(s, t, events);
    hide Inv, SeenOk, Pos, Wake;
  }

  lemma SubmitWrites(s: State, t: nat, events: seq<Event>)
    requires Fine(s) && Alone(s, t, events) && SubmitRank(s.threads[t]) <= 4
    ensures ThreadEnabled(s, t, s.readIndex) && GoesOn(s, t, events, ThreadNext(s, t, s.readIndex, true))
  {
    AloneHolds(s, t, events);
    hide Inv, SeenOk, Pos;
  }

  /** A Submit alone among the callers, with room in the ring, publishes its event. */
  lemma SubmitReturns(s: State, t: nat, events: seq<Event>) returns (states: seq<State>, steps: seq<Step>)
    requires Fine(s) && Alone(s, t, events)
    ensures CurrentChain(states, steps) && states[0] == s
    ensures var s' := states[|steps|]; Fine(s') && s'.threads == map[] && Added(s, s', events)
    decreases SubmitRank(s.threads[t])
  {
    if SubmitRank(s.threads[t]) > 4 { SubmitLooks(s, t, events); } else { SubmitWrites(s, t, events); }
    var step := ThreadMove(t, s.readIndex, true);
    var s' := Next(s, step);
    StepSeen(s, step);
    hide Inv, SeenOk, ThreadNext;
    states, steps := [s, s'], [step];
    if t in s'.threads {
      var rest, more := SubmitReturns(s', t, if s.threads[t].Publish? then [] else events);
      CurrentJoin(states, steps, rest, more);
      states, steps := states + rest[1..], steps + more;
    }
  }

  lemma SubmitOne(s: State, ev: Event) returns (states: seq<State>, steps: seq<Step>)
    requires Fine(s) && s.threads == map[] && s.writeIndex < UINT64_MAX && s.writeIndex < s.readIndex + s.capacity
    requires 0 < ev.sequence <= UINT64_MAX
    ensures CurrentChain(states, steps) && states[0] == s
    ensures var s' := states[|steps|]; Fine(s') && s'.threads == map[] && Added(s, s', [ev])
  {
    var step := Submit(0, ev);
    var s' := Next(s, step);
    StepSeen(s, step);
    hide Inv, SeenOk, ThreadNext;
    var rest, more := SubmitReturns(s', 0, [ev]);
    CurrentJoin([s, s'], [step], rest, more);
    states, steps := [s, s'] + rest[1..], [step] + more;
  }

  /** The worker's way to the stop flag when it serves all there is. */
  function TurnRank(s: State): nat {
    if s.worker.LoadStopping? then (if s.readIndex < s.writeIndex then 12 else 0)
    else if s.worker.LockAndTest? then 11 else Rank(s.worker)
  }

  /** Nothing but the worker moves, it has something to do, and what is there it can serve. */
  ghost predicate Busy(s: State) {
    && Fine(s) && s.threads == map[] && s.writeIndex < UINT64_MAX && RightNumbers(s.log, |s.delivered|, |s.log|)
    && !s.worker.Exited? && !s.worker.WorkerDegrade? && !s.worker.WorkerNotify?
    && (s.worker.LockAndTest? ==> s.readIndex < s.writeIndex)
  }

  /** What the invariant says of a worker with something to do. */
  lemma BusyHolds(s: State)
    requires Busy(s)
    ensures s.capacity > 0 && |s.slots| == s.capacity && |s.log| == s.writeIndex && |s.delivered| <= |s.log|
    ensures s.worker.TakeSlot? || s.worker.StoreRead? ==> s.worker.index == s.readIndex
    ensures s.worker.CompareSequence? ==>
              |s.delivered| < |s.log| && s.expected == |s.delivered| + 1 && s.worker.ev.sequence == s.expected
    ensures s.worker.NextSequence? ==> s.expected < UINT64_MAX
    ensures s.worker.TakeSlot? ==> WorkerNext(s, s.writeIndex, true).worker.StoreRead?
  {
    if s.worker.TakeSlot? { WorkerMovesEvent(s, s.writeIndex, true); }
    hide RingOf, OneHolder, NotifyPending, Pos, HolderOk, Filled, Ring, SleepOk;
  }

  /** The step brings the worker nearer to the stop flag, or an event further. */
  ghost predicate Turns(s: State, s': State) {
    && Busy(s') && s'.log == s.log && s'.capacity == s.capacity && |s.delivered| <= |s.log|
    && (|| (|s'.delivered| == |s.delivered| && TurnRank(s') < TurnRank(s))
        || (|s.delivered| < |s'.delivered| <= |s.log|))
  }

  lemma TurnLooks(s: State)
    requires Busy(s) && BetweenEvents(s.worker) && !(s.worker.LoadStopping? && s.readIndex == s.writeIndex)
    ensures WorkerEnabled(s, s.writeIndex) && Turns(s, WorkerNext(s, s.writeIndex, true))
  {
    BusyHolds(s);
    StepSeen(s, WorkerMove(s.writeIndex, true));
    hide Inv, Pos, RightNumbers;
  }

  lemma TurnServes(s: State)
    requires Busy(s) && !BetweenEvents(s.worker)
    ensures WorkerEnabled(s, s.writeIndex) && Turns(s, WorkerNext(s, s.writeIndex, true))
  {
    BusyHolds(s);
    StepSeen(s, WorkerMove(s.writeIndex, true));
    hide Inv, SeenOk, Pos;
  }

  lemma ServesAll(s: State) returns (states: seq<State>, steps: seq<Step>)
    requires Busy(s)
    ensures CurrentChain(states, steps) && states[0] == s
    ensures var s' := states[|steps|];
            && Busy(s') && s'.worker.LoadStopping? && s'.readIndex == s'.writeIndex && s'.log == s.log
               && s'.capacity == s.capacity
    decreases |s.log| - |s.delivered|, TurnRank(s)
  {
    hide Busy, TurnRank, WorkerNext;
    if s.worker.LoadStopping? && s.readIndex == s.writeIndex {
      states, steps := [s], [];
    } else {
      if BetweenEvents(s.worker) { TurnLooks(s); } else { TurnServes(s); }
      var step := WorkerMove(s.writeIndex, true);
      var s' := Next(s, step);
      assert CurrentChain([s, s'], [step]);
      var rest, more := ServesAll(s');
      CurrentJoin([s, s'], [step], rest, more);
      states, steps := [s, s'] + rest[1..], [step] + more;
    }
  }

  /** p events published, served and counted one after the other. */
  lemma {:induction false} ServesFirst(capacity: nat, p: nat) returns (states: seq<State>, steps: seq<Step>)
    requires 0 < capacity && p < UINT64_MAX
    ensures CurrentChain(states, steps) && Init(states[0])
    ensures var s := states[|steps|];
            Busy(s) && s.worker.LoadStopping? && s.readIndex == s.writeIndex == p && s.capacity == capacity
    decreases p
  {
    if p == 0 {
      var none: seq<Option<Event>> := seq(capacity, i => None);
      var s := State(capacity, none, 0, 0, false, 0, false, 0, 0, 0, 0, 1, LoadFlags, 0, map[], 0, [], []);
      InitInv(s);
      assert s.log == [] && Busy(s) by { hide Inv; }
      states, steps := ServesAll(s);
      assert Inv(states[|steps|]);
    } else {
      states, steps := ServesFirst(capacity, p - 1);
      var s := states[|steps|];
      var ev := Event(p, 1, [], 0, []);
      var submitted, submit := SubmitOne(s, ev);
      var s' := submitted[|submit|];
      assert Busy(s');
      var served, serve := ServesAll(s');
      hide Busy, Init, Chain, CurrentChain, Next, Enabled, Current;
      CurrentJoin(states, steps, submitted, submit);
      states, steps := states + submitted[1..], steps + submit;
      CurrentJoin(states, steps, served, serve);
      states, steps := states + served[1..], steps + serve;
    }
  }

  lemma CountersAtLook(s: State)
    requires Inv(s)
    ensures s.accepted == s.writeIndex
    ensures s.worker.LoadStopping? ==> s.processed == s.readIndex
    ensures s.worker.CompareSequence? ==> s.processed + 1 == s.readIndex
  {
    hide RingOf, OneHolder, NotifyPending, Pos, HolderOk, Filled, Ring, SleepOk, Numbered;
  }

  /** n more events published while the worker stands before the stop flag. */
  lemma {:induction false} PublishesMore(s: State, n: nat) returns (states: seq<State>, steps: seq<Step>)
    requires Fine(s) && s.threads == map[] && s.writeIndex + n <= UINT64_MAX
    requires s.writeIndex + n <= s.readIndex + s.capacity
    ensures CurrentChain(states, steps) && states[0] == s
    ensures var s' := states[|steps|];
            && Fine(s') && s'.threads == map[] && s'.worker == s.worker && s'.processed == s.processed
            && s'.capacity == s.capacity && s'.accepted == s.accepted + n
            && s.log <= s'.log && s'.seen == s.seen && s'.delivered == s.delivered
    decreases n
  {
    if n == 0 {
      states, steps := [s], [];
    } else {
      states, steps := SubmitOne(s, Event(1, 1, [], 0, []));
      var rest, more := PublishesMore(states[|steps|], n - 1);
      hide Inv, SeenOk, Next, Enabled, Current, Chain;
      CurrentJoin(states, steps, rest, more);
      states, steps := states + rest[1..], steps + more;
    }
  }

  /** The drain promised by Shutdown's comment can miss events, however large the ring. For any number
      p of processed events and any n that fit, there is a run, with current loads throughout, in which
      all p + n are accepted and every Submit has returned when Shutdown is called, and the worker
      leaves without a failure having processed p. */
  lemma DrainCanMissEvent(capacity: nat, p: nat, n: nat) returns (states: seq<State>, steps: seq<Step>, i: nat)
    requires 0 < n <= capacity && p + n <= UINT64_MAX
    ensures IsRun(states, steps) && CurrentChain(states, steps)
    ensures |steps| == i + 3 && steps[i].Shutdown? && states[i + 2].stopping && states[i + 2].capacity == capacity
    ensures states[i].threads == map[] && states[i].accepted == states[i + 2].accepted == p + n
    ensures states[i].processed == states[i + 2].processed == p && !Degraded(states[i + 2])
    ensures CleanExit(states[i + 2], states[i + 2..], steps[i + 2..])
    ensures states[|steps|].accepted == p + n && states[|steps|].processed == p
  {
    states, steps := ServesFirst(capacity, p);
    var s := states[|steps|];
    assert s.processed == s.accepted == p by { CountersAtLook(s); }
    var published, publish := PublishesMore(s, n);
    var q := published[|publish|];
    var q1 := At(q, 0, Stop);
    var q2 := At(q1.(stopping := true), 0, NotifyStop);
    var q3 := q2.(worker := Exited);
    var shutdown := [Shutdown(0), ThreadMove(0, 0, true), WorkerMove(0, true)];
    assert CurrentChain([q, q1, q2, q3], shutdown) by { hide Inv, Pos; }
    assert !Degraded(q3) && q3.stopping;
    hide Inv, SeenOk, Next, Enabled, Current, Init, Busy, Fine;
    CurrentJoin(states, steps, published, publish);
    states, steps := states + published[1..], steps + publish;
    i := |steps|;
    CurrentJoin(states, steps, [q, q1, q2, q3], shutdown);
    states, steps := states + [q, q1, q2, q3][1..], steps + shutdown;
    assert states[i] == q && states[i + 2] == q2 && states[i + 3] == q3;
  }

  /** The worker with the next event in its hands and nothing else seen. */
  lemma TakesNext(s: State) returns (states: seq<State>, steps: seq<Step>)
    requires Busy(s) && s.readIndex < s.writeIndex && |s.delivered| == s.readIndex
    requires BetweenEvents(s.worker) || s.worker.TakeSlot? || s.worker.StoreRead?
    ensures CurrentChain(states, steps) && states[0] == s
    ensures var s' := states[|steps|];
            && Busy(s') && s'.worker.CompareSequence? && s'.log == s.log && s'.capacity == s.capacity
            && s'.readIndex == s.readIndex + 1
    decreases TurnRank(s)
  {
    BusyHolds(s);
    if BetweenEvents(s.worker) { TurnLooks(s); } else { TurnServes(s); }
    var step := WorkerMove(s.writeIndex, true);
    var s' := Next(s, step);
    hide Inv, SeenOk, Pos, RightNumbers;
    states, steps := [s, s'], [step];
    assert CurrentChain(states, steps);
    if !s'.worker.CompareSequence? {
      var rest, more := TakesNext(s');
      CurrentJoin(states, steps, rest, more);
      states, steps := states + rest[1..], steps + more;
    }
  }

  /** The stop flag is set, nothing has failed, and Snapshot would show these two counters. */
  predicate StoppedWith(s: State, capacity: nat, accepted: nat, processed: nat) {
    s.stopping && !Degraded(s) && s.capacity == capacity && s.accepted == accepted && s.processed == processed
  }

  /** The counters any state of any run can show: one event in the worker's hands, the rest in the ring. */
  predicate Possible(capacity: nat, accepted: nat, processed: nat) {
    0 < capacity && processed <= accepted <= processed + capacity + 1 && accepted <= UINT64_MAX
  }

  lemma CountersPossible(states: seq<State>, steps: seq<Step>, i: nat)
    requires IsRun(states, steps) && i <= |steps|
    ensures Possible(states[i].capacity, states[i].accepted, states[i].processed)
  {
    RunInv(states, steps, i);
    hide RingOf, OneHolder, NotifyPending, Pos, Numbered, HolderOk, Filled, IsRun;
  }

  lemma StopsShort(s: State) returns (states: seq<State>, steps: seq<Step>)
    requires Busy(s) && s.worker.CompareSequence? && s.readIndex == s.writeIndex
    requires s.writeIndex + s.capacity <= UINT64_MAX
    ensures CurrentChain(states, steps) && states[0] == s && CanStopShort(states[|steps|])
    ensures StoppedWith(states[|steps|], s.capacity, s.accepted + s.capacity, s.processed)
  {
    assert s.capacity > 0 && |s.log| == s.accepted == s.writeIndex;
    states, steps := PublishesMore(s, s.capacity);
    var q := states[|steps|];
    assert q.capacity == |q.slots| && q.writeIndex == q.accepted && q.flags == 0;
    assert CanStopShort(q) by { hide Inv; }
    var q1 := At(q, 0, Stop);
    var q2 := At(q1.(stopping := true), 0, NotifyStop);
    var shutdown := [Shutdown(0), ThreadMove(0, 0, true)];
    hide Inv, SeenOk, Pos, RightNumbers;
    assert CurrentChain([q, q1, q2], shutdown);
    CurrentJoin(states, steps, [q, q1, q2], shutdown);
    states, steps := states + [q, q1, q2][1..], steps + shutdown;
  }

  /** The largest difference: one event taken, and the ring filled up since. */
  lemma StopsBehindFullRing(capacity: nat, p: nat) returns (states: seq<State>, steps: seq<Step>)
    requires 0 < capacity && p + capacity + 1 <= UINT64_MAX
    ensures IsRun(states, steps) && StoppedWith(states[|steps|], capacity, p + capacity + 1, p)
    ensures !AlwaysDrains(states[|steps|])
  {
    states, steps := ServesFirst(capacity, p);
    var one, submit := SubmitOne(states[|steps|], Event(p + 1, 1, [], 0, []));
    assert Busy(one[|submit|]);
    var taken, take := TakesNext(one[|submit|]);
    var s := taken[|take|];
    assert s.processed == p && s.accepted == p + 1 by { CountersAtLook(s); }
    var published, publish := StopsShort(s);
    hide Inv, SeenOk, Next, Enabled, Current, Init, Busy, Fine, CanStopShort, AlwaysDrains;
    CurrentJoin(states, steps, one, submit);
    states, steps := states + one[1..], steps + submit;
    CurrentJoin(states, steps, taken, take);
    states, steps := states + taken[1..], steps + take;
    CurrentJoin(states, steps, published, publish);
    states, steps := states + published[1..], steps + publish;
    DrainExact(states, steps, |steps|);
  }

  /** What the two counters tell a caller: of the states that show them, all are sure to drain if and
      only if the two are equal. */
  lemma CountersDecide(capacity: nat, accepted: nat, processed: nat)
    requires Possible(capacity, accepted, processed)
    ensures (forall states: seq<State>, steps: seq<Step>, i ::
               IsRun(states, steps) && 0 <= i <= |steps| && StoppedWith(states[i], capacity, accepted, processed) ==>
                 AlwaysDrains(states[i]))
            <==> accepted == processed
  {
    if accepted == processed {
      hide Init, Enabled, Next, AlwaysDrains;
      forall states: seq<State>, steps: seq<Step>, i |
        IsRun(states, steps) && 0 <= i <= |steps| && StoppedWith(states[i], capacity, accepted, processed)
        ensures AlwaysDrains(states[i])
      {
        DrainOfCounted(states, steps, i);
      }
    } else if accepted <= processed + capacity {
      hide CleanExit, IsRun;
      var states, steps, i := DrainCanMissEvent(capacity, processed, accepted - processed);
      assert StoppedWith(states[i + 2], capacity, accepted, processed);
      assert CleanExit(states[i + 2], states[i + 2..], steps[i + 2..]);
      assert states[i + 2..][|steps[i + 2..]|] == states[|steps|];
      assert !AlwaysDrains(states[i + 2]);
    } else {
      hide CleanExit, IsRun, AlwaysDrains;
      var states, steps := StopsBehindFullRing(capacity, processed);
      assert StoppedWith(states[|steps|], capacity, accepted, processed);
    }
  }
}
