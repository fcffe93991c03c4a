/** What becomes of every call on the event envelope, and of every event its consumer does not accept: no
    event is lost in silence. */
module EnvelopeCalls {
  import opened Common
  import opened EventEnvelope
  import opened EnvelopeProofs

  /** The caller still has the event to publish. */
  predicate Carries(pc: ThreadPc, ev: Event) {
    && (pc.SubmitFlags? || pc.SubmitStopping? || pc.Acquire? || pc.HeldFlags? || pc.HeldStopping? || pc.HeldWrite?
        || pc.HeldRead? || pc.Inspect? || pc.Fill? || pc.Publish?)
    && pc.ev == ev
  }

  /** Where a call of Submit can stand: still carrying its event, having published it, turned away because the
      envelope has failed or is stopping, or about to fail it. */
  predicate Phase(s: State, pc: ThreadPc, ev: Event, published: bool) {
    || (Carries(pc, ev) && (ev.sequence == 0 ==> pc.SubmitFlags?))
    || ((pc.Release? || pc.NotifyOne?) && published && ev.sequence != 0)
    || (pc.ReleaseReturn? && (Degraded(s) || s.stopping) && ev.sequence != 0)
    || pc.ReleaseDegrade? || pc.Degrade?
    || (pc.NotifyAll? && Degraded(s))
  }

  /** What a returned call has brought about. */
  predicate Accounted(s: State, ev: Event, published: bool) {
    if ev.sequence == 0 then Degraded(s) else published || Degraded(s) || s.stopping
  }

  /** One step of the caller itself. */
  lemma OwnStep(s: State, t: nat, pick: nat, ok: bool, ev: Event, published: bool)
    requires ThreadEnabled(s, t, pick) && Phase(s, s.threads[t], ev, published)
    ensures var s' := ThreadNext(s, t, pick, ok);
            var published' := published || (s.threads[t].Publish? && s'.log == s.log + [ev]);
            if t in s'.threads then Phase(s', s'.threads[t], ev, published') else Accounted(s', ev, published')
  {
    if Holding(s.threads[t]) {
      OwnHeldStep(s, t, pick, ok, ev, published);
    } else {
      hide Pos;
    }
  }

  lemma OwnHeldStep(s: State, t: nat, pick: nat, ok: bool, ev: Event, published: bool)
    requires ThreadEnabled(s, t, pick) && Phase(s, s.threads[t], ev, published) && Holding(s.threads[t])
    ensures var s' := ThreadNext(s, t, pick, ok);
            var published' := published || (s.threads[t].Publish? && s'.log == s.log + [ev]);
            if t in s'.threads then Phase(s', s'.threads[t], ev, published') else Accounted(s', ev, published')
  {
    hide Pos;
  }

  predicate IsMove(step: Step, t: nat) { step.ThreadMove? && step.t == t }

  /** Nobody else moves a caller. */
  lemma OtherStep(s: State, step: Step, t: nat)
    requires Enabled(s, step) && t in s.threads && !IsMove(step, t)
    ensures t in Next(s, step).threads && Next(s, step).threads[t] == s.threads[t]
  {
    hide Pos, WorkerNext;
    match step
    case WorkerMove(pick, ok) => WorkerKeepsCallers(s, pick, ok);
    case ThreadMove(u, pick, ok) => OthersKept(s, u, pick, ok, t);
    case _ =>
  }

  lemma WorkerKeepsCallers(s: State, pick: nat, ok: bool)
    requires WorkerEnabled(s, pick)
    ensures WorkerNext(s, pick, ok).threads == s.threads
  {
    hide Pos;
  }

  lemma OthersKept(s: State, u: nat, pick: nat, ok: bool, t: nat)
    requires ThreadEnabled(s, u, pick) && t in s.threads && t != u
    ensures var s' := ThreadNext(s, u, pick, ok); t in s'.threads && s'.threads[t] == s.threads[t]
  {
    if Holding(s.threads[u]) {
      HolderKeepsOthers(s, u, pick, ok, t);
    } else if Signalling(s.threads[u]) {
      SignallerKeepsOthers(s, u, pick, ok, t);
    } else {
      hide Pos, Wake;
    }
  }

  lemma HolderKeepsOthers(s: State, u: nat, pick: nat, ok: bool, t: nat)
    requires ThreadEnabled(s, u, pick) && t in s.threads && t != u && Holding(s.threads[u])
    ensures var s' := ThreadNext(s, u, pick, ok); t in s'.threads && s'.threads[t] == s.threads[t]
  {
    hide Pos;
  }

  lemma SignallerKeepsOthers(s: State, u: nat, pick: nat, ok: bool, t: nat)
    requires ThreadEnabled(s, u, pick) && t in s.threads && t != u && Signalling(s.threads[u])
    ensures var s' := ThreadNext(s, u, pick, ok); t in s'.threads && s'.threads[t] == s.threads[t]
  {
    hide Pos;
  }

  /** The caller's own publishing step, which appends the event to the accepted ones. */
  predicate PublishedAt(states: seq<State>, steps: seq<Step>, k: nat, t: nat, ev: Event)
    requires |states| == |steps| + 1 && k < |steps|
  {
    && IsMove(steps[k], t) && t in states[k].threads && states[k].threads[t].Publish?
    && states[k + 1].log == states[k].log + [ev]
  }

  ghost predicate Published(states: seq<State>, steps: seq<Step>, i: nat, j: nat, t: nat, ev: Event)
    requires |states| == |steps| + 1 && j <= |steps|
  {
    exists k :: i < k < j && PublishedAt(states, steps, k, t, ev)
  }

  /** The call is under way from state i + 1 on to state j. */
  ghost predicate Inside(states: seq<State>, t: nat, i: nat, j: nat)
    requires j < |states|
  {
    forall k :: i < k <= j ==> t in states[k].threads
  }

  lemma {:induction false} CallPhase(states: seq<State>, steps: seq<Step>, i: nat, j: nat, t: nat, ev: Event)
    requires IsRun(states, steps) && i < j <= |steps| && steps[i] == Submit(t, ev) && Inside(states, t, i, j)
    ensures Phase(states[j], states[j].threads[t], ev, Published(states, steps, i, j, t, ev))
    decreases j
  {
    if j > i + 1 {
      CallPhase(states, steps, i, j - 1, t, ev);
      hide Phase, Next, Enabled, Init;
      CallStep(states, steps, i, j - 1, t, ev);
    }
  }

  /** One step of a run in which the call is under way. */
  lemma CallStep(states: seq<State>, steps: seq<Step>, i: nat, j: nat, t: nat, ev: Event)
    requires IsRun(states, steps) && i < j < |steps| && t in states[j].threads
    requires Phase(states[j], states[j].threads[t], ev, Published(states, steps, i, j, t, ev))
    ensures if t in states[j + 1].threads
            then Phase(states[j + 1], states[j + 1].threads[t], ev, Published(states, steps, i, j + 1, t, ev))
            else Accounted(states[j + 1], ev, Published(states, steps, i, j + 1, t, ev))
  {
    var s, step := states[j], steps[j];
    FlagsInRun(states, steps, j);
    hide Init;
    var published := Published(states, steps, i, j, t, ev);
    assert published ==> Published(states, steps, i, j + 1, t, ev);
    if IsMove(step, t) {
      OwnStep(s, t, step.pick, step.ok, ev, published);
      hide ThreadNext, Phase, Accounted;
      var now := s.threads[t].Publish? && states[j + 1].log == s.log + [ev];
      assert now ==> PublishedAt(states, steps, j, t, ev);
      PublishedGrows(states, steps, i, j, t, ev);
      assert Published(states, steps, i, j + 1, t, ev) == (published || now);
    } else {
      hide Next, Enabled;
      OtherStep(s, step, t);
      FailureAndStopAreFinal(s, step);
    }
  }

  lemma PublishedGrows(states: seq<State>, steps: seq<Step>, i: nat, j: nat, t: nat, ev: Event)
    requires |states| == |steps| + 1 && i < j < |steps|
    ensures Published(states, steps, i, j + 1, t, ev) <==>
              Published(states, steps, i, j, t, ev) || PublishedAt(states, steps, j, t, ev)
  {
    hide PublishedAt;
  }

  /** Every call of Submit, in every run: when it has returned, its own step has published the event, or the
      envelope has failed, or it is stopping; without a sequence number the envelope has failed. */
  lemma SubmitAccounted(states: seq<State>, steps: seq<Step>, i: nat, j: nat, t: nat, ev: Event)
    requires IsRun(states, steps) && i < j < |steps| && steps[i] == Submit(t, ev)
    requires Inside(states, t, i, j) && t !in states[j + 1].threads
    ensures ev.sequence != 0 ==>
              Published(states, steps, i, j + 1, t, ev) || Degraded(states[j + 1]) || states[j + 1].stopping
    ensures ev.sequence == 0 ==> Degraded(states[j + 1])
  {
    CallPhase(states, steps, i, j, t, ev);
    hide Phase, Next, Enabled, Init;
    CallStep(states, steps, i, j, t, ev);
  }

  // ---------------------------------------------------------------- MarkDegraded and Shutdown

  /** Where the other two calls can stand. */
  predicate OtherPhase(s: State, pc: ThreadPc, call: Step) {
    && (call.MarkDegraded? || call.Shutdown?)
    && (|| pc.Degrade?
        || (pc.NotifyAll? && Degraded(s))
        || (call.Shutdown? && (pc.Stop? || pc.NotifyStop? || pc.AwaitDone?)))
    && (call.Shutdown? && !pc.Stop? ==> s.stopping)
  }

  /** What they have brought about when they return. */
  predicate Effective(s: State, call: Step) {
    if call.Shutdown? then s.stopping && (Degraded(s) || s.worker.Exited?) else Degraded(s)
  }

  lemma OtherOwnStep(s: State, t: nat, pick: nat, ok: bool, call: Step)
    requires ThreadEnabled(s, t, pick) && OtherPhase(s, s.threads[t], call)
    ensures var s' := ThreadNext(s, t, pick, ok);
            if t in s'.threads then OtherPhase(s', s'.threads[t], call) else Effective(s', call)
  {
  }

  lemma OtherCallStep(states: seq<State>, steps: seq<Step>, j: nat, t: nat, call: Step)
    requires IsRun(states, steps) && j < |steps| && t in states[j].threads
    requires OtherPhase(states[j], states[j].threads[t], call)
    ensures if t in states[j + 1].threads then OtherPhase(states[j + 1], states[j + 1].threads[t], call)
            else Effective(states[j + 1], call)
  {
    FlagsInRun(states, steps, j);
    hide Init;
    if IsMove(steps[j], t) {
      OtherOwnStep(states[j], t, steps[j].pick, steps[j].ok, call);
    } else {
      hide Next, Enabled;
      OtherStep(states[j], steps[j], t);
      FailureAndStopAreFinal(states[j], steps[j]);
    }
  }

  lemma {:induction false} OtherCallPhase(states: seq<State>, steps: seq<Step>, i: nat, j: nat, t: nat)
    requires IsRun(states, steps) && i < j <= |steps| && (steps[i] == MarkDegraded(t) || steps[i] == Shutdown(t))
    requires Inside(states, t, i, j)
    ensures OtherPhase(states[j], states[j].threads[t], steps[i])
    decreases j
  {
    if j > i + 1 {
      OtherCallPhase(states, steps, i, j - 1, t);
      hide OtherPhase, Next, Enabled, Init;
      OtherCallStep(states, steps, j - 1, t, steps[i]);
    }
  }

  /** In every run, when MarkDegraded has returned the envelope has failed; when Shutdown has, it is stopping and
      the worker has left or the envelope has failed. */
  lemma CallsTakeEffect(states: seq<State>, steps: seq<Step>, i: nat, j: nat, t: nat)
    requires IsRun(states, steps) && i < j < |steps| && (steps[i] == MarkDegraded(t) || steps[i] == Shutdown(t))
    requires Inside(states, t, i, j) && t !in states[j + 1].threads
    ensures steps[i].MarkDegraded? ==> Degraded(states[j + 1])
    ensures steps[i].Shutdown? ==>
              states[j + 1].stopping && (Degraded(states[j + 1]) || states[j + 1].worker.Exited?)
  {
    OtherCallPhase(states, steps, i, j, t);
    hide OtherPhase, Next, Enabled, Init;
    OtherCallStep(states, steps, j, t, steps[i]);
  }

  // ---------------------------------------------------------------- events that are not accepted

  /** The worker's step refuses its event: the number is wrong, the consumer says no, or numbers run out. */
  predicate Refuses(s: State, step: Step) {
    && step.WorkerMove?
    && (|| (s.worker.CompareSequence? && s.worker.ev.sequence != s.expected)
        || (s.worker.InCall? && !step.ok)
        || (s.worker.NextSequence? && s.expected == UINT64_MAX))
  }

  /** The worker is about to fail the envelope, or has. */
  predicate Failing(s: State) {
    s.worker.WorkerDegrade? || (Degraded(s) && (s.worker.WorkerNotify? || s.worker.Exited?))
  }

  lemma RefusalStep(s: State, step: Step)
    requires Enabled(s, step) && (Refuses(s, step) || Failing(s))
    ensures var s' := Next(s, step);
            && Failing(s') && s'.delivered == s.delivered && s'.processed == s.processed
            && s'.lastProcessed == s.lastProcessed && s'.expected == s.expected
  {
    if step.ThreadMove? {
      CallerKeepsWorker(s, step.t, step.pick, step.ok);
    } else {
      hide Pos;
    }
  }

  lemma CallerKeepsWorker(s: State, t: nat, pick: nat, ok: bool)
    requires ThreadEnabled(s, t, pick)
    ensures var s' := ThreadNext(s, t, pick, ok);
            && s'.delivered == s.delivered && s'.processed == s.processed && s'.lastProcessed == s.lastProcessed
            && s'.expected == s.expected && (Degraded(s) ==> Degraded(s'))
            && (s'.worker == s.worker || (s.worker.Sleeping? && s'.worker.LockAndTest?))
  {
    if Holding(s.threads[t]) {
      HolderKeepsWorker(s, t, pick, ok);
    } else if Signalling(s.threads[t]) {
      SignallerKeepsWorker(s, t, pick, ok);
    } else {
      hide Pos, Wake;
    }
  }

  lemma HolderKeepsWorker(s: State, t: nat, pick: nat, ok: bool)
    requires ThreadEnabled(s, t, pick) && Holding(s.threads[t])
    ensures var s' := ThreadNext(s, t, pick, ok);
            && s'.delivered == s.delivered && s'.processed == s.processed && s'.lastProcessed == s.lastProcessed
            && s'.expected == s.expected && s'.flags == s.flags && s'.worker == s.worker
  {
    hide Pos;
  }

  lemma SignallerKeepsWorker(s: State, t: nat, pick: nat, ok: bool)
    requires ThreadEnabled(s, t, pick) && Signalling(s.threads[t])
    ensures var s' := ThreadNext(s, t, pick, ok);
            && s'.delivered == s.delivered && s'.processed == s.processed && s'.lastProcessed == s.lastProcessed
            && s'.expected == s.expected && s'.flags == s.flags
            && (s'.worker == s.worker || (s.worker.Sleeping? && s'.worker.LockAndTest?))
  {
    hide Pos;
  }

  /** After a refusal the worker does nothing but fail the envelope: the refused event is not counted, no other
      is begun, and once the worker has left the envelope has failed. */
  lemma {:induction false} RefusalFails(states: seq<State>, steps: seq<Step>, i: nat, j: nat)
    requires IsRun(states, steps) && i < j <= |steps| && Refuses(states[i], steps[i])
    ensures states[j].delivered == states[i].delivered && states[j].processed == states[i].processed
    ensures states[j].lastProcessed == states[i].lastProcessed && states[j].expected == states[i].expected
    ensures Failing(states[j]) && (states[j].worker.Exited? ==> Degraded(states[j]))
    decreases j
  {
    hide Next, Enabled, Init;
    if j > i + 1 {
      RefusalFails(states, steps, i, j - 1);
    }
    RefusalStep(states[j - 1], steps[j - 1]);
  }

  lemma ExpectedStep(s: State, step: Step)
    requires Enabled(s, step) && s.expected <= UINT64_MAX
    ensures Next(s, step).expected <= UINT64_MAX
  {
    if step.ThreadMove? {
      CallerKeepsWorker(s, step.t, step.pick, step.ok);
    } else {
      hide Pos;
    }
  }

  /** The expected number never leaves 64 bits. */
  lemma {:induction false} ExpectedFits(states: seq<State>, steps: seq<Step>, i: nat)
    requires IsRun(states, steps) && i <= |steps|
    ensures states[i].expected <= UINT64_MAX
  {
    if i > 0 {
      ExpectedFits(states, steps, i - 1);
      hide Next, Enabled, Init;
      ExpectedStep(states[i - 1], steps[i - 1]);
    }
  }

  // ---------------------------------------------------------------- nothing to do

  /** How far a worker between two events is from sleeping. */
  function ToSleep(worker: WorkerPc): nat {
    match worker
    case LoadFlags => 4
    case LoadIndexes => 3
    case LoadStopping => 2
    case LockAndTest => 1
    case _ => 0
  }

  /** With nothing to do the worker goes to sleep: each of its steps brings it one nearer, and only sleeping ends it. */
  lemma IdleWorkerSleeps(s: State, ok: bool)
    requires WorkerEnabled(s, s.writeIndex) && BetweenEvents(s.worker) && !s.worker.Sleeping? && !CanRun(s)
    ensures var s' := WorkerNext(s, s.writeIndex, ok);
            && BetweenEvents(s'.worker) && ToSleep(s'.worker) == ToSleep(s.worker) - 1 && !CanRun(s')
            && (ToSleep(s'.worker) == 0 <==> s'.worker.Sleeping?)
  {
  }

  /** A sleeping worker with something to do, once woken, leaves or takes the next event within five steps. */
  lemma WakeLeadsToWork(s: State, ok: bool)
    requires WorkerEnabled(s, s.writeIndex) && s.worker.Sleeping? && CanRun(s) && s.readIndex <= s.writeIndex
    ensures var s1 := WorkerNext(s, s.writeIndex, ok);
            var s2 := WorkerNext(s1, s.writeIndex, ok);
            var s3 := WorkerNext(s2, s.writeIndex, ok);
            && s1.worker == LockAndTest && s2.worker == LoadFlags
            && (Degraded(s) ==> s3.worker == Exited)
            && (!Degraded(s) ==>
                  && s3.worker == LoadIndexes
                  && var s4 := WorkerNext(s3, s.writeIndex, ok);
                  && (s.readIndex < s.writeIndex ==> s4.worker == TakeSlot(s.readIndex))
                  && (s.readIndex == s.writeIndex ==>
                        s4.worker == LoadStopping && WorkerNext(s4, s.writeIndex, ok).worker == Exited))
  {
  }

  /** And one about to fail the envelope has failed it and left after two. */
  lemma FailureLeads(s: State, pick: nat, ok: bool)
    requires WorkerEnabled(s, pick) && s.worker.WorkerDegrade?
    ensures var s1 := WorkerNext(s, pick, ok);
            Degraded(s1) && s1.worker.WorkerNotify? && WorkerNext(s1, pick, ok) == s1.(worker := Exited)
  {
  }

  // ---------------------------------------------------------------- what is counted was accepted

  /** The events the consumer has accepted, counted as processed or about to be. */
  function Certified(s: State): nat {
    if s.worker.StoreLast? || s.worker.CountProcessed? then s.processed + 1 else s.processed
  }

  /** The step at which the consumer accepted the k-th event. */
  predicate AcceptsAt(s: State, step: Step, k: nat) {
    step.WorkerMove? && step.ok && s.worker.InCall? && |s.delivered| == k + 1 && s.worker.ev == s.delivered[k]
  }

  ghost predicate AcceptedBefore(states: seq<State>, steps: seq<Step>, i: nat, k: nat)
    requires |states| == |steps| + 1 && i <= |steps|
  {
    exists j :: 0 <= j < i && AcceptsAt(states[j], steps[j], k)
  }

  /** A consumer call is for the last event begun. */
  predicate CallIsLast(s: State) {
    s.worker.InCall? ==> s.delivered != [] && s.worker.ev == s.delivered[|s.delivered| - 1]
  }

  lemma CertifiedStep(s: State, step: Step)
    requires Inv(s) && CallIsLast(s) && Enabled(s, step)
    ensures var s' := Next(s, step);
            && CallIsLast(s')
            && (|| Certified(s') == Certified(s)
                || (Certified(s') == Certified(s) + 1 && AcceptsAt(s, step, Certified(s))))
  {
    assert s.worker.InCall? ==> |s.delivered| == s.processed + 1;
    hide Inv, ThreadNext, WorkerNext;
    match step
    case WorkerMove(pick, ok) => WorkerCertifies(s, pick, ok);
    case ThreadMove(t, pick, ok) => CallerKeepsWorker(s, t, pick, ok);
    case _ =>
  }

  lemma WorkerCertifies(s: State, pick: nat, ok: bool)
    requires WorkerEnabled(s, pick) && CallIsLast(s) && (s.worker.InCall? ==> |s.delivered| == s.processed + 1)
    ensures var s' := WorkerNext(s, pick, ok);
            && CallIsLast(s')
            && (|| Certified(s') == Certified(s)
                || (Certified(s') == Certified(s) + 1 && AcceptsAt(s, WorkerMove(pick, ok), Certified(s))))
  {
    if s.worker.InCall? {
      hide Pos, CanRun;
    } else if BetweenEvents(s.worker) {
      hide Pos, CanRun, AcceptsAt;
    } else {
      hide Pos, AcceptsAt;
    }
  }

  /** Every event counted as processed was accepted by the consumer in a call of its own. */
  lemma {:induction false} ProcessedWasAccepted(states: seq<State>, steps: seq<Step>, i: nat)
    requires IsRun(states, steps) && i <= |steps|
    ensures CallIsLast(states[i])
    ensures forall k: nat :: k < Certified(states[i]) ==> AcceptedBefore(states, steps, i, k)
    ensures forall k: nat :: k < states[i].processed ==> AcceptedBefore(states, steps, i, k)
  {
    if i == 0 {
      assert Certified(states[0]) == 0;
    } else {
      ProcessedWasAccepted(states, steps, i - 1);
      RunInv(states, steps, i - 1);
      hide Inv, Next, Enabled, Init, AcceptsAt;
      CertifiedStep(states[i - 1], steps[i - 1]);
      var n := i - 1;
      forall k: nat | k < Certified(states[i]) ensures AcceptedBefore(states, steps, i, k) {
        assert k < Certified(states[n]) ==> AcceptedBefore(states, steps, n, k);
      }
    }
  }
}
