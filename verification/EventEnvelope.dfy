/** The bounded event envelope of chronik/event-envelope.cpp as a step relation.

    Any number of threads may be inside Submit, MarkDegraded or Shutdown while one worker drains
    the ring. Each atomic load or store and each section under the wait mutex is one step. A load
    of the other side's ring index may return an older value of it; the worker's never returns one
    older than it has seen before, or than was stored before it last held the mutex. */
module EventEnvelope {
  import opened Common

  const ENVELOPE_FAILED: nat := 3

  datatype Event = Event(sequence: nat, kind: nat, hash: seq<nat>, height: int, payload: seq<nat>)

  /** Where the worker is; the values are its local variables. */
  datatype WorkerPc =
    | LoadFlags
    | LoadIndexes
    | LoadStopping
    | LockAndTest
    | Sleeping
    | TakeSlot(index: nat)
    | StoreRead(index: nat, ev: Event)
    | CompareSequence(ev: Event)
    | InCall(ev: Event)
    | StoreLast(ev: Event)
    | CountProcessed
    | NextSequence
    | WorkerDegrade
    | WorkerNotify
    | Exited

  /** Where a calling thread is. `Degrade` and `Stop` are also the entries of the other two calls. */
  datatype ThreadPc =
    | SubmitFlags(ev: Event)
    | SubmitStopping(ev: Event)
    | Acquire(ev: Event)
    | HeldFlags(ev: Event)
    | HeldStopping(ev: Event)
    | HeldWrite(ev: Event)
    | HeldRead(ev: Event, index: nat)
    | Inspect(ev: Event, index: nat)
    | Fill(ev: Event, index: nat)
    | Publish(ev: Event, index: nat)
    | Release
    | NotifyOne
    | ReleaseReturn
    | ReleaseDegrade
    | Degrade
    | NotifyAll
    | Stop
    | NotifyStop
    | AwaitDone

  /** The shared state, the worker with the newest write index it has seen, the callers, and three
      histories: who last took the producer flag, the events made visible to the worker, and those a
      consumer call was begun for. */
  datatype State = State(
    capacity: nat,
    slots: seq<Option<Event>>,
    readIndex: nat,
    writeIndex: nat,
    busy: bool,
    flags: nat,
    stopping: bool,
    accepted: nat,
    processed: nat,
    lastEnqueued: nat,
    lastProcessed: nat,
    expected: nat,
    worker: WorkerPc,
    seen: nat,
    threads: map<nat, ThreadPc>,
    owner: nat,
    log: seq<Event>,
    delivered: seq<Event>)

  function Pos(capacity: nat, index: nat): nat
    requires capacity > 0
  {
    index % capacity
  }

  predicate Degraded(s: State) { s.flags != 0 }

  /** The condition the worker tests under the mutex before sleeping. */
  predicate CanRun(s: State) { Degraded(s) || s.stopping || s.readIndex != s.writeIndex }

  predicate Init(s: State) {
    && s.capacity > 0 && |s.slots| == s.capacity && (forall i :: 0 <= i < |s.slots| ==> s.slots[i] == None)
    && s.readIndex == s.writeIndex == s.accepted == s.processed == s.lastEnqueued == s.lastProcessed == 0
    && !s.busy && s.flags == 0 && !s.stopping && s.expected == 1
    && s.worker == LoadFlags && s.seen == 0 && s.threads == map[] && s.log == [] && s.delivered == []
  }

  // ---------------------------------------------------------------- the worker

  predicate WorkerEnabled(s: State, pick: nat) {
    && s.capacity > 0 && |s.slots| == s.capacity
    && !s.worker.Exited?
    && (s.worker.LoadIndexes? ==> Max(s.readIndex, s.seen) <= pick <= s.writeIndex)
  }

  /** One step of the worker. `pick` is the write index a load returns, `ok` the consumer's answer. */
  function WorkerNext(s: State, pick: nat, ok: bool): State
    requires WorkerEnabled(s, pick)
  {
    match s.worker
    case LoadFlags => s.(worker := if Degraded(s) then Exited else LoadIndexes)
    case LoadIndexes => s.(seen := pick, worker := if s.readIndex == pick then LoadStopping else TakeSlot(s.readIndex))
    case LoadStopping => s.(worker := if s.stopping then Exited else LockAndTest)
    case LockAndTest => s.(seen := s.writeIndex, worker := if CanRun(s) then LoadFlags else Sleeping)
    case Sleeping => s.(worker := LockAndTest)
    case TakeSlot(index) =>
      var p := Pos(s.capacity, index);
      if s.slots[p].None? then s.(worker := WorkerDegrade)
      else s.(slots := s.slots[p := None], worker := StoreRead(index, s.slots[p].value))
    case StoreRead(index, ev) => s.(readIndex := index + 1, worker := CompareSequence(ev))
    case CompareSequence(ev) =>
      if ev.sequence != s.expected then s.(worker := WorkerDegrade)
      else s.(delivered := s.delivered + [ev], worker := InCall(ev))
    case InCall(ev) => s.(worker := if ok then StoreLast(ev) else WorkerDegrade)
    case StoreLast(ev) => s.(lastProcessed := ev.sequence, worker := CountProcessed)
    case CountProcessed => s.(processed := s.processed + 1, worker := NextSequence)
    case NextSequence =>
      if s.expected == UINT64_MAX then s.(worker := WorkerDegrade)
      else s.(expected := s.expected + 1, worker := LoadFlags)
    case WorkerDegrade => s.(flags := ENVELOPE_FAILED, worker := WorkerNotify)
    case WorkerNotify => s.(worker := Exited)
    case Exited => s
  }

  // ---------------------------------------------------------------- the callers

  predicate ThreadEnabled(s: State, t: nat, pick: nat) {
    && s.capacity > 0 && |s.slots| == s.capacity
    && t in s.threads
    && (s.threads[t].HeldRead? ==> pick <= s.readIndex)
  }

  function At(s: State, t: nat, pc: ThreadPc): State { s.(threads := s.threads[t := pc]) }

  function Return(s: State, t: nat): State { s.(threads := s.threads - {t}) }

  function Wake(s: State): State { if s.worker.Sleeping? then s.(worker := LockAndTest) else s }

  /** One step of a caller. `pick` is the read index a load returns, `ok` whether the copy of the
      event into the slot succeeds, or whether Shutdown waits long enough to see a worker that has left. */
  function ThreadNext(s: State, t: nat, pick: nat, ok: bool): State
    requires ThreadEnabled(s, t, pick)
  {
    match s.threads[t]
    case SubmitFlags(ev) =>
      if ev.sequence == 0 then At(s, t, Degrade)
      else if Degraded(s) then Return(s, t) else At(s, t, SubmitStopping(ev))
    case SubmitStopping(ev) => if s.stopping then Return(s, t) else At(s, t, Acquire(ev))
    case Acquire(ev) => if s.busy then At(s, t, Degrade) else At(s.(busy := true, owner := t), t, HeldFlags(ev))
    case HeldFlags(ev) => At(s, t, if Degraded(s) then ReleaseReturn else HeldStopping(ev))
    case HeldStopping(ev) => At(s, t, if s.stopping then ReleaseReturn else HeldWrite(ev))
    case HeldWrite(ev) => At(s, t, HeldRead(ev, s.writeIndex))
    case HeldRead(ev, index) =>
      At(s, t, if index == UINT64_MAX || index - pick >= s.capacity then ReleaseDegrade else Inspect(ev, index))
    case Inspect(ev, index) =>
      At(s, t, if s.slots[Pos(s.capacity, index)].Some? then ReleaseDegrade else Fill(ev, index))
    case Fill(ev, index) =>
      if !ok then At(s, t, ReleaseDegrade)
      else At(s.(slots := s.slots[Pos(s.capacity, index) := Some(ev)]), t, Publish(ev, index))
    case Publish(ev, index) =>
      if Degraded(s) || s.stopping then
        Return(s.(slots := s.slots[Pos(s.capacity, index) := None], busy := false), t)
      else
        At(s.(writeIndex := index + 1, lastEnqueued := ev.sequence, accepted := s.accepted + 1, log := s.log + [ev]),
           t, Release)
    case Release => At(s.(busy := false), t, NotifyOne)
    case NotifyOne => Return(Wake(s), t)
    case ReleaseReturn => Return(s.(busy := false), t)
    case ReleaseDegrade => At(s.(busy := false), t, Degrade)
    case Degrade => At(s.(flags := ENVELOPE_FAILED), t, NotifyAll)
    case NotifyAll => Return(Wake(s), t)
    case Stop => At(s.(stopping := true), t, NotifyStop)
    case NotifyStop => At(Wake(s), t, AwaitDone)
    case AwaitDone => if ok && s.worker.Exited? then Return(s, t) else At(s, t, Degrade)
  }

  // ---------------------------------------------------------------- runs

  datatype Step =
    | WorkerMove(pick: nat, ok: bool)
    | ThreadMove(t: nat, pick: nat, ok: bool)
    | Submit(t: nat, ev: Event)
    | MarkDegraded(t: nat)
    | Shutdown(t: nat)

  predicate Enabled(s: State, step: Step) {
    match step
    case WorkerMove(pick, _) => WorkerEnabled(s, pick)
    case ThreadMove(t, pick, _) => ThreadEnabled(s, t, pick)
    case Submit(t, ev) => t !in s.threads && ev.sequence <= UINT64_MAX
    case MarkDegraded(t) => t !in s.threads
    case Shutdown(t) => t !in s.threads
  }

  function Next(s: State, step: Step): State
    requires Enabled(s, step)
  {
    match step
    case WorkerMove(pick, ok) => WorkerNext(s, pick, ok)
    case ThreadMove(t, pick, ok) => ThreadNext(s, t, pick, ok)
    case Submit(t, ev) => At(s, t, SubmitFlags(ev))
    case MarkDegraded(t) => At(s, t, Degrade)
    case Shutdown(t) => At(s, t, Stop)
  }

  /** A run: any interleaving of steps from a fresh envelope. */
  ghost predicate IsRun(states: seq<State>, steps: seq<Step>) {
    && |states| == |steps| + 1
    && Init(states[0])
    && forall i :: 0 <= i < |steps| ==> Enabled(states[i], steps[i]) && states[i + 1] == Next(states[i], steps[i])
  }
}
