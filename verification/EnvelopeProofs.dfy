/** What every interleaving of the event envelope keeps, and what follows for whole runs. */
module EnvelopeProofs {
  import opened Common
  import opened EventEnvelope
  import opened Powers

  // ---------------------------------------------------------------- ring positions

  lemma PosInRange(capacity: nat, index: nat)
    requires capacity > 0
    ensures Pos(capacity, index) < capacity
  {
  }

  /** Indexes less than a capacity apart use different slots. */
  lemma PosDistinct(capacity: nat, a: nat, b: nat)
    requires a < b < a + capacity
    ensures Pos(capacity, a) != Pos(capacity, b)
  {
    var q, r := a / capacity, a % capacity;
    assert a == q * capacity + r;
    if b - a + r < capacity {
      QuotientIs(b, capacity, q, b - a + r);
    } else {
      MulAdd(q, 1, capacity);
      QuotientIs(b, capacity, q + 1, b - a + r - capacity);
    }
  }

  /** A slot comes round again after exactly a capacity. */
  lemma PosWraps(capacity: nat, index: nat)
    requires capacity > 0
    ensures Pos(capacity, index + capacity) == Pos(capacity, index)
  {
    var q, r := index / capacity, index % capacity;
    assert index == q * capacity + r;
    MulAdd(q, 1, capacity);
    QuotientIs(index + capacity, capacity, q + 1, r);
  }

  // ---------------------------------------------------------------- the ring

  /** The slots in [r, w) are the logged events in order, but for the first when it was already
      taken out; all other slots are empty, but for the next one when a producer has filled it. */
  ghost predicate RingOf(capacity: nat, slots: seq<Option<Event>>, r: nat, w: nat, log: seq<Event>,
                         taken: bool, filled: Option<Event>)
    requires capacity > 0 && |slots| == capacity && r <= w <= r + capacity && |log| == w
  {
    && (forall k {:trigger Pos(capacity, k)} :: r <= k < r + capacity ==>
          && Pos(capacity, k) < capacity
          && slots[Pos(capacity, k)] ==
             if k < w then (if k == r && taken then None else Some(log[k]))
             else if k == w then filled else None)
    && (taken ==> r < w)
    && (filled.Some? ==> w < r + capacity)
  }

  lemma RingEmpty(capacity: nat, slots: seq<Option<Event>>)
    requires capacity > 0 && |slots| == capacity && forall i :: 0 <= i < capacity ==> slots[i] == None
    ensures RingOf(capacity, slots, 0, 0, [], false, None)
  {
    forall k: nat | k < capacity ensures Pos(capacity, k) < capacity { PosInRange(capacity, k); }
  }

  /** What the worker finds at the read index, and what it leaves when it takes it. */
  lemma RingTake(capacity: nat, slots: seq<Option<Event>>, r: nat, w: nat, log: seq<Event>, filled: Option<Event>)
    requires capacity > 0 && |slots| == capacity && r < w <= r + capacity && |log| == w
    requires RingOf(capacity, slots, r, w, log, false, filled)
    ensures Pos(capacity, r) < capacity && slots[Pos(capacity, r)] == Some(log[r])
    ensures RingOf(capacity, slots[Pos(capacity, r) := None], r, w, log, true, filled)
  {
    hide Pos;
    PosInRange(capacity, r);
    forall k | r < k < r + capacity ensures Pos(capacity, k) != Pos(capacity, r) { PosDistinct(capacity, r, k); }
  }

  /** Advancing the read index hands the slot just emptied to the producer. */
  lemma RingAdvance(capacity: nat, slots: seq<Option<Event>>, r: nat, w: nat, log: seq<Event>, filled: Option<Event>)
    requires capacity > 0 && |slots| == capacity && r < w <= r + capacity && |log| == w
    requires RingOf(capacity, slots, r, w, log, true, filled)
    ensures RingOf(capacity, slots, r + 1, w, log, false, filled)
  {
    hide Pos;
    PosWraps(capacity, r);
    assert slots[Pos(capacity, r)] == None;
  }

  /** The producer's slot is empty until it is filled; filling or emptying it touches no other. */
  lemma RingFill(capacity: nat, slots: seq<Option<Event>>, r: nat, w: nat, log: seq<Event>, taken: bool,
                 before: Option<Event>, after: Option<Event>)
    requires capacity > 0 && |slots| == capacity && r <= w < r + capacity && |log| == w
    requires RingOf(capacity, slots, r, w, log, taken, before)
    ensures Pos(capacity, w) < capacity && slots[Pos(capacity, w)] == before
    ensures RingOf(capacity, slots[Pos(capacity, w) := after], r, w, log, taken, after)
  {
    hide Pos;
    forall k | r <= k < r + capacity && k != w ensures Pos(capacity, k) != Pos(capacity, w) {
      if k < w { PosDistinct(capacity, k, w); } else { PosDistinct(capacity, w, k); }
    }
  }

  lemma RingPublish(capacity: nat, slots: seq<Option<Event>>, r: nat, w: nat, log: seq<Event>, taken: bool, ev: Event)
    requires capacity > 0 && |slots| == capacity && r <= w < r + capacity && |log| == w
    requires RingOf(capacity, slots, r, w, log, taken, Some(ev))
    ensures RingOf(capacity, slots, r, w + 1, log + [ev], taken, None)
  {
    hide Pos;
  }

  /** Consumer calls were begun for a prefix of the log, numbered 1, 2, 3, ... */
  ghost predicate Numbered(delivered: seq<Event>, log: seq<Event>) {
    && |delivered| <= |log|
    && forall i :: 0 <= i < |delivered| ==> delivered[i] == log[i] && delivered[i].sequence == i + 1
  }

  lemma NumberedGrows(delivered: seq<Event>, log: seq<Event>, ev: Event)
    requires Numbered(delivered, log)
    ensures Numbered(delivered, log + [ev])
    ensures |delivered| < |log| && log[|delivered|] == ev && ev.sequence == |delivered| + 1 ==>
            Numbered(delivered + [ev], log)
  {
  }

  // ---------------------------------------------------------------- the invariant

  predicate Holding(pc: ThreadPc) {
    pc.HeldFlags? || pc.HeldStopping? || pc.HeldWrite? || pc.HeldRead? || pc.Inspect? || pc.Fill? || pc.Publish?
    || pc.Release? || pc.ReleaseReturn? || pc.ReleaseDegrade?
  }

  predicate WillNotify(pc: ThreadPc) { pc.Release? || pc.NotifyOne? || pc.NotifyAll? || pc.NotifyStop? }

  /** Indexes, counters and flags. */
  ghost predicate Shape(s: State) {
    && s.capacity > 0 && |s.slots| == s.capacity
    && s.readIndex <= s.writeIndex <= s.readIndex + s.capacity
    && s.writeIndex <= UINT64_MAX
    && |s.log| == s.writeIndex == s.accepted
    && s.lastEnqueued == (if s.log == [] then 0 else s.log[|s.log| - 1].sequence)
    && (s.flags == 0 || s.flags == ENVELOPE_FAILED)
  }

  /** Only the thread that took the producer flag is in the guarded part. */
  ghost predicate OneHolder(threads: map<nat, ThreadPc>, busy: bool, owner: nat) {
    && (forall t :: t in threads && Holding(threads[t]) ==> busy && t == owner)
    && (busy ==> owner in threads && Holding(threads[owner]))
  }

  /** The holder's copy of the write index is current, and the slot it is about to use is free. */
  predicate HolderOk(threads: map<nat, ThreadPc>, busy: bool, owner: nat, r: nat, w: nat, capacity: nat) {
    busy && owner in threads ==>
      && (threads[owner].HeldRead? ==> threads[owner].index == w)
      && (threads[owner].Inspect? || threads[owner].Fill? || threads[owner].Publish? ==>
            threads[owner].index == w < r + capacity && w < UINT64_MAX)
  }

  /** The event filled in but not yet published. */
  function Filled(threads: map<nat, ThreadPc>, busy: bool, owner: nat): Option<Event> {
    if busy && owner in threads && threads[owner].Publish? then Some(threads[owner].ev) else None
  }

  ghost predicate Ring(s: State)
    requires Shape(s)
  {
    RingOf(s.capacity, s.slots, s.readIndex, s.writeIndex, s.log, s.worker.StoreRead?,
           Filled(s.threads, s.busy, s.owner))
  }

  /** How far the worker has got: the number of consumer calls begun, the read index, the counters. */
  datatype Tally = Tally(calls: nat, read: nat, processed: nat, last: nat, expected: nat)

  /** Between events: everything read was delivered and counted. */
  predicate Settled(c: Tally) { c.read == c.calls == c.processed == c.last && c.expected == c.calls + 1 }

  /** During and just after a consumer call. */
  predicate InService(c: Tally) { c.calls == c.read == c.expected == c.processed + 1 }

  /** On the way out: at most one event was read or handed over without being counted. */
  predicate Stopped(c: Tally) {
    && c.calls <= c.read <= c.processed + 1
    && c.processed == c.last <= c.calls
  }

  /** The worker's local values agree with the log and the counters. */
  ghost predicate Progress(worker: WorkerPc, log: seq<Event>, c: Tally) {
    match worker
    case TakeSlot(index) => index == c.read < |log| && Settled(c)
    case StoreRead(index, ev) => index == c.read < |log| && ev == log[index] && Settled(c)
    case CompareSequence(ev) =>
      c.read == c.expected == c.calls + 1 <= |log| && c.processed == c.last == c.calls && ev == log[c.calls]
    case InCall(ev) => InService(c) && c.last == c.processed && ev.sequence == c.expected
    case StoreLast(ev) => InService(c) && c.last == c.processed && ev.sequence == c.expected
    case CountProcessed => InService(c) && c.last == c.processed + 1
    case NextSequence => c.read == c.calls == c.expected == c.processed == c.last
    case WorkerDegrade => Stopped(c)
    case WorkerNotify => Stopped(c)
    case Exited => Stopped(c)
    case _ => Settled(c)
  }

  lemma ProgressGrows(worker: WorkerPc, log: seq<Event>, c: Tally, ev: Event)
    requires Progress(worker, log, c)
    ensures Progress(worker, log + [ev], c)
    ensures worker.Sleeping? ==> Progress(LockAndTest, log, c)
  {
  }

  function TallyOf(s: State): Tally { Tally(|s.delivered|, s.readIndex, s.processed, s.lastProcessed, s.expected) }

  ghost predicate WorkerOk(s: State) {
    Numbered(s.delivered, s.log) && Progress(s.worker, s.log, TallyOf(s))
  }

  /** Some thread is about to notify. */
  ghost predicate NotifyPending(threads: map<nat, ThreadPc>) {
    exists t :: t in threads && WillNotify(threads[t])
  }

  /** No lost wake-up. */
  ghost predicate SleepOk(s: State) {
    s.worker.Sleeping? && CanRun(s) ==> NotifyPending(s.threads)
  }

  ghost predicate Inv(s: State) {
    && Shape(s)
    && OneHolder(s.threads, s.busy, s.owner)
    && HolderOk(s.threads, s.busy, s.owner, s.readIndex, s.writeIndex, s.capacity)
    && Ring(s)
    && WorkerOk(s)
    && SleepOk(s)
  }

  lemma InitInv(s: State)
    requires Init(s)
    ensures Inv(s)
  {
    RingEmpty(s.capacity, s.slots);
  }

  // ---------------------------------------------------------------- one step

  /** Worker steps that move an event: out of its slot, past the read index, to the consumer. */
  lemma WorkerMovesEvent(s: State, pick: nat, ok: bool)
    requires Inv(s) && WorkerEnabled(s, pick)
    requires s.worker.TakeSlot? || s.worker.StoreRead? || s.worker.CompareSequence?
    ensures Inv(WorkerNext(s, pick, ok))
    ensures s.worker.TakeSlot? ==> WorkerNext(s, pick, ok).worker.StoreRead?
  {
    hide RingOf, Numbered, OneHolder, Pos;
    match s.worker
    case TakeSlot(index) => RingTake(s.capacity, s.slots, s.readIndex, s.writeIndex, s.log,
                                     Filled(s.threads, s.busy, s.owner));
    case StoreRead(index, ev) => RingAdvance(s.capacity, s.slots, s.readIndex, s.writeIndex, s.log,
                                             Filled(s.threads, s.busy, s.owner));
    case CompareSequence(ev) => NumberedGrows(s.delivered, s.log, ev);
  }

  /** The worker has no event in its hands. */
  predicate BetweenEvents(worker: WorkerPc) {
    worker.LoadFlags? || worker.LoadIndexes? || worker.LoadStopping? || worker.LockAndTest? || worker.Sleeping?
  }

  lemma WorkerWaits(s: State, pick: nat, ok: bool)
    requires Inv(s) && WorkerEnabled(s, pick) && BetweenEvents(s.worker)
    ensures Inv(WorkerNext(s, pick, ok))
  {
    hide RingOf, Numbered, OneHolder, Pos, HolderOk, Filled;
  }

  /** After the call only the worker's own counters change. */
  lemma FinishProgress(s: State, pick: nat, ok: bool)
    requires WorkerEnabled(s, pick) && Progress(s.worker, s.log, TallyOf(s))
    requires s.worker.InCall? || s.worker.StoreLast? || s.worker.CountProcessed? || s.worker.NextSequence?
    ensures var s' := WorkerNext(s, pick, ok);
            && s' == s.(worker := s'.worker, lastProcessed := s'.lastProcessed, processed := s'.processed,
                        expected := s'.expected)
            && !s'.worker.StoreRead? && !s'.worker.Sleeping? && Progress(s'.worker, s'.log, TallyOf(s'))
  {
    match s.worker
    case InCall(ev) =>
    case StoreLast(ev) =>
    case CountProcessed =>
    case NextSequence =>
  }

  lemma WorkerFinishes(s: State, pick: nat, ok: bool)
    requires Inv(s) && WorkerEnabled(s, pick)
    requires s.worker.InCall? || s.worker.StoreLast? || s.worker.CountProcessed? || s.worker.NextSequence?
    ensures Inv(WorkerNext(s, pick, ok))
  {
    FinishProgress(s, pick, ok);
    hide RingOf, Numbered, OneHolder, NotifyPending, Pos, HolderOk, Filled, CanRun, Progress, WorkerNext;
  }

  lemma WorkerLeaves(s: State, pick: nat, ok: bool)
    requires Inv(s) && WorkerEnabled(s, pick)
    requires s.worker.WorkerDegrade? || s.worker.WorkerNotify?
    ensures Inv(WorkerNext(s, pick, ok))
  {
    hide RingOf, Numbered, OneHolder, NotifyPending, Pos, HolderOk, Filled, CanRun;
  }

  lemma WorkerStepInv(s: State, pick: nat, ok: bool)
    requires Inv(s) && WorkerEnabled(s, pick)
    ensures Inv(WorkerNext(s, pick, ok))
  {
    assert !s.worker.Exited?;
    hide Inv, WorkerNext, WorkerEnabled;
    if s.worker.TakeSlot? || s.worker.StoreRead? || s.worker.CompareSequence? {
      WorkerMovesEvent(s, pick, ok);
    } else if BetweenEvents(s.worker) {
      WorkerWaits(s, pick, ok);
    } else if s.worker.WorkerDegrade? || s.worker.WorkerNotify? {
      WorkerLeaves(s, pick, ok);
    } else {
      WorkerFinishes(s, pick, ok);
    }
  }

  /** How a thread's move or return affects who holds the producer flag. */
  lemma HolderMoves(threads: map<nat, ThreadPc>, busy: bool, owner: nat, t: nat, pc: ThreadPc)
    requires OneHolder(threads, busy, owner)
    ensures (t in threads && Holding(threads[t]) <==> Holding(pc)) ==> OneHolder(threads[t := pc], busy, owner)
    ensures !busy && Holding(pc) ==> OneHolder(threads[t := pc], true, t)
    ensures t in threads && Holding(threads[t]) && !Holding(pc) ==> OneHolder(threads[t := pc], false, owner)
    ensures t in threads && Holding(threads[t]) ==> busy && t == owner && OneHolder(threads - {t}, false, owner)
    ensures t in threads && !Holding(threads[t]) ==> OneHolder(threads - {t}, busy, owner)
    ensures busy ==> owner in threads && Holding(threads[owner])
  {
  }

  /** How it affects whether a notify is pending. */
  lemma NotifyMoves(threads: map<nat, ThreadPc>, t: nat, pc: ThreadPc)
    ensures WillNotify(pc) ==> NotifyPending(threads[t := pc])
    ensures NotifyPending(threads) && !(t in threads && WillNotify(threads[t])) ==>
              NotifyPending(threads[t := pc]) && NotifyPending(threads - {t})
  {
    if WillNotify(pc) { assert t in threads[t := pc]; }
    if NotifyPending(threads) && !(t in threads && WillNotify(threads[t])) {
      var u :| u in threads && WillNotify(threads[u]);
      var moved, left := threads[t := pc], threads - {t};
      assert u in moved && WillNotify(moved[u]);
      assert u in left && WillNotify(left[u]);
    }
  }

  /** A thread outside the guarded part leaves the holder's part of the invariant alone. */
  lemma OutsiderMoves(threads: map<nat, ThreadPc>, busy: bool, owner: nat, r: nat, w: nat, capacity: nat, t: nat,
                      pc: ThreadPc)
    requires OneHolder(threads, busy, owner) && HolderOk(threads, busy, owner, r, w, capacity)
    requires !Holding(pc) && (t in threads ==> !Holding(threads[t]))
    ensures OneHolder(threads[t := pc], busy, owner) && HolderOk(threads[t := pc], busy, owner, r, w, capacity)
    ensures Filled(threads[t := pc], busy, owner) == Filled(threads - {t}, busy, owner) == Filled(threads, busy, owner)
    ensures OneHolder(threads - {t}, busy, owner) && HolderOk(threads - {t}, busy, owner, r, w, capacity)
  {
  }

  predicate Entering(pc: ThreadPc) { pc.SubmitFlags? || pc.SubmitStopping? || pc.AwaitDone? }

  lemma EnteringInv(s: State, t: nat, pick: nat, ok: bool)
    requires Inv(s) && ThreadEnabled(s, t, pick) && Entering(s.threads[t])
    ensures Inv(ThreadNext(s, t, pick, ok))
  {
    var pc := if s.threads[t].AwaitDone? then Degrade
              else if s.threads[t].SubmitStopping? then Acquire(s.threads[t].ev)
              else if s.threads[t].ev.sequence == 0 then Degrade else SubmitStopping(s.threads[t].ev);
    var s' := ThreadNext(s, t, pick, ok);
    assert s' == s.(threads := s.threads[t := pc]) || s' == s.(threads := s.threads - {t});
    hide ThreadNext, RingOf, Numbered, OneHolder, NotifyPending, Pos, Progress, HolderOk, Filled;
    NotifyMoves(s.threads, t, pc);
    OutsiderMoves(s.threads, s.busy, s.owner, s.readIndex, s.writeIndex, s.capacity, t, pc);
  }

  lemma AcquireInv(s: State, t: nat, pick: nat, ok: bool)
    requires Inv(s) && ThreadEnabled(s, t, pick) && s.threads[t].Acquire?
    ensures Inv(ThreadNext(s, t, pick, ok))
  {
    var pc := ThreadNext(s, t, pick, ok).threads[t];
    hide RingOf, Numbered, OneHolder, NotifyPending, Pos, Progress;
    NotifyMoves(s.threads, t, pc);
    if s.busy {
      OutsiderMoves(s.threads, s.busy, s.owner, s.readIndex, s.writeIndex, s.capacity, t, pc);
    } else {
      HolderMoves(s.threads, s.busy, s.owner, t, pc);
    }
  }

  predicate Signalling(pc: ThreadPc) { pc.NotifyOne? || pc.NotifyAll? || pc.NotifyStop? }

  lemma SignallingInv(s: State, t: nat, pick: nat, ok: bool)
    requires Inv(s) && ThreadEnabled(s, t, pick) && Signalling(s.threads[t])
    ensures Inv(ThreadNext(s, t, pick, ok))
  {
    hide RingOf, Numbered, OneHolder, NotifyPending, Pos, Progress, HolderOk, Filled, CanRun;
    OutsiderMoves(s.threads, s.busy, s.owner, s.readIndex, s.writeIndex, s.capacity, t, AwaitDone);
    ProgressGrows(s.worker, s.log, TallyOf(s), Event(0, 0, [], 0, []));
    var worker := if s.worker.Sleeping? then LockAndTest else s.worker;
    var threads := if s.threads[t].NotifyStop? then s.threads[t := AwaitDone] else s.threads - {t};
    assert ThreadNext(s, t, pick, ok) == s.(worker := worker, threads := threads);
  }

  predicate Raising(pc: ThreadPc) { pc.Degrade? || pc.Stop? }

  lemma RaisingInv(s: State, t: nat, pick: nat, ok: bool)
    requires Inv(s) && ThreadEnabled(s, t, pick) && Raising(s.threads[t])
    ensures Inv(ThreadNext(s, t, pick, ok))
  {
    var s' := ThreadNext(s, t, pick, ok);
    hide RingOf, Numbered, OneHolder, NotifyPending, Pos, Progress, CanRun;
    NotifyMoves(s.threads, t, s'.threads[t]);
    hide HolderOk, Filled;
    OutsiderMoves(s.threads, s.busy, s.owner, s.readIndex, s.writeIndex, s.capacity, t, s'.threads[t]);
  }

  predicate Loading(pc: ThreadPc) { pc.HeldFlags? || pc.HeldStopping? || pc.HeldWrite? || pc.HeldRead? || pc.Inspect? }

  lemma LoadingInv(s: State, t: nat, pick: nat, ok: bool)
    requires Inv(s) && ThreadEnabled(s, t, pick) && Loading(s.threads[t])
    ensures Inv(ThreadNext(s, t, pick, ok))
    ensures s.threads[t].Inspect? ==> ThreadNext(s, t, pick, ok).threads[t].Fill?
  {
    var s' := ThreadNext(s, t, pick, ok);
    hide RingOf, Numbered, OneHolder, NotifyPending, Pos, Progress;
    HolderMoves(s.threads, s.busy, s.owner, t, s'.threads[t]);
    NotifyMoves(s.threads, t, s'.threads[t]);
    if s.threads[t].Inspect? {
      RingFill(s.capacity, s.slots, s.readIndex, s.writeIndex, s.log, s.worker.StoreRead?, None, None);
    }
  }

  predicate Releasing(pc: ThreadPc) { pc.Release? || pc.ReleaseReturn? || pc.ReleaseDegrade? }

  lemma ReleasingInv(s: State, t: nat, pick: nat, ok: bool)
    requires Inv(s) && ThreadEnabled(s, t, pick) && Releasing(s.threads[t])
    ensures Inv(ThreadNext(s, t, pick, ok))
  {
    var s' := ThreadNext(s, t, pick, ok);
    var pc := if t in s'.threads then s'.threads[t] else Degrade;
    hide RingOf, Numbered, OneHolder, NotifyPending, Pos, Progress;
    HolderMoves(s.threads, s.busy, s.owner, t, pc);
    NotifyMoves(s.threads, t, pc);
  }

  lemma FillInv(s: State, t: nat, pick: nat, ok: bool)
    requires Inv(s) && ThreadEnabled(s, t, pick) && s.threads[t].Fill?
    ensures Inv(ThreadNext(s, t, pick, ok))
  {
    var s' := ThreadNext(s, t, pick, ok);
    hide RingOf, Numbered, OneHolder, NotifyPending, Pos, Progress;
    HolderMoves(s.threads, s.busy, s.owner, t, s'.threads[t]);
    NotifyMoves(s.threads, t, s'.threads[t]);
    RingFill(s.capacity, s.slots, s.readIndex, s.writeIndex, s.log, s.worker.StoreRead?, None, Some(s.threads[t].ev));
  }

  lemma RejectInv(s: State, t: nat, pick: nat, ok: bool)
    requires Inv(s) && ThreadEnabled(s, t, pick) && s.threads[t].Publish? && (Degraded(s) || s.stopping)
    ensures Inv(ThreadNext(s, t, pick, ok))
  {
    hide RingOf, Numbered, OneHolder, NotifyPending, Pos, Progress;
    HolderMoves(s.threads, s.busy, s.owner, t, Release);
    NotifyMoves(s.threads, t, Release);
    RingFill(s.capacity, s.slots, s.readIndex, s.writeIndex, s.log, s.worker.StoreRead?, Some(s.threads[t].ev), None);
  }

  lemma PublishInv(s: State, t: nat, pick: nat, ok: bool)
    requires Inv(s) && ThreadEnabled(s, t, pick) && s.threads[t].Publish? && !Degraded(s) && !s.stopping
    ensures Inv(ThreadNext(s, t, pick, ok))
  {
    var ev := s.threads[t].ev;
    hide RingOf, Numbered, OneHolder, NotifyPending, Pos, Progress;
    HolderMoves(s.threads, s.busy, s.owner, t, Release);
    NotifyMoves(s.threads, t, Release);
    NumberedGrows(s.delivered, s.log, ev);
    ProgressGrows(s.worker, s.log, TallyOf(s), ev);
    RingPublish(s.capacity, s.slots, s.readIndex, s.writeIndex, s.log, s.worker.StoreRead?, ev);
  }

  lemma ThreadStepInv(s: State, t: nat, pick: nat, ok: bool)
    requires Inv(s) && ThreadEnabled(s, t, pick)
    ensures Inv(ThreadNext(s, t, pick, ok))
  {
    hide Inv, ThreadNext;
    var pc := s.threads[t];
    if Entering(pc) { EnteringInv(s, t, pick, ok); }
    else if Signalling(pc) { SignallingInv(s, t, pick, ok); }
    else if pc.Acquire? { AcquireInv(s, t, pick, ok); }
    else if Raising(pc) { RaisingInv(s, t, pick, ok); }
    else if Loading(pc) { LoadingInv(s, t, pick, ok); }
    else if Releasing(pc) { ReleasingInv(s, t, pick, ok); }
    else if pc.Fill? { FillInv(s, t, pick, ok); }
    else if Degraded(s) || s.stopping { RejectInv(s, t, pick, ok); }
    else { PublishInv(s, t, pick, ok); }
  }

  lemma CallInv(s: State, t: nat, pc: ThreadPc)
    requires Inv(s) && t !in s.threads && (pc.SubmitFlags? || pc.Degrade? || pc.Stop?)
    ensures Inv(At(s, t, pc))
  {
    hide RingOf, Numbered, OneHolder, NotifyPending, Pos, Progress, HolderOk, Filled;
    NotifyMoves(s.threads, t, pc);
    OutsiderMoves(s.threads, s.busy, s.owner, s.readIndex, s.writeIndex, s.capacity, t, pc);
  }

  /** Every step of every thread keeps the invariant. */
  lemma StepInv(s: State, step: Step)
    requires Inv(s) && Enabled(s, step)
    ensures Inv(Next(s, step))
  {
    hide Inv, WorkerNext, ThreadNext, At;
    match step
    case WorkerMove(pick, ok) => WorkerStepInv(s, pick, ok);
    case ThreadMove(t, pick, ok) => ThreadStepInv(s, t, pick, ok);
    case Submit(t, ev) => CallInv(s, t, SubmitFlags(ev));
    case MarkDegraded(t) => CallInv(s, t, Degrade);
    case Shutdown(t) => CallInv(s, t, Stop);
  }

  /** The invariant holds in every state of every run. */
  lemma {:induction false} RunInv(states: seq<State>, steps: seq<Step>, i: nat)
    requires IsRun(states, steps) && i <= |steps|
    ensures Inv(states[i])
  {
    hide Inv, Next, Init;
    if i == 0 {
      InitInv(states[0]);
    } else {
      RunInv(states, steps, i - 1);
      StepInv(states[i - 1], steps[i - 1]);
    }
  }

  // ---------------------------------------------------------------- what runs promise

  predicate ProducerTouches(pc: ThreadPc) { pc.Inspect? || pc.Fill? || pc.Publish? }

  /** In every state of every run: the ring is never overfull; the slots from read to write hold the
      accepted unread events in order; the worker and a producer never touch one slot at once; two
      producers are never inside together; and neither side finds a slot in the wrong state. */
  lemma RingSafety(states: seq<State>, steps: seq<Step>, i: nat)
    requires IsRun(states, steps) && i <= |steps|
    ensures var s := states[i];
            && s.capacity > 0 && |s.slots| == s.capacity
            && s.readIndex <= s.writeIndex <= s.readIndex + s.capacity
            && |s.log| == s.writeIndex == s.accepted
            && (forall k {:trigger Pos(s.capacity, k)} ::
                  s.readIndex <= k < s.writeIndex && !(k == s.readIndex && s.worker.StoreRead?) ==>
                    Pos(s.capacity, k) < s.capacity && s.slots[Pos(s.capacity, k)] == Some(s.log[k]))
            && (forall t :: t in s.threads && ProducerTouches(s.threads[t]) && s.worker.TakeSlot? ==>
                  Pos(s.capacity, s.threads[t].index) != Pos(s.capacity, s.worker.index))
            && (forall t, u :: t in s.threads && u in s.threads && Holding(s.threads[t]) && Holding(s.threads[u]) ==>
                t == u)
  {
    RunInv(states, steps, i);
    var s := states[i];
    hide Pos;
    if s.worker.TakeSlot? {
      forall t | t in s.threads && ProducerTouches(s.threads[t])
        ensures Pos(s.capacity, s.threads[t].index) != Pos(s.capacity, s.worker.index)
      {
        assert Holding(s.threads[t]) && t == s.owner;
        PosDistinct(s.capacity, s.worker.index, s.threads[t].index);
      }
    }
  }

  /** Neither of the two "impossible" slot checks ever fires. */
  lemma SlotChecksNeverFire(states: seq<State>, steps: seq<Step>, i: nat)
    requires IsRun(states, steps) && i < |steps|
    ensures steps[i].WorkerMove? && states[i].worker.TakeSlot? ==> states[i + 1].worker.StoreRead?
    ensures steps[i].ThreadMove? && states[i].threads[steps[i].t].Inspect? ==> states[i + 1].threads[steps[i].t].Fill?
  {
    RunInv(states, steps, i);
    hide Inv;
    var s := states[i];
    if steps[i].WorkerMove? && s.worker.TakeSlot? {
      WorkerMovesEvent(s, steps[i].pick, steps[i].ok);
    }
    if steps[i].ThreadMove? && s.threads[steps[i].t].Inspect? {
      LoadingInv(s, steps[i].t, steps[i].pick, steps[i].ok);
    }
  }

  /** Consumer calls are begun for a prefix of the accepted events, numbered 1, 2, 3, ... without
      gap or repeat, and the counters follow them. */
  lemma DeliveryInOrder(states: seq<State>, steps: seq<Step>, i: nat)
    requires IsRun(states, steps) && i <= |steps|
    ensures var s := states[i];
            && s.delivered <= s.log
            && (forall k :: 0 <= k < |s.delivered| ==> s.delivered[k].sequence == k + 1)
            && s.processed <= |s.delivered| <= s.processed + 1
            && |s.delivered| <= s.readIndex <= |s.delivered| + 1
            && (s.log != [] ==> s.lastEnqueued == s.log[|s.log| - 1].sequence)
  {
    RunInv(states, steps, i);
    hide RingOf, OneHolder, NotifyPending, Pos;
  }

  /** A sleeping worker with something to do always has a notify on its way. */
  lemma NoLostWakeup(states: seq<State>, steps: seq<Step>, i: nat)
    requires IsRun(states, steps) && i <= |steps|
    ensures states[i].worker.Sleeping? && CanRun(states[i]) ==>
              exists t :: t in states[i].threads && WillNotify(states[i].threads[t])
  {
    RunInv(states, steps, i);
    hide RingOf, OneHolder, Pos, Numbered, Progress;
  }

  /** What no step undoes: a failure, a stop, and after either the log. */
  predicate Final(s: State, s': State) {
    && (s'.flags == 0 || s'.flags == ENVELOPE_FAILED)
    && (s.flags != 0 ==> s'.flags == ENVELOPE_FAILED)
    && (s.stopping ==> s'.stopping)
    && (s.flags != 0 || s.stopping ==> s'.log == s.log && s'.accepted == s.accepted)
  }

  lemma WorkerFinal(s: State, pick: nat, ok: bool)
    requires (s.flags == 0 || s.flags == ENVELOPE_FAILED) && WorkerEnabled(s, pick)
    ensures Final(s, WorkerNext(s, pick, ok))
  {
    hide Pos;
  }

  lemma HolderFinal(s: State, t: nat, pick: nat, ok: bool)
    requires (s.flags == 0 || s.flags == ENVELOPE_FAILED) && ThreadEnabled(s, t, pick) && Holding(s.threads[t])
    ensures Final(s, ThreadNext(s, t, pick, ok))
  {
    hide Pos;
  }

  lemma OutsiderFinal(s: State, t: nat, pick: nat, ok: bool)
    requires (s.flags == 0 || s.flags == ENVELOPE_FAILED) && ThreadEnabled(s, t, pick) && !Holding(s.threads[t])
    ensures Final(s, ThreadNext(s, t, pick, ok))
  {
    if Signalling(s.threads[t]) {
      SignallerFinal(s, t, pick, ok);
    } else {
      hide Pos, Wake;
    }
  }

  lemma SignallerFinal(s: State, t: nat, pick: nat, ok: bool)
    requires (s.flags == 0 || s.flags == ENVELOPE_FAILED) && ThreadEnabled(s, t, pick) && Signalling(s.threads[t])
    ensures Final(s, ThreadNext(s, t, pick, ok))
  {
    hide Pos;
  }

  /** Failure sets both flags at once and is sticky, stopping is sticky, and after either store
      nothing more is accepted. */
  lemma FailureAndStopAreFinal(s: State, step: Step)
    requires (s.flags == 0 || s.flags == ENVELOPE_FAILED) && Enabled(s, step)
    ensures Final(s, Next(s, step))
  {
    hide WorkerNext, ThreadNext;
    match step
    case WorkerMove(pick, ok) => WorkerFinal(s, pick, ok);
    case ThreadMove(t, pick, ok) =>
      if Holding(s.threads[t]) { HolderFinal(s, t, pick, ok); } else { OutsiderFinal(s, t, pick, ok); }
    case _ =>
  }

  lemma FlagsInRun(states: seq<State>, steps: seq<Step>, i: nat)
    requires IsRun(states, steps) && i <= |steps|
    ensures states[i].flags == 0 || states[i].flags == ENVELOPE_FAILED
  {
    RunInv(states, steps, i);
  }

  /** Consumer calls the worker can still begin once the failure flag is set. */
  function CallsLeft(worker: WorkerPc): nat {
    match worker
    case LoadIndexes => 1
    case TakeSlot(_) => 1
    case StoreRead(_, _) => 1
    case CompareSequence(_) => 1
    case _ => 0
  }

  lemma WorkerCallsLeft(s: State, pick: nat, ok: bool)
    requires Degraded(s) && WorkerEnabled(s, pick)
    ensures |WorkerNext(s, pick, ok).delivered| + CallsLeft(WorkerNext(s, pick, ok).worker) <= |s.delivered| +
            CallsLeft(s.worker)
  {
    hide Pos;
  }

  lemma ThreadCallsLeft(s: State, t: nat, pick: nat, ok: bool)
    requires ThreadEnabled(s, t, pick)
    ensures ThreadNext(s, t, pick, ok).delivered == s.delivered
    ensures CallsLeft(ThreadNext(s, t, pick, ok).worker) == CallsLeft(s.worker)
  {
    if Signalling(s.threads[t]) {
      SignallerCallsLeft(s, t, pick, ok);
    } else {
      hide Pos, Wake, CallsLeft, Degraded;
    }
  }

  lemma SignallerCallsLeft(s: State, t: nat, pick: nat, ok: bool)
    requires ThreadEnabled(s, t, pick) && Signalling(s.threads[t])
    ensures ThreadNext(s, t, pick, ok).delivered == s.delivered
    ensures CallsLeft(ThreadNext(s, t, pick, ok).worker) == CallsLeft(s.worker)
  {
    hide Pos;
  }

  lemma FailureLimitsCalls(s: State, step: Step)
    requires Degraded(s) && Enabled(s, step)
    ensures |Next(s, step).delivered| + CallsLeft(Next(s, step).worker) <= |s.delivered| + CallsLeft(s.worker)
  {
    hide WorkerNext, ThreadNext;
    match step
    case WorkerMove(pick, ok) => WorkerCallsLeft(s, pick, ok);
    case ThreadMove(t, pick, ok) => ThreadCallsLeft(s, t, pick, ok);
    case _ =>
  }

  /** From the state in which the failure flag is first seen set, at most one more call begins and
      nothing more is accepted, however long the run goes on. */
  lemma {:induction false} AfterFailure(states: seq<State>, steps: seq<Step>, i: nat, j: nat)
    requires IsRun(states, steps) && i <= j <= |steps| && Degraded(states[i])
    ensures Degraded(states[j]) && states[j].log == states[i].log
    ensures |states[j].delivered| + CallsLeft(states[j].worker) <= |states[i].delivered| + CallsLeft(states[i].worker)
    ensures |states[j].delivered| <= |states[i].delivered| + 1
    decreases j - i
  {
    hide Next, Init, Enabled;
    if i < j {
      AfterFailure(states, steps, i, j - 1);
      FlagsInRun(states, steps, j - 1);
      FailureLimitsCalls(states[j - 1], steps[j - 1]);
      FailureAndStopAreFinal(states[j - 1], steps[j - 1]);
    }
  }

  lemma {:induction false} AfterStop(states: seq<State>, steps: seq<Step>, i: nat, j: nat)
    requires IsRun(states, steps) && i <= j <= |steps| && states[i].stopping
    ensures states[j].stopping && states[j].log == states[i].log
    decreases j - i
  {
    hide Next, Init, Enabled;
    if i < j {
      AfterStop(states, steps, i, j - 1);
      FlagsInRun(states, steps, j - 1);
      FailureAndStopAreFinal(states[j - 1], steps[j - 1]);
    }
  }
}
