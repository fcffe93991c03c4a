/** The verification queue of src/checkqueue.h as a step relation over one master and any number of
    workers. Thread 0 is the master. Each section under the mutex is one step: it ends when the
    thread takes a batch, waits on its condition variable, or returns. */
module CheckQueue {

  /** A check and what it would return. */
  datatype Check = Check(id: nat, result: bool)

  datatype Pc =
    | Outside                               // the master between calls of Wait
    | Ready(nNow: nat, fOk: bool)           // about to lock, with nNow checks to report
    | Inside                                // holding the mutex; only between the halves of one step
    | Waiting(notified: bool)
    | Running(batch: seq<Check>, fOk: bool)

  /** The shared fields, the threads, and two histories: the checks added since Wait last returned,
      and for every return the checks it was for together with its verdict. */
  datatype State = State(
    queue: seq<Check>,
    nIdle: int,
    nTotal: int,
    fAllOk: bool,
    nTodo: int,
    nBatchSize: nat,
    threads: seq<Pc>,
    session: seq<Check>,
    verdicts: seq<(seq<Check>, bool)>)

  predicate AllTrue(checks: seq<Check>) { forall i :: 0 <= i < |checks| ==> checks[i].result }

  predicate Init(s: State) {
    && s.queue == [] && s.nIdle == s.nTotal == s.nTodo == 0 && s.fAllOk
    && |s.threads| >= 1 && s.threads[0] == Outside
    && (forall i :: 1 <= i < |s.threads| ==> s.threads[i] == Ready(0, true))
    && s.session == [] && s.verdicts == []
  }

  /** How many checks a thread takes from a non-empty queue. */
  function BatchSize(queued: nat, nBatchSize: nat, nTotal: int, nIdle: int): int
    requires nTotal + nIdle + 1 > 0
  {
    var share := queued / (nTotal + nIdle + 1);
    var capped := if nBatchSize < share then nBatchSize else share;
    if capped < 1 then 1 else capped
  }

  /** The last n checks, in the order they are popped. */
  function Popped(queue: seq<Check>, n: nat): seq<Check>
    requires n <= |queue|
  {
    seq(n, i requires 0 <= i < n => queue[|queue| - 1 - i])
  }

  /** From the test of the inner loop to the end of the section. */
  function Continue(s: State, i: nat): State
    requires i < |s.threads| && Proper(s)
  {
    if s.queue == [] then
      if i == 0 && s.nTodo == 0 then
        s.(nTotal := s.nTotal - 1, fAllOk := true, threads := s.threads[0 := Outside],
           session := [], verdicts := s.verdicts + [(s.session, s.fAllOk)])
      else s.(nIdle := s.nIdle + 1, threads := s.threads[i := Waiting(false)])
    else
      var n := BatchSize(|s.queue|, s.nBatchSize, s.nTotal, s.nIdle);
      s.(queue := s.queue[..|s.queue| - n], threads := s.threads[i := Running(Popped(s.queue, n), s.fAllOk)])
  }

  /** The clean-up of the previous round, or the registration of a thread's first one. */
  function Report(s: State, i: nat): State
    requires i < |s.threads| && s.threads[i].Ready?
  {
    var nNow, fOk := s.threads[i].nNow, s.threads[i].fOk;
    var entered := s.threads[i := Inside];
    if nNow == 0 then s.(nTotal := s.nTotal + 1, threads := entered)
    else
      var reported := s.(fAllOk := s.fAllOk && fOk, nTodo := s.nTodo - nNow, threads := entered);
      if reported.nTodo == 0 && i != 0 then NotifyMaster(reported) else reported
  }

  function NotifyMaster(s: State): State {
    if |s.threads| > 0 && s.threads[0].Waiting? then s.(threads := s.threads[0 := Waiting(true)]) else s
  }

  /** A woken thread has the mutex again and is no longer idle. */
  function Awake(s: State, i: nat): State
    requires i < |s.threads|
  {
    s.(nIdle := s.nIdle - 1, threads := s.threads[i := Inside])
  }

  function Executed(batch: seq<Check>, fOk: bool): Pc { Ready(|batch|, fOk && AllTrue(batch)) }

  /** Which waiting workers an Add wakes: one of them for one check, all for more. */
  ghost predicate Woken(before: seq<Pc>, after: seq<Pc>, added: nat) {
    && |after| == |before| >= 1 && after[0] == before[0]
    && (forall i :: 1 <= i < |before| ==>
          after[i] == before[i] || (before[i] == Waiting(false) && after[i] == Waiting(true)))
    && (added == 0 ==> after == before)
    && (added == 1 ==>
          && (forall i, j ::
                1 <= i < |before| && 1 <= j < |before| && after[i] != before[i] && after[j] != before[j] ==> i == j)
          && ((exists i :: 1 <= i < |before| && before[i] == Waiting(false)) ==>
              exists i :: 1 <= i < |before| && after[i] != before[i]))
    && (added > 1 ==> forall i :: 1 <= i < |before| ==> after[i] != Waiting(false))
  }

  datatype Step =
    | Section(i: nat)                                // lock, report, then take work, wait or return
    | Wakeup(i: nat)                                 // notified or spurious
    | Execute(i: nat)                                // run the batch outside the mutex
    | Add(checks: seq<Check>, woken: seq<Pc>)        // master only, between calls of Wait
    | Wait                                           // master only

  ghost predicate Enabled(s: State, step: Step) {
    match step
    case Section(i) => i < |s.threads| && s.threads[i].Ready? && Proper(Report(s, i))
    case Wakeup(i) => i < |s.threads| && s.threads[i].Waiting? && Proper(Awake(s, i))
    case Execute(i) => i < |s.threads| && s.threads[i].Running?
    case Add(checks, woken) => |s.threads| >= 1 && s.threads[0] == Outside && Woken(s.threads, woken, |checks|)
    case Wait => |s.threads| >= 1 && s.threads[0] == Outside
  }

  /** The section's arithmetic is meaningful: no division by zero and no pop from an empty queue.
      `SectionIsProper` shows that every reachable section is. */
  predicate Proper(s: State) {
    && s.nTotal + s.nIdle + 1 > 0
    && 0 <= BatchSize(|s.queue|, s.nBatchSize, s.nTotal, s.nIdle)
    && (s.queue != [] ==> BatchSize(|s.queue|, s.nBatchSize, s.nTotal, s.nIdle) <= |s.queue|)
  }

  ghost function Next(s: State, step: Step): State
    requires Enabled(s, step)
  {
    match step
    case Section(i) => Continue(Report(s, i), i)
    case Wakeup(i) => Continue(Awake(s, i), i)
    case Execute(i) => s.(threads := s.threads[i := Executed(s.threads[i].batch, s.threads[i].fOk)])
    case Add(checks, woken) =>
      s.(queue := s.queue + checks, nTodo := s.nTodo + |checks|, threads := woken, session := s.session + checks)
    case Wait => s.(threads := s.threads[0 := Ready(0, true)])
  }

  ghost predicate IsRun(states: seq<State>, steps: seq<Step>) {
    && |states| == |steps| + 1
    && Init(states[0])
    && forall i :: 0 <= i < |steps| ==> Enabled(states[i], steps[i]) && states[i + 1] == Next(states[i], steps[i])
  }
}
