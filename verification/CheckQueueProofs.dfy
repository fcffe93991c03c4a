/** What every interleaving of the verification queue keeps, and what Wait's verdict means. */
module CheckQueueProofs {
  import opened CheckQueue
  import opened Powers

  // ---------------------------------------------------------------- counting threads

  function Sum(f: Pc -> nat, threads: seq<Pc>): nat {
    if threads == [] then 0 else f(threads[0]) + Sum(f, threads[1..])
  }

  lemma {:induction false} SumUpdate(f: Pc -> nat, threads: seq<Pc>, i: nat, pc: Pc)
    requires i < |threads|
    ensures Sum(f, threads[i := pc]) == Sum(f, threads) - f(threads[i]) + f(pc)
    decreases |threads|
  {
    if i == 0 {
      assert threads[i := pc][1..] == threads[1..];
    } else {
      SumUpdate(f, threads[1..], i - 1, pc);
      assert threads[i := pc][1..] == threads[1..][i - 1 := pc];
    }
  }

  lemma {:induction false} SumSame(f: Pc -> nat, a: seq<Pc>, b: seq<Pc>)
    requires |a| == |b| && forall i :: 0 <= i < |a| ==> f(a[i]) == f(b[i])
    ensures Sum(f, a) == Sum(f, b)
  {
    if a != [] {
      assert a[0] == a[0] && f(a[0]) == f(b[0]);
      forall i | 0 <= i < |a[1..]| ensures f(a[1..][i]) == f(b[1..][i]) { assert f(a[i + 1]) == f(b[i + 1]); }
      SumSame(f, a[1..], b[1..]);
    }
  }

  lemma {:induction false} SumZero(f: Pc -> nat, threads: seq<Pc>)
    ensures Sum(f, threads) == 0 <==> forall i :: 0 <= i < |threads| ==> f(threads[i]) == 0
  {
    if threads != [] {
      SumZero(f, threads[1..]);
      assert forall i :: 1 <= i < |threads| ==> threads[i] == threads[1..][i - 1];
      assert forall i :: 0 <= i < |threads[1..]| ==> threads[1..][i] == threads[i + 1];
    }
  }

  /** Checks a thread has taken and not yet reported. */
  const Held: Pc -> nat := (pc: Pc) => match pc case Ready(n, _) => n case Running(b, _) => |b| case _ => 0
  const Asleep: Pc -> nat := (pc: Pc) => if pc.Waiting? then 1 else 0
  const Entered: Pc -> nat := (pc: Pc) => if pc.Outside? || (pc.Ready? && pc.nNow == 0) then 0 else 1

  // ---------------------------------------------------------------- the invariant

  /** The counters are exact. */
  ghost predicate Counted(queued: nat, nTodo: int, nIdle: int, nTotal: int, threads: seq<Pc>) {
    && nTodo == queued + Sum(Held, threads)
    && nIdle == Sum(Asleep, threads)
    && nTotal == Sum(Entered, threads)
  }

  /** What a thread will report, if it does report. */
  predicate Promising(pc: Pc) {
    match pc
    case Ready(_, fOk) => fOk
    case Running(batch, _) => AllTrue(batch)
    case _ => true
  }

  predicate Sensible(pc: Pc, fAllOk: bool) {
    match pc
    case Ready(n, fOk) => n == 0 ==> fOk
    case Running(batch, fOk) => batch != [] && (!fOk ==> !fAllOk)
    case _ => true
  }

  /** The verdict so far and all work still out add up to the session's checks. */
  ghost predicate Verdict(session: seq<Check>, queue: seq<Check>, fAllOk: bool, threads: seq<Pc>) {
    && (forall i :: 0 <= i < |threads| ==> Sensible(threads[i], fAllOk))
    && (AllTrue(session) <==> fAllOk && AllTrue(queue) && forall i :: 0 <= i < |threads| ==> Promising(threads[i]))
  }

  /** A master asleep without a notify has left nothing in the queue, and something is still out. */
  predicate MasterOk(queue: seq<Check>, nTodo: int, threads: seq<Pc>) {
    && |threads| >= 1
    && (threads[0].Waiting? ==> queue == [])
    && (threads[0] == Waiting(false) ==> nTodo > 0)
  }

  /** Work is never left lying while all workers sleep without a notify. */
  ghost predicate NoStall(queue: seq<Check>, threads: seq<Pc>) {
    queue != [] && |threads| > 1 ==> exists i :: 1 <= i < |threads| && threads[i] != Waiting(false)
  }

  ghost predicate PastVerdictsRight(verdicts: seq<(seq<Check>, bool)>) {
    forall k :: 0 <= k < |verdicts| ==> verdicts[k].1 == AllTrue(verdicts[k].0)
  }

  ghost predicate Inv(s: State) {
    && Counted(|s.queue|, s.nTodo, s.nIdle, s.nTotal, s.threads)
    && Verdict(s.session, s.queue, s.fAllOk, s.threads)
    && MasterOk(s.queue, s.nTodo, s.threads)
    && NoStall(s.queue, s.threads)
    && PastVerdictsRight(s.verdicts)
  }

  // ---------------------------------------------------------------- moving one thread

  lemma CountedMove(queued: nat, nTodo: int, nIdle: int, nTotal: int, threads: seq<Pc>, i: nat, pc: Pc,
                    queued': nat, nTodo': int, nIdle': int, nTotal': int)
    requires i < |threads| && Counted(queued, nTodo, nIdle, nTotal, threads)
    requires nTodo' - queued' == nTodo - queued - Held(threads[i]) + Held(pc)
    requires nIdle' == nIdle - Asleep(threads[i]) + Asleep(pc)
    requires nTotal' == nTotal - Entered(threads[i]) + Entered(pc)
    ensures Counted(queued', nTodo', nIdle', nTotal', threads[i := pc])
  {
    SumUpdate(Held, threads, i, pc);
    SumUpdate(Asleep, threads, i, pc);
    SumUpdate(Entered, threads, i, pc);
  }

  lemma VerdictMove(session: seq<Check>, queue: seq<Check>, fAllOk: bool, threads: seq<Pc>, i: nat, pc: Pc,
                    queue': seq<Check>, fAllOk': bool)
    requires i < |threads| && Verdict(session, queue, fAllOk, threads)
    requires Sensible(pc, fAllOk') && (fAllOk' ==> fAllOk)
    requires fAllOk && AllTrue(queue) && Promising(threads[i]) <==> fAllOk' && AllTrue(queue') && Promising(pc)
    ensures Verdict(session, queue', fAllOk', threads[i := pc])
  {
    hide AllTrue, Promising;
    var threads' := threads[i := pc];
    forall j | 0 <= j < |threads| ensures Sensible(threads'[j], fAllOk') {
      assert Sensible(threads[j], fAllOk);
    }
    if forall j :: 0 <= j < |threads| ==> Promising(threads[j]) {
      assert Promising(threads[i]);
      assert Promising(pc) ==> forall j :: 0 <= j < |threads'| ==> Promising(threads'[j]);
    }
    if forall j :: 0 <= j < |threads'| ==> Promising(threads'[j]) {
      assert Promising(threads'[i]);
      forall j | 0 <= j < |threads| && j != i ensures Promising(threads[j]) { assert Promising(threads'[j]); }
    }
  }

  lemma NoStallMove(queue: seq<Check>, threads: seq<Pc>, i: nat, pc: Pc, queue': seq<Check>)
    requires i < |threads| && NoStall(queue, threads)
    requires queue' == [] || (i >= 1 && pc != Waiting(false)) || (i == 0 && queue != [])
    ensures NoStall(queue', threads[i := pc])
  {
    var threads' := threads[i := pc];
    if queue' != [] && |threads| > 1 {
      if i >= 1 {
        assert threads'[i] != Waiting(false);
      } else {
        var j :| 1 <= j < |threads| && threads[j] != Waiting(false);
        assert threads'[j] != Waiting(false);
      }
    }
  }

  lemma PoppedSplit(queue: seq<Check>, n: nat)
    requires n <= |queue|
    ensures AllTrue(queue) <==> AllTrue(queue[..|queue| - n]) && AllTrue(Popped(queue, n))
  {
    var rest, popped := queue[..|queue| - n], Popped(queue, n);
    if AllTrue(rest) && AllTrue(popped) {
      forall i | 0 <= i < |queue| ensures queue[i].result {
        if i < |queue| - n { assert rest[i].result; } else { assert popped[|queue| - 1 - i].result; }
      }
    }
  }

  /** A batch is never empty and never larger than the queue. */
  lemma BatchFits(queued: nat, nBatchSize: nat, nTotal: nat, nIdle: nat)
    ensures 1 <= BatchSize(queued, nBatchSize, nTotal, nIdle)
    ensures queued > 0 ==> BatchSize(queued, nBatchSize, nTotal, nIdle) <= queued
  {
    var d := nTotal + nIdle + 1;
    var q, r := queued / d, queued % d;
    assert queued == q * d + r;
    if q > queued {
      MulLe(queued + 1, q, d);
      MulLe(1, d, queued + 1);
    }
  }

  /** And beyond one it is the largest that leaves every thread, idle ones counted twice and one more, an equal
      share, within the batch limit. */
  lemma BatchIsShare(queued: nat, nBatchSize: nat, nTotal: nat, nIdle: nat)
    ensures var n, d := BatchSize(queued, nBatchSize, nTotal, nIdle), nTotal + nIdle + 1;
            && (n > 1 ==> n <= nBatchSize && n * d <= queued)
            && (n < nBatchSize ==> (n + 1) * d > queued)
  {
    var d := nTotal + nIdle + 1;
    var q, r := queued / d, queued % d;
    assert queued == q * d + r;
    var n := BatchSize(queued, nBatchSize, nTotal, nIdle);
    MulAdd(q, 1, d);
    if n > 1 { MulLe(n, q, d); }
    if n < nBatchSize { MulLe(q + 1, n + 1, d); }
  }

  // ---------------------------------------------------------------- the steps

  /** Every section a reachable thread can enter is well defined. */
  lemma SectionIsProper(s: State)
    requires Inv(s)
    ensures Proper(s)
  {
    BatchFits(|s.queue|, s.nBatchSize, s.nTotal, s.nIdle);
    hide BatchSize;
  }

  lemma ReportInv(s: State, i: nat)
    requires Inv(s) && i < |s.threads| && s.threads[i].Ready?
    ensures Inv(Report(s, i)) && Report(s, i).threads[i] == Inside && |Report(s, i).threads| == |s.threads|
  {
    var pc := s.threads[i];
    assert Sensible(pc, s.fAllOk);
    var fAllOk := if pc.nNow == 0 then s.fAllOk else s.fAllOk && pc.fOk;
    var entered := if pc.nNow == 0 then 1 else 0;
    VerdictMove(s.session, s.queue, s.fAllOk, s.threads, i, Inside, s.queue, fAllOk);
    CountedMove(|s.queue|, s.nTodo, s.nIdle, s.nTotal, s.threads, i, Inside, |s.queue|, s.nTodo - pc.nNow, s.nIdle,
                s.nTotal + entered);
    if s.queue != [] || i >= 1 { NoStallMove(s.queue, s.threads, i, Inside, s.queue); }
    var mid := s.(fAllOk := fAllOk, nTodo := s.nTodo - pc.nNow, nTotal := s.nTotal + entered,
                  threads := s.threads[i := Inside]);
    hide Verdict, Counted, NoStall, PastVerdictsRight;
    if i != 0 && mid.threads[0].Waiting? && mid.nTodo == 0 {
      NotifyInv(mid, i);
    }
  }

  /** Waking the master keeps everything but the claim that something is still out. */
  lemma NotifyInv(s: State, i: nat)
    requires 0 < i < |s.threads| && s.threads[0].Waiting? && s.queue == []
    requires Counted(|s.queue|, s.nTodo, s.nIdle, s.nTotal, s.threads)
    requires Verdict(s.session, s.queue, s.fAllOk, s.threads)
    requires PastVerdictsRight(s.verdicts)
    ensures Inv(NotifyMaster(s))
  {
    VerdictMove(s.session, s.queue, s.fAllOk, s.threads, 0, Waiting(true), s.queue, s.fAllOk);
    CountedMove(|s.queue|, s.nTodo, s.nIdle, s.nTotal, s.threads, 0, Waiting(true), |s.queue|, s.nTodo, s.nIdle,
                s.nTotal);
  }

  lemma AwakeInv(s: State, i: nat)
    requires Inv(s) && i < |s.threads| && s.threads[i].Waiting?
    ensures Inv(Awake(s, i))
  {
    VerdictMove(s.session, s.queue, s.fAllOk, s.threads, i, Inside, s.queue, s.fAllOk);
    CountedMove(|s.queue|, s.nTodo, s.nIdle, s.nTotal, s.threads, i, Inside, |s.queue|, s.nTodo, s.nIdle - 1, s.nTotal);
    if s.queue != [] || i >= 1 { NoStallMove(s.queue, s.threads, i, Inside, s.queue); }
  }

  lemma TakeInv(s: State, i: nat)
    requires Inv(s) && i < |s.threads| && s.threads[i] == Inside && Proper(s) && s.queue != []
    ensures Inv(Continue(s, i))
  {
    BatchFits(|s.queue|, s.nBatchSize, s.nTotal, s.nIdle);
    hide BatchSize;
    var n := BatchSize(|s.queue|, s.nBatchSize, s.nTotal, s.nIdle);
    var rest, pc := s.queue[..|s.queue| - n], Running(Popped(s.queue, n), s.fAllOk);
    PoppedSplit(s.queue, n);
    VerdictMove(s.session, s.queue, s.fAllOk, s.threads, i, pc, rest, s.fAllOk);
    CountedMove(|s.queue|, s.nTodo, s.nIdle, s.nTotal, s.threads, i, pc, |rest|, s.nTodo, s.nIdle, s.nTotal);
    NoStallMove(s.queue, s.threads, i, pc, rest);
  }

  lemma SleepInv(s: State, i: nat)
    requires Inv(s) && i < |s.threads| && s.threads[i] == Inside && s.queue == [] && (i == 0 ==> s.nTodo != 0)
    ensures Inv(s.(nIdle := s.nIdle + 1, threads := s.threads[i := Waiting(false)]))
  {
    VerdictMove(s.session, s.queue, s.fAllOk, s.threads, i, Waiting(false), s.queue, s.fAllOk);
    CountedMove(|s.queue|, s.nTodo, s.nIdle, s.nTotal, s.threads, i, Waiting(false), |s.queue|, s.nTodo, s.nIdle + 1,
                s.nTotal);
  }

  /** With nothing queued and nothing to do, no thread holds a check: the verdict is complete, and
      no thread carries anything over into the next session. */
  lemma ReturnInv(s: State)
    requires Inv(s) && s.threads[0] == Inside && s.queue == [] && s.nTodo == 0 && Proper(s)
    ensures Inv(Continue(s, 0)) && s.fAllOk == AllTrue(s.session)
  {
    SumZero(Held, s.threads);
    forall j | 0 <= j < |s.threads| ensures Promising(s.threads[j]) && !s.threads[j].Running? {
      assert Sensible(s.threads[j], s.fAllOk) && Held(s.threads[j]) == 0;
    }
    CountedMove(|s.queue|, s.nTodo, s.nIdle, s.nTotal, s.threads, 0, Outside, |s.queue|, s.nTodo, s.nIdle,
                s.nTotal - 1);
    var threads := s.threads[0 := Outside];
    forall j | 0 <= j < |threads| ensures Sensible(threads[j], true) && Promising(threads[j]) {
      assert Promising(s.threads[j]) && Sensible(s.threads[j], s.fAllOk);
    }
  }

  lemma ContinueInv(s: State, i: nat)
    requires Inv(s) && i < |s.threads| && s.threads[i] == Inside && Proper(s)
    ensures Inv(Continue(s, i))
  {
    hide Inv, BatchSize;
    if s.queue != [] { TakeInv(s, i); }
    else if i == 0 && s.nTodo == 0 { ReturnInv(s); }
    else { SleepInv(s, i); }
  }

  lemma ExecuteInv(s: State, i: nat)
    requires Inv(s) && i < |s.threads| && s.threads[i].Running?
    ensures Inv(s.(threads := s.threads[i := Executed(s.threads[i].batch, s.threads[i].fOk)]))
  {
    var pc := Executed(s.threads[i].batch, s.threads[i].fOk);
    assert Sensible(s.threads[i], s.fAllOk);
    VerdictMove(s.session, s.queue, s.fAllOk, s.threads, i, pc, s.queue, s.fAllOk);
    CountedMove(|s.queue|, s.nTodo, s.nIdle, s.nTotal, s.threads, i, pc, |s.queue|, s.nTodo, s.nIdle, s.nTotal);
    if s.queue != [] || i >= 1 { NoStallMove(s.queue, s.threads, i, pc, s.queue); }
  }

  lemma AllTrueConcat(a: seq<Check>, b: seq<Check>)
    ensures AllTrue(a + b) <==> AllTrue(a) && AllTrue(b)
  {
    if AllTrue(a + b) {
      forall i | 0 <= i < |a| ensures a[i].result { assert (a + b)[i].result; }
      forall i | 0 <= i < |b| ensures b[i].result { assert (a + b)[|a| + i].result; }
    }
  }

  lemma AddInv(s: State, checks: seq<Check>, woken: seq<Pc>)
    requires Inv(s) && s.threads[0] == Outside && Woken(s.threads, woken, |checks|)
    ensures Inv(s.(queue := s.queue + checks, nTodo := s.nTodo + |checks|, threads := woken,
                   session := s.session + checks))
  {
    AllTrueConcat(s.queue, checks);
    AllTrueConcat(s.session, checks);
    SumSame(Held, s.threads, woken);
    SumSame(Asleep, s.threads, woken);
    SumSame(Entered, s.threads, woken);
    assert Verdict(s.session + checks, s.queue + checks, s.fAllOk, woken) by {
      forall j | 0 <= j < |woken|
        ensures Sensible(woken[j], s.fAllOk) && Promising(woken[j]) == Promising(s.threads[j])
      {
        assert Sensible(s.threads[j], s.fAllOk);
      }
    }
    AddNoStall(s, checks, woken);
  }

  lemma AddNoStall(s: State, checks: seq<Check>, woken: seq<Pc>)
    requires NoStall(s.queue, s.threads) && Woken(s.threads, woken, |checks|)
    ensures NoStall(s.queue + checks, woken)
  {
    if s.queue + checks != [] && |woken| > 1 {
      if j :| 1 <= j < |woken| && s.threads[j] != Waiting(false) {
        assert woken[j] != Waiting(false);
      } else {
        assert s.threads[1] == Waiting(false) && s.queue == [] && |checks| >= 1;
        if |checks| == 1 {
          var j :| 1 <= j < |woken| && woken[j] != s.threads[j];
          assert woken[j] != Waiting(false);
        } else {
          assert woken[1] != Waiting(false);
        }
      }
    }
  }

  lemma WaitInv(s: State)
    requires Inv(s) && s.threads[0] == Outside
    ensures Inv(s.(threads := s.threads[0 := Ready(0, true)]))
  {
    VerdictMove(s.session, s.queue, s.fAllOk, s.threads, 0, Ready(0, true), s.queue, s.fAllOk);
    CountedMove(|s.queue|, s.nTodo, s.nIdle, s.nTotal, s.threads, 0, Ready(0, true), |s.queue|, s.nTodo, s.nIdle,
                s.nTotal);
    if s.queue != [] { NoStallMove(s.queue, s.threads, 0, Ready(0, true), s.queue); }
  }

  lemma StepInv(s: State, step: Step)
    requires Inv(s) && Enabled(s, step)
    ensures Inv(Next(s, step))
  {
    hide Inv, Continue, Report, Awake, Proper, Woken, Executed;
    match step
    case Section(i) => ReportInv(s, i); ContinueInv(Report(s, i), i);
    case Wakeup(i) => AwakeInv(s, i); AwakeIsInside(s, i); ContinueInv(Awake(s, i), i);
    case Execute(i) => ExecuteInv(s, i);
    case Add(checks, woken) => AddInv(s, checks, woken);
    case Wait => WaitInv(s);
  }

  lemma AwakeIsInside(s: State, i: nat)
    requires i < |s.threads|
    ensures |Awake(s, i).threads| == |s.threads| && Awake(s, i).threads[i] == Inside
  {
  }

  lemma InitInv(s: State)
    requires Init(s)
    ensures Inv(s)
  {
    SumZero(Held, s.threads);
    SumZero(Asleep, s.threads);
    SumZero(Entered, s.threads);
    assert |s.threads| > 1 ==> s.threads[1] != Waiting(false);
  }

  lemma {:induction false} RunInv(states: seq<State>, steps: seq<Step>, k: nat)
    requires IsRun(states, steps) && k <= |steps|
    ensures Inv(states[k])
  {
    hide Inv, Next, Init, Enabled;
    if k == 0 {
      InitInv(states[0]);
    } else {
      RunInv(states, steps, k - 1);
      StepInv(states[k - 1], steps[k - 1]);
    }
  }

  // ---------------------------------------------------------------- what runs promise

  /** In every state of every run, for any number of workers: nTodo counts the queued and the taken
      checks; every verdict Wait has returned is true exactly when all checks added since the return
      before it would return true. */
  lemma WaitTellsTheTruth(states: seq<State>, steps: seq<Step>, k: nat)
    requires IsRun(states, steps) && k <= |steps|
    ensures var s := states[k];
            && s.nTodo == |s.queue| + Sum(Held, s.threads)
            && forall v :: 0 <= v < |s.verdicts| ==> s.verdicts[v].1 == AllTrue(s.verdicts[v].0)
  {
    RunInv(states, steps, k);
  }

  /** While the master sleeps without a notify, some worker holds a batch it has still to report;
      and queued work never waits for workers that all sleep without a notify. */
  lemma NobodyIsForgotten(states: seq<State>, steps: seq<Step>, k: nat)
    requires IsRun(states, steps) && k <= |steps|
    ensures var s := states[k];
            && |s.threads| >= 1
            && (s.threads[0] == Waiting(false) ==> exists i :: 1 <= i < |s.threads| && Held(s.threads[i]) > 0)
            && (s.queue != [] && |s.threads| > 1 ==> exists i :: 1 <= i < |s.threads| && s.threads[i] != Waiting(false))
  {
    RunInv(states, steps, k);
    var s := states[k];
    if s.threads[0] == Waiting(false) {
      SumZero(Held, s.threads);
    }
  }

  /** Every section is well defined when a thread comes to it: the batch size never divides by zero
      and never exceeds the queue. */
  lemma SectionsAreProper(states: seq<State>, steps: seq<Step>, k: nat, i: nat)
    requires IsRun(states, steps) && k <= |steps| && i < |states[k].threads|
    ensures states[k].threads[i].Ready? ==> Proper(Report(states[k], i))
    ensures states[k].threads[i].Waiting? ==> Proper(Awake(states[k], i))
  {
    RunInv(states, steps, k);
    hide Inv, Proper;
    if states[k].threads[i].Ready? { ReportInv(states[k], i); SectionIsProper(Report(states[k], i)); }
    if states[k].threads[i].Waiting? { AwakeInv(states[k], i); SectionIsProper(Awake(states[k], i)); }
  }
}
