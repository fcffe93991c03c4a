/** The query gate of chronik/query-admission.h and the runtime handle of chronik/node-observer.cpp:
    queries, index mutations, closing and destruction in any interleaving. */
module QueryGate {
  import opened Common

  datatype Kind = Transaction | Token

  /** What is asked for: a transaction or a token, by its id. */
  datatype Query = Query(kind: Kind, id: nat)

  datatype Pc =
    // Query and QueryToken
    | TryLock(q: Query)                              // about to try the mutex
    | Admitted(q: Query)                             // has the mutex, about to test whether the gate is open
    | Checking(q: Query)                             // about to test the handle and the gate again
    | ReadTip(q: Query)                              // about to ask the runtime for its tip
    | First(q: Query, tip: Option<nat>)              // about to compare it with the active tip
    | Work(q: Query, stage: nat, tip: Option<nat>)   // reading what was asked for
    | Last(q: Query, code: nat, tip: Option<nat>)    // about to compare the tips once more
    | Leave(code: nat)                               // answer decided, mutex still held
    | Answered(code: nat)
    // Mutate
    | MutateLock | MutateCheck | Mutating | MutateLeave | Mutated
    // Destroy
    | Closing | Stopping | DestroyLock | Taking | Unlocking(runtime: bool) | Destroying(runtime: bool) | Destroyed
    // CloseQueries
    | CloseGate | GateClosed

  /** What all threads see. */
  datatype Shared = Shared(
    owner: Option<nat>,
    closed: bool,
    closing: bool,
    handle: bool,              // m_runtime is not null
    destroyed: nat,            // calls of chronik_runtime_destroy
    misused: bool,             // the runtime was used without a live handle
    index: Option<nat>,        // the indexed tip
    version: nat,              // how often the index was mutated
    active: Option<nat>,       // the active tip
    holds: (Query, nat) -> bool)  // what the index holds after that many mutations

  datatype State = State(g: Shared, threads: seq<Pc>)

  predicate Init(s: State) {
    && s.g.owner == None && !s.g.closed && !s.g.closing && s.g.destroyed == 0 && !s.g.misused
    && forall t :: 0 <= t < |s.threads| ==>
         s.threads[t].TryLock? || s.threads[t] == MutateLock || s.threads[t] == Closing || s.threads[t] == CloseGate
  }

  /** Open gate, readable tip, and the active tip is that tip; evaluated while the active tip cannot move. */
  predicate TipIsCurrent(g: Shared, tip: Option<nat>) { !g.closed && tip.Some? && g.active == tip }

  /** Any call into the runtime. */
  function Use(g: Shared): Shared { g.(misused := g.misused || !g.handle || g.destroyed > 0) }

  /** Whether a stage of reading calls the runtime; the second stage of a transaction query reads block files. */
  predicate StageUses(kind: Kind, stage: nat) { kind == Token || stage != 1 }

  /** The last stage before the payload is complete. */
  function Stages(kind: Kind): nat { if kind == Transaction then 2 else 1 }

  datatype Step = Move(t: nat, choice: nat) | Reorg(tip: Option<nat>)

  predicate Final(pc: Pc) { pc.Answered? || pc == Mutated || pc == Destroyed || pc == GateClosed }

  /** Only the two blocking locks can make a thread wait. */
  predicate Blocked(owner: Option<nat>, pc: Pc) { (pc == MutateLock || pc == DestroyLock) && owner != None }

  predicate Enabled(s: State, step: Step) {
    match step
    case Reorg(_) => true
    case Move(t, _) => t < |s.threads| && !Final(s.threads[t]) && !Blocked(s.g.owner, s.threads[t])
  }

  /** One reading stage: it can fail, find that the index holds nothing at the first stage, or go on. */
  function WorkTo(g: Shared, q: Query, stage: nat, tip: Option<nat>, choice: nat): Pc {
    if choice == 0 then Leave(503)
    else if stage == 0 && !g.holds(q, g.version) then Last(q, 404, tip)
    else if stage >= Stages(q.kind) then Last(q, 200, tip)
    else Work(q, stage + 1, tip)
  }

  /** One step of thread t: the shared fields after it. */
  function Effect(g: Shared, t: nat, pc: Pc, choice: nat): Shared {
    match pc
    case TryLock(_) => if g.owner == None && choice != 0 then g.(owner := Some(t)) else g
    case ReadTip(_) => Use(g)
    case Work(q, stage, _) => if StageUses(q.kind, stage) then Use(g) else g
    case Leave(_) => g.(owner := None)
    case MutateLock => g.(owner := Some(t))
    case Mutating => Use(g).(index := Some(choice), version := g.version + 1)
    case MutateLeave => g.(owner := None)
    case Closing => g.(closed := true)
    case Stopping => g.(closing := true)
    case DestroyLock => g.(owner := Some(t))
    case Taking => g.(handle := false)
    case Unlocking(_) => g.(owner := None)
    case Destroying(runtime) => if runtime then g.(destroyed := g.destroyed + 1) else g
    case CloseGate => g.(closed := true)
    case _ => g
  }

  /** And where the thread is then. */
  function Goes(g: Shared, pc: Pc, choice: nat): Pc {
    match pc
    case TryLock(q) => if g.owner == None && choice != 0 then Admitted(q) else Answered(503)
    case Admitted(q) => if g.closed then Leave(503) else Checking(q)
    case Checking(q) => if !g.handle || g.closed then Leave(503) else ReadTip(q)
    case ReadTip(q) => First(q, if choice == 0 then None else g.index)
    case First(q, tip) => if TipIsCurrent(g, tip) then Work(q, 0, tip) else Leave(503)
    case Work(q, stage, tip) => WorkTo(g, q, stage, tip, choice)
    case Last(_, code, tip) => if TipIsCurrent(g, tip) then Leave(code) else Leave(503)
    case Leave(code) => Answered(code)
    case MutateLock => MutateCheck
    case MutateCheck => if g.closing || !g.handle then MutateLeave else Mutating
    case Mutating => MutateLeave
    case MutateLeave => Mutated
    case Closing => Stopping
    case Stopping => DestroyLock
    case DestroyLock => Taking
    case Taking => Unlocking(g.handle)
    case Unlocking(runtime) => Destroying(runtime)
    case Destroying(_) => Destroyed
    case CloseGate => GateClosed
    case _ => pc
  }

  function Next(s: State, step: Step): State
    requires Enabled(s, step)
  {
    match step
    case Reorg(tip) => s.(g := s.g.(active := tip))
    case Move(t, choice) =>
      State(Effect(s.g, t, s.threads[t], choice), s.threads[t := Goes(s.g, s.threads[t], choice)])
  }

  ghost predicate IsRun(states: seq<State>, steps: seq<Step>) {
    && |states| == |steps| + 1
    && Init(states[0])
    && forall i :: 0 <= i < |steps| ==> Enabled(states[i], steps[i]) && states[i + 1] == Next(states[i], steps[i])
  }

  // ---------------------------------------------------------------- the invariant

  predicate Holding(pc: Pc) {
    pc.Admitted? || pc.Checking? || pc.ReadTip? || pc.First? || pc.Work? || pc.Last? || pc.Leave?
    || pc == MutateCheck || pc == Mutating || pc == MutateLeave || pc == Taking || pc.Unlocking?
  }

  /** Between finding the handle set and the end of the call. */
  predicate NeedsHandle(pc: Pc) { pc.ReadTip? || pc.First? || pc.Work? || pc.Last? || pc == Mutating }

  predicate HasRuntime(pc: Pc) { (pc.Unlocking? || pc.Destroying?) && pc.runtime }

  predicate HasTip(pc: Pc) { pc.First? || pc.Work? || pc.Last? }

  ghost predicate MutexOk(owner: Option<nat>, threads: seq<Pc>) {
    forall t :: 0 <= t < |threads| ==> (Holding(threads[t]) <==> owner == Some(t))
  }

  /** The handle has one owner: the field, a destroying thread, or nobody after destruction. */
  ghost predicate HandleOk(handle: bool, destroyed: nat, threads: seq<Pc>) {
    && destroyed <= 1
    && (handle ==> destroyed == 0)
    && (forall t :: 0 <= t < |threads| && HasRuntime(threads[t]) ==> !handle && destroyed == 0)
    && (forall t, u :: 0 <= t < |threads| && 0 <= u < |threads| && HasRuntime(threads[t]) && HasRuntime(threads[u]) ==>
        t == u)
    && (forall t :: 0 <= t < |threads| && NeedsHandle(threads[t]) ==> handle)
  }

  /** The tip a query has read, if any, is the index's present one; past its first stage the index holds what
      is asked for; and the code it is about to answer says whether the index holds it. */
  predicate TipOk(g: Shared, pc: Pc) {
    && (HasTip(pc) && pc.tip.Some? ==> pc.tip == g.index)
    && (pc.Work? && pc.stage > 0 ==> g.holds(pc.q, g.version))
    && (pc.Last? ==> pc.code == if g.holds(pc.q, g.version) then 200 else 404)
  }

  ghost predicate TipsOk(g: Shared, threads: seq<Pc>) {
    forall t :: 0 <= t < |threads| ==> TipOk(g, threads[t])
  }

  ghost predicate Inv(s: State) {
    && MutexOk(s.g.owner, s.threads) && HandleOk(s.g.handle, s.g.destroyed, s.threads)
    && TipsOk(s.g, s.threads) && !s.g.misused
  }

  lemma InitInv(s: State)
    requires Init(s)
    ensures Inv(s)
  {
  }

  // What a step does to its thread and to the shared fields is one of a few shapes.

  predicate IsQuery(pc: Pc) {
    pc.TryLock? || pc.Admitted? || pc.Checking? || pc.ReadTip? || pc.First? || pc.Work? || pc.Last? || pc.Leave?
  }

  /** The mutex stays with its thread, is taken while free, or is given back. */
  predicate MutexShape(g: Shared, t: nat, pc: Pc, g': Shared, pc': Pc) {
    || (g'.owner == g.owner && Holding(pc') == Holding(pc))
    || (g.owner == None && g'.owner == Some(t) && Holding(pc'))
    || (g'.owner == None && Holding(pc) && !Holding(pc'))
  }

  lemma QueryMutex(g: Shared, t: nat, pc: Pc, choice: nat)
    requires IsQuery(pc) && (Holding(pc) <==> g.owner == Some(t))
    ensures MutexShape(g, t, pc, Effect(g, t, pc, choice), Goes(g, pc, choice))
  {
    hide TipIsCurrent, StageUses, Stages;
  }

  lemma MoveMutex(g: Shared, t: nat, pc: Pc, choice: nat)
    requires !Final(pc) && !Blocked(g.owner, pc) && (Holding(pc) <==> g.owner == Some(t))
    ensures MutexShape(g, t, pc, Effect(g, t, pc, choice), Goes(g, pc, choice))
  {
    if IsQuery(pc) {
      QueryMutex(g, t, pc, choice);
    }
  }

  lemma MutexKept(g: Shared, threads: seq<Pc>, t: nat, g': Shared, pc': Pc)
    requires MutexOk(g.owner, threads) && t < |threads| && MutexShape(g, t, threads[t], g', pc')
    ensures MutexOk(g'.owner, threads[t := pc'])
  {
    hide Holding;
  }

  /** The handle and the runtime stay where they are, the handle is taken, or the runtime is destroyed. */
  predicate HandleShape(g: Shared, pc: Pc, g': Shared, pc': Pc) {
    || (g'.handle == g.handle && g'.destroyed == g.destroyed && HasRuntime(pc') == HasRuntime(pc)
        && (NeedsHandle(pc') ==> g.handle))
    || (!g'.handle && g'.destroyed == g.destroyed && HasRuntime(pc') == g.handle && !NeedsHandle(pc') && Holding(pc)
        && !HasRuntime(pc))
    || (g'.handle == g.handle && g'.destroyed == g.destroyed + 1 && HasRuntime(pc) && !HasRuntime(pc')
        && !NeedsHandle(pc'))
  }

  lemma QueryHandle(g: Shared, t: nat, pc: Pc, choice: nat)
    requires IsQuery(pc) && (NeedsHandle(pc) ==> g.handle)
    ensures HandleShape(g, pc, Effect(g, t, pc, choice), Goes(g, pc, choice))
  {
    hide TipIsCurrent, StageUses, Stages;
  }

  lemma MoveHandle(g: Shared, t: nat, pc: Pc, choice: nat)
    requires !Final(pc) && (NeedsHandle(pc) ==> g.handle)
    ensures HandleShape(g, pc, Effect(g, t, pc, choice), Goes(g, pc, choice))
  {
    if IsQuery(pc) {
      QueryHandle(g, t, pc, choice);
    }
  }

  lemma NeedsMeansHolding(pc: Pc)
    ensures NeedsHandle(pc) ==> Holding(pc)
    ensures HasTip(pc) ==> Holding(pc)
  {
  }

  lemma HandleKept(g: Shared, threads: seq<Pc>, t: nat, g': Shared, pc': Pc)
    requires MutexOk(g.owner, threads) && HandleOk(g.handle, g.destroyed, threads) && t < |threads|
    requires HandleShape(g, threads[t], g', pc')
    ensures HandleOk(g'.handle, g'.destroyed, threads[t := pc'])
  {
    forall u | 0 <= u < |threads| ensures NeedsHandle(threads[u]) ==> Holding(threads[u]) {
      NeedsMeansHolding(threads[u]);
    }
    hide Holding, NeedsHandle, HasRuntime;
    assert Holding(threads[t]) ==> forall u :: 0 <= u < |threads| && Holding(threads[u]) ==> u == t;
  }

  /** What the queries rely on is the same. */
  ghost predicate SameIndex(g: Shared, g': Shared) {
    g'.index == g.index && g'.version == g.version && g'.holds == g.holds
  }

  lemma MoveTip(g: Shared, t: nat, pc: Pc, choice: nat)
    requires !Final(pc) && TipOk(g, pc)
    ensures var g' := Effect(g, t, pc, choice);
            TipOk(g', Goes(g, pc, choice)) && (SameIndex(g, g') || Holding(pc))
  {
    hide TipIsCurrent, StageUses, Stages;
  }

  lemma TipsKept(g: Shared, threads: seq<Pc>, t: nat, g': Shared, pc': Pc)
    requires MutexOk(g.owner, threads) && TipsOk(g, threads) && t < |threads|
    requires TipOk(g', pc') && (SameIndex(g, g') || Holding(threads[t]))
    ensures TipsOk(g', threads[t := pc'])
  {
    var after := threads[t := pc'];
    forall u | 0 <= u < |after| ensures TipOk(g', after[u]) {
      NeedsMeansHolding(threads[u]);
      assert TipOk(g, threads[u]);
    }
  }

  /** The runtime is only ever called through a live handle. */
  lemma MoveUse(g: Shared, t: nat, pc: Pc, choice: nat)
    requires !g.misused && (NeedsHandle(pc) ==> g.handle && g.destroyed == 0)
    ensures !Effect(g, t, pc, choice).misused
  {
  }

  lemma StepInv(s: State, step: Step)
    requires Inv(s) && Enabled(s, step)
    ensures Inv(Next(s, step))
  {
    match step
    case Reorg(_) =>
    case Move(t, choice) =>
      var pc := s.threads[t];
      MoveMutex(s.g, t, pc, choice);
      MoveHandle(s.g, t, pc, choice);
      assert TipOk(s.g, pc);
      MoveTip(s.g, t, pc, choice);
      MoveUse(s.g, t, pc, choice);
      var g', pc' := Effect(s.g, t, pc, choice), Goes(s.g, pc, choice);
      assert Next(s, step) == State(g', s.threads[t := pc']);
      hide *;
      MutexKept(s.g, s.threads, t, g', pc');
      HandleKept(s.g, s.threads, t, g', pc');
      TipsKept(s.g, s.threads, t, g', pc');
  }

  lemma {:induction false} RunInv(states: seq<State>, steps: seq<Step>, i: nat)
    requires IsRun(states, steps) && i < |states|
    ensures Inv(states[i])
  {
    hide Inv, Init, Enabled, Next;
    if i == 0 {
      InitInv(states[0]);
    } else {
      RunInv(states, steps, i - 1);
      StepInv(states[i - 1], steps[i - 1]);
    }
  }

  // ---------------------------------------------------------------- what callers can rely on

  /** The index does not change while a query is between its first tip read and its answer. */
  lemma IndexStandsStill(states: seq<State>, steps: seq<Step>, i: nat, t: nat)
    requires IsRun(states, steps) && i < |steps| && t < |states[i].threads| && HasTip(states[i].threads[t])
    ensures SameIndex(states[i].g, states[i + 1].g)
  {
    RunInv(states, steps, i);
    var s := states[i];
    NeedsMeansHolding(s.threads[t]);
    match steps[i]
    case Reorg(_) =>
    case Move(u, choice) =>
      OnlyMutatorMutates(s.g, u, s.threads[u], choice);
  }

  lemma OnlyMutatorMutates(g: Shared, u: nat, pc: Pc, choice: nat)
    ensures SameIndex(g, Effect(g, u, pc, choice)) || pc == Mutating
  {
  }

  predicate IsMove(step: Step, t: nat) { step.Move? && step.t == t }

  /** At step r thread t asked the runtime for its tip, and the index is the same from there up to state i. */
  ghost predicate ReadAt(states: seq<State>, steps: seq<Step>, t: nat, r: nat, i: nat) {
    && r < i < |states| && i <= |steps| && IsMove(steps[r], t)
    && t < |states[r].threads| && states[r].threads[t].ReadTip?
    && forall k :: r <= k <= i ==> SameIndex(states[r].g, states[k].g)
  }

  /** A reading stage that did not fail. */
  predicate StageStep(s: State, step: Step, t: nat, q: Query, stage: nat) {
    && IsMove(step, t) && step.choice != 0 && t < |s.threads|
    && s.threads[t].Work? && s.threads[t].q == q && s.threads[t].stage == stage
  }

  /** At its first stage the runtime reports nothing. */
  predicate ReportsNothing(s: State, step: Step, t: nat, q: Query) {
    StageStep(s, step, t, q, 0) && !s.g.holds(q, s.g.version)
  }

  ghost predicate StageBetween(states: seq<State>, steps: seq<Step>, t: nat, q: Query, stage: nat, r: int, i: int)
    requires i <= |steps| <= |states|
  {
    exists k :: 0 <= r < k < i && StageStep(states[k], steps[k], t, q, stage)
  }

  ghost predicate NothingBetween(states: seq<State>, steps: seq<Step>, t: nat, q: Query, r: int, i: int)
    requires i <= |steps| <= |states|
  {
    exists k :: 0 <= r < k < i && ReportsNothing(states[k], steps[k], t, q)
  }

  /** The tips were compared before reading, with the gate open and the active tip equal to the indexed one. */
  predicate FirstMatch(s: State, step: Step, t: nat) {
    && IsMove(step, t) && t < |s.threads| && s.threads[t].First?
    && !s.g.closed && s.g.index.Some? && s.g.active == s.g.index
  }

  ghost predicate MatchBetween(states: seq<State>, steps: seq<Step>, t: nat, r: int, i: int)
    requires i <= |steps| <= |states|
  {
    exists k :: 0 <= r < k < i && FirstMatch(states[k], steps[k], t)
  }

  ghost predicate StagesBelow(states: seq<State>, steps: seq<Step>, t: nat, q: Query, count: nat, r: int, i: int)
    requires i <= |steps| <= |states|
  {
    forall stage :: 0 <= stage < count ==> StageBetween(states, steps, t, q, stage, r, i)
  }

  /** What a query has done since it read its tip. */
  ghost predicate Done(states: seq<State>, steps: seq<Step>, t: nat, r: int, i: int, pc: Pc)
    requires i <= |steps| <= |states|
  {
    && (pc.Work? ==> pc.stage <= Stages(pc.q.kind) && StagesBelow(states, steps, t, pc.q, pc.stage, r, i))
    && (pc.Last? && pc.code == 200 ==> StagesBelow(states, steps, t, pc.q, Stages(pc.q.kind) + 1, r, i))
    && (pc.Last? && pc.code == 404 ==> NothingBetween(states, steps, t, pc.q, r, i))
    && (pc.Work? || pc.Last? ==> MatchBetween(states, steps, t, r, i))
  }

  lemma {:induction false} TipWasRead(states: seq<State>, steps: seq<Step>, i: nat, t: nat)
    requires IsRun(states, steps) && i < |states| && t < |states[i].threads| && HasTip(states[i].threads[t])
    ensures exists r: nat :: ReadAt(states, steps, t, r, i) && Done(states, steps, t, r, i, states[i].threads[t])
    decreases i
  {
    assert i > 0;
    var s := states[i - 1];
    assert |s.threads| == |states[i].threads|;
    if HasTip(s.threads[t]) {
      TipWasRead(states, steps, i - 1, t);
      IndexStandsStill(states, steps, i - 1, t);
      var r: nat :| ReadAt(states, steps, t, r, i - 1) && Done(states, steps, t, r, i - 1, s.threads[t]);
      hide Next, Enabled, Init, Done;
      assert ReadAt(states, steps, t, r, i);
      DoneGrows(states, steps, t, r, i - 1);
    } else {
      StartsTip(s, steps[i - 1], t);
      assert ReadAt(states, steps, t, i - 1, i);
      assert states[i].threads[t].First?;
    }
  }

  lemma StartsTip(s: State, step: Step, t: nat)
    requires Enabled(s, step) && t < |s.threads| && !HasTip(s.threads[t]) && HasTip(Next(s, step).threads[t])
    ensures IsMove(step, t) && s.threads[t].ReadTip? && Next(s, step).threads[t].First?
    ensures SameIndex(s.g, Next(s, step).g)
  {
  }

  lemma DoneGrows(states: seq<State>, steps: seq<Step>, t: nat, r: nat, i: nat)
    requires IsRun(states, steps) && r < i < |steps| && t < |states[i].threads| && t < |states[i + 1].threads|
    requires HasTip(states[i].threads[t]) && HasTip(states[i + 1].threads[t])
    requires Done(states, steps, t, r, i, states[i].threads[t])
    ensures Done(states, steps, t, r, i + 1, states[i + 1].threads[t])
  {
    var s, step, pc, pc' := states[i], steps[i], states[i].threads[t], states[i + 1].threads[t];
    RunInv(states, steps, i);
    assert TipOk(s.g, pc);
    OneStage(s, step, t);
    hide Next, Enabled, Init, IsRun, StageStep, ReportsNothing, Stages, StagesBelow, NothingBetween, MatchBetween, Inv;
    var count := if pc.Work? then pc.stage else Stages(pc.q.kind) + 1;
    BelowGrows(states, steps, t, pc.q, count, r, i);
    NothingGrows(states, steps, t, pc.q, r, i);
    MatchGrows(states, steps, t, r, i);
  }

  lemma MatchGrows(states: seq<State>, steps: seq<Step>, t: nat, r: nat, i: nat)
    requires r < i < |steps| <= |states|
    ensures MatchBetween(states, steps, t, r, i) || FirstMatch(states[i], steps[i], t) ==>
              MatchBetween(states, steps, t, r, i + 1)
  {
    hide FirstMatch;
  }

  lemma BelowGrows(states: seq<State>, steps: seq<Step>, t: nat, q: Query, count: nat, r: nat, i: nat)
    requires r < i < |steps| <= |states|
    ensures StagesBelow(states, steps, t, q, count, r, i) ==> StagesBelow(states, steps, t, q, count, r, i + 1)
    ensures StagesBelow(states, steps, t, q, count, r, i) && StageStep(states[i], steps[i], t, q, count) ==>
              StagesBelow(states, steps, t, q, count + 1, r, i + 1)
  {
    hide StageStep;
    var n := i + 1;
    if StagesBelow(states, steps, t, q, count, r, i) {
      forall stage | 0 <= stage < count ensures StageBetween(states, steps, t, q, stage, r, n) {
        assert StageBetween(states, steps, t, q, stage, r, i);
      }
      assert StageStep(states[i], steps[i], t, q, count) ==> StageBetween(states, steps, t, q, count, r, n);
    }
  }

  lemma NothingGrows(states: seq<State>, steps: seq<Step>, t: nat, q: Query, r: nat, i: nat)
    requires r < i < |steps| <= |states|
    ensures NothingBetween(states, steps, t, q, r, i) || ReportsNothing(states[i], steps[i], t, q) ==>
              NothingBetween(states, steps, t, q, r, i + 1)
  {
    hide ReportsNothing;
  }

  /** How a query goes on between its tip read and its answer. */
  lemma OneStage(s: State, step: Step, t: nat)
    requires Enabled(s, step) && t < |s.threads| && HasTip(s.threads[t]) && HasTip(Next(s, step).threads[t])
    requires TipOk(s.g, s.threads[t])
    ensures var pc, pc' := s.threads[t], Next(s, step).threads[t];
            || pc' == pc
            || (pc.First? && pc' == Work(pc.q, 0, pc.tip) && FirstMatch(s, step, t))
            || (&& pc.Work? && StageStep(s, step, t, pc.q, pc.stage)
                && (|| (pc' == Work(pc.q, pc.stage + 1, pc.tip) && pc.stage < Stages(pc.q.kind))
                    || (pc' == Last(pc.q, 200, pc.tip) && pc.stage >= Stages(pc.q.kind))
                    || (pc' == Last(pc.q, 404, pc.tip) && ReportsNothing(s, step, t, pc.q))))
  {
  }

  predicate IsAnswer(pc: Pc, code: nat) { pc == Leave(code) || pc == Answered(code) }

  /** At step j thread t compared the tips for the last time, with the gate open and the active tip equal
      to the indexed one. */
  predicate DecidedAt(s: State, step: Step, t: nat, code: nat) {
    && IsMove(step, t) && t < |s.threads| && s.threads[t].Last? && s.threads[t].code == code
    && code == (if s.g.holds(s.threads[t].q, s.g.version) then 200 else 404)
    && !s.g.closed && s.g.index.Some? && s.g.active == s.g.index
  }

  lemma StartsAnswer(s: State, step: Step, t: nat, code: nat)
    requires Inv(s) && Enabled(s, step) && t < |s.threads| && code != 503
    requires IsAnswer(Next(s, step).threads[t], code) && !IsAnswer(s.threads[t], code)
    ensures DecidedAt(s, step, t, code) && (code == 200 || code == 404)
  {
    assert TipOk(s.g, s.threads[t]);
    hide MutexOk, HandleOk, TipsOk, Effect;
  }

  lemma {:induction false} AnswerWasDecided(states: seq<State>, steps: seq<Step>, i: nat, t: nat, code: nat)
    requires IsRun(states, steps) && i < |states| && t < |states[i].threads|
    requires IsAnswer(states[i].threads[t], code) && code != 503
    ensures code == 200 || code == 404
    ensures exists j :: 0 <= j < i && j < |steps| && DecidedAt(states[j], steps[j], t, code)
    decreases i
  {
    assert i > 0;
    var s := states[i - 1];
    assert |s.threads| == |states[i].threads|;
    hide Next, Enabled, Init;
    if IsAnswer(s.threads[t], code) {
      AnswerWasDecided(states, steps, i - 1, t, code);
    } else {
      RunInv(states, steps, i - 1);
      StartsAnswer(s, steps[i - 1], t, code);
    }
  }

  /** Every answer other than 503 is 200 or 404 and was decided at a step j of its run at which the gate was
      open and the active and the indexed tip were the same, with the index untouched in every state since
      the step r at which the query read its tip. It is 200 if the index holds what was asked for at that
      point and 404 if it does not; 404 comes from a first stage at which the runtime reports nothing, and
      only from one, and 200 from a full set of stages. */
  lemma AnswersLinearize(states: seq<State>, steps: seq<Step>, i: nat, t: nat, code: nat)
    requires IsRun(states, steps) && i < |states| && t < |states[i].threads|
    requires states[i].threads[t] == Answered(code) && code != 503
    ensures exists r: nat, j: nat ::
              && r < j < i && j < |steps| && ReadAt(states, steps, t, r, j) && DecidedAt(states[j], steps[j], t, code)
              && MatchBetween(states, steps, t, r, j)
              && (code == 404 <==> NothingBetween(states, steps, t, states[j].threads[t].q, r, j))
              && (code == 200 <==> AllStages(states, steps, t, states[j].threads[t].q, r, j))
  {
    hide Next, Enabled, Init;
    AnswerWasDecided(states, steps, i, t, code);
    var j: nat :| j < i && j < |steps| && DecidedAt(states[j], steps[j], t, code);
    TipWasRead(states, steps, j, t);
    var r: nat :| ReadAt(states, steps, t, r, j) && Done(states, steps, t, r, j, states[j].threads[t]);
    CodeMeans(states, steps, t, r, j);
  }

  /** Every stage of its kind was passed (three for a transaction: its place, the block, the encoding; two for a
      token: its size and the copy), and at the first the runtime found something. */
  ghost predicate AllStages(states: seq<State>, steps: seq<Step>, t: nat, q: Query, r: int, j: int)
    requires j <= |steps| <= |states|
  {
    && StagesBelow(states, steps, t, q, if q.kind == Transaction then 3 else 2, r, j)
    && !NothingBetween(states, steps, t, q, r, j)
  }

  lemma CodeMeans(states: seq<State>, steps: seq<Step>, t: nat, r: nat, j: nat)
    requires j < |steps| && |states| == |steps| + 1 && ReadAt(states, steps, t, r, j)
    requires t < |states[j].threads| && states[j].threads[t].Last?
    requires Done(states, steps, t, r, j, states[j].threads[t])
    requires var pc := states[j].threads[t];
             pc.code == if states[j].g.holds(pc.q, states[j].g.version) then 200 else 404
    ensures var pc := states[j].threads[t];
            && (pc.code == 404 <==> NothingBetween(states, steps, t, pc.q, r, j))
            && (pc.code == 200 <==> AllStages(states, steps, t, pc.q, r, j))
  {
    var pc := states[j].threads[t];
    hide StageStep, StageBetween;
    if k :| 0 <= r < k < j && ReportsNothing(states[k], steps[k], t, pc.q) {
      assert SameIndex(states[r].g, states[k].g) && SameIndex(states[r].g, states[j].g);
      assert pc.code == 404;
    }
  }

  /** The runtime is destroyed at most once and never called without a live handle. */
  lemma RuntimeIsSafe(states: seq<State>, steps: seq<Step>, i: nat)
    requires IsRun(states, steps) && i < |states|
    ensures states[i].g.destroyed <= 1 && !states[i].g.misused
    ensures states[i].g.destroyed == 1 ==> !states[i].g.handle
  {
    RunInv(states, steps, i);
  }

  /** One step after the gate is closed leaves it closed and decides no answer but 503. */
  lemma ClosedStep(s: State, step: Step, t: nat, code: nat)
    requires Enabled(s, step) && s.g.closed && t < |s.threads| && code != 503
    ensures Next(s, step).g.closed && |Next(s, step).threads| == |s.threads|
    ensures IsAnswer(Next(s, step).threads[t], code) ==> IsAnswer(s.threads[t], code)
  {
  }

  /** Closing is final: an answer other than 503 found later was already decided when the gate closed. */
  lemma {:induction false} ClosedIsFinal(states: seq<State>, steps: seq<Step>, i: nat, j: nat, t: nat, code: nat)
    requires IsRun(states, steps) && i <= j < |states| && states[i].g.closed && t < |states[i].threads| && code != 503
    ensures states[j].g.closed && |states[j].threads| == |states[i].threads|
    ensures IsAnswer(states[j].threads[t], code) ==> IsAnswer(states[i].threads[t], code)
    decreases j
  {
    hide Next, Enabled, Init, IsAnswer;
    if i < j {
      ClosedIsFinal(states, steps, i, j - 1, t, code);
      ClosedStep(states[j - 1], steps[j - 1], t, code);
    }
  }

  /** Not yet past the tests on the gate, or turned away. */
  predicate TurnedAway(pc: Pc) {
    pc.TryLock? || pc.Admitted? || pc.Checking? || pc == Leave(503) || pc == Answered(503)
  }

  lemma TurnedAwayStep(s: State, step: Step, t: nat)
    requires Enabled(s, step) && s.g.closed && t < |s.threads| && TurnedAway(s.threads[t])
    ensures |Next(s, step).threads| == |s.threads| && Next(s, step).g.closed && TurnedAway(Next(s, step).threads[t])
  {
  }

  /** A query that finds the gate closed never reaches the runtime and is answered 503. */
  lemma {:induction false} LateQueriesTurnedAway(states: seq<State>, steps: seq<Step>, i: nat, j: nat, t: nat)
    requires IsRun(states, steps) && i <= j < |states| && states[i].g.closed
    requires t < |states[i].threads| && TurnedAway(states[i].threads[t])
    ensures |states[j].threads| == |states[i].threads| && states[j].g.closed && TurnedAway(states[j].threads[t])
    decreases j
  {
    hide Next, Enabled, Init, TurnedAway;
    if i < j {
      LateQueriesTurnedAway(states, steps, i, j - 1, t);
      TurnedAwayStep(states[j - 1], steps[j - 1], t);
    }
  }

  /** One mutation may be past its test. */
  ghost predicate MutationUnderWay(threads: seq<Pc>) { exists t :: 0 <= t < |threads| && threads[t] == Mutating }

  lemma ClosingStep(s: State, step: Step)
    requires Inv(s) && Enabled(s, step) && s.g.closing
    ensures var s' := Next(s, step);
            && s'.g.closing
            && s.g.version <= s'.g.version <= s.g.version + (if MutationUnderWay(s.threads) then 1 else 0)
            && (MutationUnderWay(s'.threads) ==> MutationUnderWay(s.threads) && s'.g.version == s.g.version)
  {
    var s' := Next(s, step);
    if t :| 0 <= t < |s'.threads| && s'.threads[t] == Mutating {
      assert s.threads[t] == Mutating && Holding(s.threads[t]);
    }
  }

  /** Once Destroy has announced itself no mutation begins: at most the one under way still takes effect. */
  lemma {:induction false} ClosingEndsMutations(states: seq<State>, steps: seq<Step>, i: nat, j: nat)
    requires IsRun(states, steps) && i <= j < |states| && states[i].g.closing
    ensures states[j].g.closing
    ensures states[j].g.version <= states[i].g.version + (if MutationUnderWay(states[i].threads) then 1 else 0)
    ensures MutationUnderWay(states[j].threads) ==>
              MutationUnderWay(states[i].threads) && states[j].g.version == states[i].g.version
    decreases j
  {
    hide Next, Enabled, Init, Inv, MutationUnderWay;
    if i < j {
      ClosingEndsMutations(states, steps, i, j - 1);
      RunInv(states, steps, j - 1);
      ClosingStep(states[j - 1], steps[j - 1]);
    }
  }

  /** The runtime is somewhere: with the handle, with a destroying thread, or destroyed. */
  ghost predicate Owned(s: State) {
    s.g.handle || s.g.destroyed > 0 || exists t :: 0 <= t < |s.threads| && HasRuntime(s.threads[t])
  }

  /** Destroy past its first two steps. */
  predicate Announced(pc: Pc) {
    pc == DestroyLock || pc == Taking || pc.Unlocking? || pc.Destroying? || pc == Destroyed
  }

  /** What the ends of the two closing calls, and of the steps before, have brought about. */
  predicate ClosedSoFar(s: State) {
    forall t :: 0 <= t < |s.threads| ==>
      && (s.threads[t] == GateClosed ==> s.g.closed)
      && (Announced(s.threads[t]) || s.threads[t] == Stopping ==> s.g.closed)
      && (Announced(s.threads[t]) ==> s.g.closing)
      && (Announced(s.threads[t]) && s.threads[t] != DestroyLock && s.threads[t] != Taking ==> !s.g.handle)
  }

  lemma OwnedStep(s: State, step: Step)
    requires Inv(s) && Enabled(s, step)
    ensures Owned(Next(s, step)) <==> Owned(s)
  {
    var s' := Next(s, step);
    if step.Move? {
      var t := step.t;
      MoveHandle(s.g, t, s.threads[t], step.choice);
      var pc' := Goes(s.g, s.threads[t], step.choice);
      assert s'.threads == s.threads[t := pc'];
      hide Effect, Goes, HasRuntime;
      if u :| 0 <= u < |s.threads| && HasRuntime(s.threads[u]) {
        assert u != t ==> HasRuntime(s'.threads[u]);
      }
      if HasRuntime(pc') { assert HasRuntime(s'.threads[t]); }
      if u :| 0 <= u < |s'.threads| && HasRuntime(s'.threads[u]) {
        assert u != t ==> HasRuntime(s.threads[u]);
      }
    }
  }

  lemma ClosedSoFarStep(s: State, step: Step)
    requires Enabled(s, step) && ClosedSoFar(s)
    ensures ClosedSoFar(Next(s, step))
  {
  }

  /** Destroy and CloseQueries do what they say: when they are done the gate is closed, after Destroy nothing can
      mutate and the handle is gone, and a runtime that was there at first is never lost: when the handle is gone
      and nobody is destroying it, it has been destroyed. */
  lemma {:induction false} ClosingIsDone(states: seq<State>, steps: seq<Step>, i: nat)
    requires IsRun(states, steps) && i < |states|
    ensures ClosedSoFar(states[i]) && (Owned(states[i]) <==> states[0].g.handle)
  {
    hide Next, Enabled, Inv;
    if i == 0 {
    } else {
      ClosingIsDone(states, steps, i - 1);
      RunInv(states, steps, i - 1);
      hide Owned, ClosedSoFar, Init;
      OwnedStep(states[i - 1], steps[i - 1]);
      ClosedSoFarStep(states[i - 1], steps[i - 1]);
    }
  }

  /** Steps a query has left at most. */
  function Left(pc: Pc): nat {
    match pc
    case TryLock(_) => 20
    case Admitted(_) => 19
    case Checking(_) => 18
    case ReadTip(_) => 17
    case First(_, _) => 16
    case Work(_, stage, _) => if stage <= 10 then 14 - stage else 3
    case Last(_, _, _) => 2
    case Leave(_) => 1
    case _ => 0
  }

  /** A query never waits for another thread, and each of its steps brings it closer to its answer. */
  lemma QueriesNeverWait(s: State, t: nat, choice: nat)
    requires t < |s.threads| && IsQuery(s.threads[t])
    ensures Enabled(s, Move(t, choice))
    ensures Left(Next(s, Move(t, choice)).threads[t]) < Left(s.threads[t])
  {
  }
}
