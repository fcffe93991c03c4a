/** That every call on the query gate ends, in the way its kind ends, and that mutations take effect. */
module QueryCalls {
  import opened Common
  import opened QueryGate

  datatype Call = Asking | Changing | Ending | Shutting

  /** The call a thread is in. */
  function CallOf(pc: Pc): Call {
    match pc
    case MutateLock => Changing
    case MutateCheck => Changing
    case Mutating => Changing
    case MutateLeave => Changing
    case Mutated => Changing
    case Closing => Ending
    case Stopping => Ending
    case DestroyLock => Ending
    case Taking => Ending
    case Unlocking(_) => Ending
    case Destroying(_) => Ending
    case Destroyed => Ending
    case CloseGate => Shutting
    case GateClosed => Shutting
    case _ => Asking
  }

  /** Steps left at most. */
  function Remaining(pc: Pc): nat {
    match pc
    case MutateLock => 4
    case MutateCheck => 3
    case Mutating => 2
    case MutateLeave => 1
    case Closing => 6
    case Stopping => 5
    case DestroyLock => 4
    case Taking => 3
    case Unlocking(_) => 2
    case Destroying(_) => 1
    case CloseGate => 1
    case _ => Left(pc)
  }

  /** Each own step of any call brings it nearer to its end, and it stays the same kind of call: a query ends with an
      answer, a mutation as mutated, and so on. */
  lemma CallsGoOn(s: State, t: nat, choice: nat)
    requires Enabled(s, Move(t, choice))
    ensures var pc, pc' := s.threads[t], Next(s, Move(t, choice)).threads[t];
            && CallOf(pc') == CallOf(pc) && Remaining(pc') < Remaining(pc)
            && (Remaining(pc') == 0 <==> Final(pc'))
  {
    if IsQuery(s.threads[t]) {
      QueriesNeverWait(s, t, choice);
    }
  }

  /** While a thread waits for the mutex, another holds it, and that one can go on. */
  lemma OnlyHoldersBlock(states: seq<State>, steps: seq<Step>, i: nat, t: nat)
    requires IsRun(states, steps) && i < |states| && t < |states[i].threads|
    requires !Final(states[i].threads[t]) && !Enabled(states[i], Move(t, 0))
    ensures states[i].g.owner.Some? && Enabled(states[i], Move(states[i].g.owner.value, 0))
  {
    RunInv(states, steps, i);
    OwnerInRange(states, steps, i);
    var u := states[i].g.owner.value;
    assert Holding(states[i].threads[u]);
  }

  lemma {:induction false} OwnerInRange(states: seq<State>, steps: seq<Step>, i: nat)
    requires IsRun(states, steps) && i < |states|
    ensures states[i].g.owner.Some? ==> states[i].g.owner.value < |states[i].threads|
  {
    if i > 0 {
      OwnerInRange(states, steps, i - 1);
    }
  }

  /** The runtime is used only while the handle is set and nothing was destroyed: at the tip read, in every reading
      stage and in a mutation. */
  lemma UsesAreLive(states: seq<State>, steps: seq<Step>, i: nat, t: nat)
    requires IsRun(states, steps) && i < |states| && t < |states[i].threads|
    requires states[i].threads[t].ReadTip? || states[i].threads[t].Work? || states[i].threads[t] == Mutating
    ensures states[i].g.handle && states[i].g.destroyed == 0
  {
    RunInv(states, steps, i);
  }

  // ---------------------------------------------------------------- mutations

  /** The step at which a mutation changes the index, once. */
  predicate Mutates(s: State, s': State, step: Step, t: nat) {
    && IsMove(step, t) && t < |s.threads| && s.threads[t] == Mutating
    && s'.g.version == s.g.version + 1 && s'.g.index == Some(step.choice)
  }

  /** The step at which it is turned away. */
  predicate MutationRefused(s: State, step: Step, t: nat) {
    IsMove(step, t) && t < |s.threads| && s.threads[t] == MutateCheck && (s.g.closing || !s.g.handle)
  }

  ghost predicate MutatedBefore(states: seq<State>, steps: seq<Step>, i: nat, t: nat)
    requires |states| == |steps| + 1 && i <= |steps|
  {
    exists j ::
      && 0 <= j < i
      && (Mutates(states[j], states[j + 1], steps[j], t) || MutationRefused(states[j], steps[j], t))
  }

  /** When a mutation has returned it has changed the index, or was refused because the runtime is closing or gone. */
  lemma {:induction false} MutationAccounted(states: seq<State>, steps: seq<Step>, i: nat, t: nat)
    requires IsRun(states, steps) && i <= |steps| && t < |states[i].threads|
    requires states[i].threads[t] == MutateLeave || states[i].threads[t] == Mutated
    ensures MutatedBefore(states, steps, i, t)
    decreases i
  {
    assert i > 0;
    var s, step := states[i - 1], steps[i - 1];
    assert |s.threads| == |states[i].threads|;
    if s.threads[t] == MutateLeave || s.threads[t] == Mutated {
      MutationAccounted(states, steps, i - 1, t);
    } else {
      MutationStep(s, step, t);
      assert Mutates(s, states[i], step, t) || MutationRefused(s, step, t);
    }
  }

  lemma MutationStep(s: State, step: Step, t: nat)
    requires Enabled(s, step) && t < |s.threads| && s.threads[t] != MutateLeave && s.threads[t] != Mutated
    requires Next(s, step).threads[t] == MutateLeave || Next(s, step).threads[t] == Mutated
    ensures Mutates(s, Next(s, step), step, t) || MutationRefused(s, step, t)
  {
  }
}
