/**
 Whole runs of the activation machine: every reachable state, the answer of every halted run,
 and the fact that every run halts.
 */
module MachineRuns {
  import opened Wrappers
  import opened Machine
  import opened PlainEvaluation
  import opened MachineTransparency
  import opened MachineAccounting
  import M = MachineMeaning

  /** What plain nested calls give. */
  ghost function Plain(p: Program, limits: Limits, entry: CallRequest, store: Store): (Step, Store) {
    Evaluate(p, limits, Enter(entry, 1), store)
  }

  /** What they give with frame storage counted. */
  ghost function PlainMetered(p: Program, limits: Limits, entry: CallRequest, store: Store): (Step, Store) {
    var r := Meter(p, limits, Enter(entry, 1), false, [], store, 0);
    (r.step, r.store)
  }

  lemma MeteredIsPlain(p: Program, limits: Limits, entry: CallRequest, store: Store)
    ensures var (step, _) := PlainMetered(p, limits, entry, store);
            !step.TransferStep? && (!IsExhaustion(step) ==> PlainMetered(p, limits, entry, store) == Plain(p, limits, entry, store))
  {
    MeterIsPlain(p, limits, Enter(entry, 1), false, [], store, 0);
  }

  /** A run starts as one call of its entry that holds nothing, and plain evaluation as the same call. */
  lemma RunStarts(p: Program, limits: Limits, entry: CallRequest, store: Store)
    ensures exists b :: M.Entered(b, entry.target, entry.arguments, 1)
              && Initial(entry, store) == State([Activation(b, None)], NoTransfer, None, store, 0, 0, [])
              && Plain(p, limits, entry, store) == Evaluate(p, limits, b, store)
  {
    M.EnteredIsEnter(entry, 1);
  }

  /** Everything that holds between two iterations of a run. */
  ghost predicate Consistent(p: Program, limits: Limits, st: State) {
    Inv(p, st) && Accounted(p, limits, st) && st.store.steps <= limits.maxSteps
  }

  lemma InitialConsistent(p: Program, limits: Limits, entry: CallRequest, store: Store)
    requires store.steps <= limits.maxSteps
    ensures Consistent(p, limits, Initial(entry, store))
    ensures Meaning(p, limits, Initial(entry, store)) == PlainMetered(p, limits, entry, store)
  {
    var st := Initial(entry, store);
    assert Logical(st) == st.stack;
    assert LiveCallers(st) == [];
    SumSnoc([], st.stack[0], Bytes);
    assert [] + [st.stack[0]] == st.stack;
    forall t: nat ensures Sum(st.stack, Holds(t)) == 0 {
      SumSnoc([], st.stack[0], Holds(t));
    }
  }

  lemma AdvanceConsistent(p: Program, limits: Limits, st: State)
    requires Verified(p) && Consistent(p, limits, st)
    ensures match AdvanceMachine(p, limits, st)
            case Running(st') =>
              Consistent(p, limits, st') && Meaning(p, limits, st') == Meaning(p, limits, st) && Ranks(st', st, limits)
            case Halted(_, _) => true
            case Fault => false
  {
    AdvanceKeeps(p, limits, st);
    AdvanceBooks(p, limits, st);
    if AdvanceMachine(p, limits, st).Running? { AdvanceRanks(p, limits, st); }
  }

  // ---------------------------------------------------------------------------
  // Progress
  // ---------------------------------------------------------------------------

  ghost function Phase(st: State): nat {
    if Unwinding(st) then 1 else 0
  }

  ghost function Height(st: State): nat {
    if Unwinding(st) then |st.stack| else |Logical(st)|
  }

  /** One iteration spends a step, ends an unwind, or shortens the stack it works on. */
  ghost predicate Ranks(st': State, st: State, limits: Limits) {
    || st.store.steps < st'.store.steps <= limits.maxSteps
    || (st'.store.steps == st.store.steps && Phase(st') < Phase(st))
    || (st'.store.steps == st.store.steps && Phase(st') == Phase(st) && Height(st') < Height(st))
  }

  lemma AdvanceRanks(p: Program, limits: Limits, st: State)
    requires Verified(p) && Inv(p, st) && st.store.steps <= limits.maxSteps
    requires AdvanceMachine(p, limits, st).Running?
    ensures Ranks(AdvanceMachine(p, limits, st).state, st, limits)
  {
    if Unwinding(st) {
      var st' := RelayStep(p, limits, st);
    } else {
      ActiveIsOnTop(p, st);
      RunBodyAgrees(p, limits, Active(p, st), Framed(st), Owing(p, LiveCallers(st)), st.store, st.stackBytes);
      var top := st.stack[|st.stack| - 1].body;
      var advanced := AdvanceBody(p, limits.maxSteps, top, st.resumed, st.store);
      assert advanced == RunBody(p, limits.maxSteps, Active(p, st), st.store);
      if advanced.Done? && advanced.step.ValueStep? { DoneRanks(p, limits, st, advanced.step, advanced.store); }
      hide Meter, Called, Suspended, Owing, LiveCallers, Stacked, Awaiting, Active, RunBody, AdvanceBody, Height, OnDone;
    }
  }

  /** Finishing an activation spends a step or shortens the logical stack. */
  lemma DoneRanks(p: Program, limits: Limits, st: State, step: Step, store: Store)
    requires Inv(p, st) && !Unwinding(st) && step.ValueStep? && st.store.steps <= store.steps <= limits.maxSteps
    ensures var progress := OnDone(st, step, store); progress.Running? ==> Ranks(progress.state, st, limits)
  {
    DoneStack(p, st, step, store);
    assert Logical(st) == Parked(st.transfer) + st.stack[..|st.stack| - 1] + [st.stack[|st.stack| - 1]];
  }

  // ---------------------------------------------------------------------------
  // Whole runs
  // ---------------------------------------------------------------------------

  /** What a halted run returns, and the state of its frame storage. */
  ghost predicate Answers(p: Program, limits: Limits, metered: (Step, Store), result: Step, last: State) {
    && (result, last.store) == metered
    && (IsExhaustion(result) ==> forall bound: nat :: !Ample(p, limits, bound))
    && (result.ValueStep? ==> last.stackBytes == 0 && Replay(last.events) == Some(Ledger(last.nextTicket, {})))
  }

  /** A run goes on from a consistent state towards its answer, or has stopped with it. */
  ghost predicate OnCourse(p: Program, limits: Limits, metered: (Step, Store), progress: Progress) {
    match progress
    case Running(st) => Consistent(p, limits, st) && Meaning(p, limits, st) == metered
    case Halted(result, last) => Answers(p, limits, metered, result, last)
    case Fault => false
  }

  lemma AdvanceStaysOnCourse(p: Program, limits: Limits, st: State)
    requires Verified(p) && Consistent(p, limits, st)
    ensures OnCourse(p, limits, Meaning(p, limits, st), AdvanceMachine(p, limits, st))
  {
    AdvanceConsistent(p, limits, st);
    AdvanceKeeps(p, limits, st);
    AdvanceBooks(p, limits, st);
    hide AdvanceMachine, Consistent, Meaning, Replay, Ranks, Verified;
  }

  /** Every reachable state is consistent, and every run that stops gives the metered plain answer. */
  lemma {:induction false} EveryRun(p: Program, limits: Limits, entry: CallRequest, store: Store, n: nat)
    requires Verified(p) && store.steps <= limits.maxSteps
    ensures OnCourse(p, limits, PlainMetered(p, limits, entry, store), Iterate(p, limits, Initial(entry, store), n))
  {
    if n == 0 {
      InitialConsistent(p, limits, entry, store);
    } else {
      EveryRun(p, limits, entry, store, n - 1);
      var before := Iterate(p, limits, Initial(entry, store), n - 1);
      hide AdvanceMachine, Consistent, PlainMetered, Initial, Answers, Verified;
      if before.Running? { AdvanceStaysOnCourse(p, limits, before.state); }
    }
  }

  lemma IterateOnce(p: Program, limits: Limits, st: State, n: nat, st': State)
    requires Iterate(p, limits, st, n) == Running(st')
    ensures Iterate(p, limits, st, n + 1) == AdvanceMachine(p, limits, st')
  {
  }

  /** Every run halts. */
  lemma {:induction false} RunsHalt(p: Program, limits: Limits, start: State, n: nat, st: State) returns (m: nat)
    requires Verified(p) && Consistent(p, limits, st) && Iterate(p, limits, start, n) == Running(st)
    ensures Iterate(p, limits, start, m).Halted?
    decreases limits.maxSteps - st.store.steps, Phase(st), Height(st)
  {
    AdvanceConsistent(p, limits, st);
    IterateOnce(p, limits, start, n, st);
    match AdvanceMachine(p, limits, st)
    case Running(st') => m := RunsHalt(p, limits, start, n + 1, st');
    case Halted(_, _) => m := n + 1;
  }

  /**
   Suspension is transparent: the machine halts with exactly the step and the store of metered plain evaluation,
   so it runs out of frame storage exactly where that does, and otherwise gives what plain nested calls give. It
   cannot run out when the limit has room for the largest frame once per permitted step.
   */
  lemma SuspensionIsTransparent(p: Program, limits: Limits, entry: CallRequest, store: Store) returns (n: nat)
    requires Verified(p) && store.steps <= limits.maxSteps
    ensures var run := Iterate(p, limits, Initial(entry, store), n);
            && run.Halted?
            && !run.result.TransferStep?
            && (run.result, run.last.store) == PlainMetered(p, limits, entry, store)
            && (!IsExhaustion(run.result) ==> (run.result, run.last.store) == Plain(p, limits, entry, store))
            && ((exists bound: nat :: Ample(p, limits, bound)) ==> !IsExhaustion(run.result))
  {
    hide AdvanceMachine, Consistent, Meaning, PlainMetered, Plain, Initial, Replay, Ample, Verified;
    InitialConsistent(p, limits, entry, store);
    n := RunsHalt(p, limits, Initial(entry, store), 0, Initial(entry, store));
    EveryRun(p, limits, entry, store, n);
    MeteredIsPlain(p, limits, entry, store);
  }

  /** Frame accounting in every reachable state, spelled out. */
  lemma FramesAreAccounted(p: Program, limits: Limits, entry: CallRequest, store: Store, n: nat, st: State)
    requires Verified(p) && store.steps <= limits.maxSteps
    requires Iterate(p, limits, Initial(entry, store), n) == Running(st)
    ensures 0 <= st.stackBytes == Sum(Logical(st), Bytes) <= limits.maxStackBytes
    ensures forall a :: a in Logical(st) && a.frame.Some? ==>
              a.frame.value.bytes == M.Bytes(p, a.body.fn)
    ensures Replay(st.events).Some?
    ensures forall t: nat :: Sum(Logical(st), Holds(t)) == if t in Replay(st.events).value.open then 1 else 0
    ensures forall i :: 0 <= i < |Logical(st)| ==> Logical(st)[i].body.depth == i + 1
    ensures !Unwinding(st) ==> Logical(st) == Parked(st.transfer) + st.stack
  {
    EveryRun(p, limits, entry, store, n);
    assert forall i :: 0 <= i < |Logical(st)| ==> Bodies(Logical(st))[i] == Logical(st)[i].body;
  }
}
