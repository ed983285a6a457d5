/**
 The machine loop in the form the evaluator runs it: fields updated in place, pending lists
 appended to and shifted, frames charged by a loop. Every method is tied to the step function of
 the activation machine, and the whole loop to plain evaluation.
 */
module Evaluator {
  import opened Wrappers
  import opened Machine
  import opened PlainEvaluation
  import opened MachineTransparency
  import opened MachineAccounting
  import opened MachineRuns

  class ExecutionMachine {
    const program: Program
    const limits: Limits

    var stack: seq<Activation>
    var transfer: Transfer
    var resumed: Option<Step>
    var store: Store
    var nextTicket: nat
    var stackBytes: int
    var events: seq<FrameEvent>

    ghost function Snapshot(): State
      reads this
    {
      State(stack, transfer, resumed, store, nextTicket, stackBytes, events)
    }

    constructor (program: Program, limits: Limits, entry: CallRequest, store: Store)
      ensures this.program == program && this.limits == limits
      ensures Snapshot() == Initial(entry, store)
    {
      this.program, this.limits := program, limits;
      this.stack := [Activation(Enter(entry, 1), None)];
      this.transfer, this.resumed, this.store := NoTransfer, None, store;
      this.nextTicket, this.stackBytes, this.events := 0, 0, [];
    }

    method ReleaseActivationFrame(activation: Activation)
      modifies this
      ensures Snapshot() == ReleaseFrame(activation, old(Snapshot()))
    {
      if activation.frame.Some? {
        stackBytes := stackBytes - activation.frame.value.bytes;
        events := events + [FrameComplete(activation.frame.value.ticket)];
      }
    }

    /** Charges every pending activation that recorded a resume state, or stops at the first that does not fit. */
    method ChargePending() returns (failure: Option<BlockedReason>)
      requires transfer.Context?
      modifies this
      ensures var c := ChargeFrom(program, limits,
                                  Charged(None, old(transfer.pending), old(nextTicket), old(stackBytes), old(events)), 0);
              && failure == c.failure
              && Snapshot() == old(Snapshot()).(transfer := old(transfer).(pending := c.pending),
                                                nextTicket := c.nextTicket, stackBytes := c.stackBytes, events := c.events)
    {
      ghost var before := Snapshot();
      ghost var whole := ChargeFrom(program, limits,
                                    Charged(None, before.transfer.pending, nextTicket, stackBytes, events), 0);
      failure := None;
      var i := 0;
      while i < |transfer.pending| && failure.None?
        invariant transfer.Context? && 0 <= i <= |transfer.pending|
        invariant Snapshot() == before.(transfer := before.transfer.(pending := transfer.pending),
                                        nextTicket := nextTicket, stackBytes := stackBytes, events := events)
        invariant ChargeFrom(program, limits, Charged(failure, transfer.pending, nextTicket, stackBytes, events), i) == whole
        decreases |transfer.pending| - i, failure.None?
      {
        var entry := transfer.pending[i];
        if entry.state.Some? {
          var point := entry.state.value;
          if entry.activation.frame.Some? {
            var moved := entry.activation.frame.value.(point := point);
            transfer := transfer.(pending := transfer.pending[i := entry.(activation := entry.activation.(frame := Some(moved)))]);
          } else {
            var bytes := FrameSize(program, entry.activation.body.fn);
            if stackBytes + bytes > limits.maxStackBytes {
              failure := Some(StackExhausted(entry.activation.body.fn));
            } else {
              var frame := CoroutineFrame(nextTicket, bytes, point);
              transfer := transfer.(pending := transfer.pending[i := entry.(activation := entry.activation.(frame := Some(frame)))]);
              events := events + [FramePush(nextTicket)];
              nextTicket := nextTicket + 1;
              stackBytes := stackBytes + bytes;
            }
          }
        }
        i := i + 1;
      }
    }

    /** Continues an unwind below, or charges the frames and starts the child once nothing is left below. */
    method ContinueTransfer() returns (failure: Option<BlockedReason>)
      requires transfer.Context? && Unwound(program, limits, Snapshot()) != Fault
      modifies this
      ensures failure.None? ==> Unwound(program, limits, old(Snapshot())) == Running(Snapshot())
      ensures failure.Some? ==> Unwound(program, limits, old(Snapshot())) == Halted(Blocked(failure.value), Snapshot())
    {
      if stack != [] {
        resumed := Some(transfer.step);
        return None;
      }
      failure := ChargePending();
      resumed := None;
      if failure.None? {
        var child := Enter(transfer.step.child, transfer.pending[0].activation.body.depth + 1);
        stack := stack + [Activation(child, None)];
      }
    }

    /** Shifts the next pending activation off the innermost context that still has one. */
    method ShiftPending() returns (next: Option<Pending>)
      modifies this
      ensures (next, transfer) == Shift(old(transfer))
      ensures Snapshot() == old(Snapshot()).(transfer := transfer)
    {
      while transfer.Context? && transfer.pending == [] && transfer.parent.Context?
        invariant Shift(transfer) == Shift(old(transfer))
        invariant Snapshot() == old(Snapshot()).(transfer := transfer)
        decreases transfer
      {
        transfer := transfer.parent;
      }
      if transfer.NoTransfer? || transfer.pending == [] { return None; }
      next := Some(transfer.pending[0]);
      transfer := transfer.(pending := transfer.pending[1..]);
    }

    /** The machine with its top activation popped, as `st` was but for the store. */
    ghost predicate PoppedFrom(st: State)
      reads this
    {
      st.stack != [] && Snapshot() == st.(stack := st.stack[..|st.stack| - 1], store := store, resumed := resumed)
    }

    /** Returns a finished activation's step below, resumes a pending activation with it, or answers the run. */
    method Finish(activation: Activation, step: Step, ghost st: State) returns (result: Option<Step>)
      requires PoppedFrom(st) && activation == st.stack[|st.stack| - 1] && resumed.None?
      modifies this
      ensures result.None? ==> OnDone(st, step, old(store)) == Running(Snapshot())
      ensures result.Some? ==> OnDone(st, step, old(store)) == Halted(result.value, Snapshot())
    {
      if step.Blocked? { return Some(step); }
      ReleaseActivationFrame(activation);
      if stack == [] {
        var next := ShiftPending();
        if next.None? {
          transfer := NoTransfer;
          return Some(step);
        }
        stack := [next.value.activation];
      }
      resumed := Some(step);
      return None;
    }

    /** Starts a called function, unless the logical stack is as deep as the limit allows. */
    method StartCall(caller: Activation, child: CallRequest, ghost st: State) returns (result: Option<Step>)
      requires PoppedFrom(st) && caller == st.stack[|st.stack| - 1].(body := caller.body)
      modifies this
      ensures result.None? ==> OnCall(limits, st, child, caller.body, old(store)) == Running(Snapshot())
      ensures result.Some? ==> OnCall(limits, st, child, caller.body, old(store)) == Halted(result.value, Snapshot())
    {
      stack := stack + [caller];
      resumed := None;
      var count := |stack| + SuspendedDepth(transfer);
      if count >= limits.maxCallDepth { return Some(Blocked(CallDepthLimit(count))); }
      stack := stack + [Activation(Enter(child, caller.body.depth + 1), None)];
      return None;
    }

    /** Begins a transfer at the suspending activation. */
    method Originate(origin: Activation, child: CallRequest, ghost st: State) returns (result: Option<Step>)
      requires PoppedFrom(st) && origin == st.stack[|st.stack| - 1].(body := origin.body) && resumed == st.resumed
      requires OnOrigin(program, limits, st, child, origin.body, store) != Fault
      modifies this
      ensures result.None? ==> OnOrigin(program, limits, st, child, origin.body, old(store)) == Running(Snapshot())
      ensures result.Some? ==> OnOrigin(program, limits, st, child, origin.body, old(store)) == Halted(result.value, Snapshot())
    {
      hide Unwound;
      transfer := Context(TransferStep(store.steps, child), [Pending(origin, None)], transfer);
      var failure := ContinueTransfer();
      result := if failure.Some? then Some(Blocked(failure.value)) else None;
    }

    /** Adds a relaying caller to the transfer it recognises. */
    method Relay(relay: Activation, step: Step, state: Option<nat>, ghost st: State) returns (result: Option<Step>)
      requires PoppedFrom(st) && relay == st.stack[|st.stack| - 1].(body := relay.body) && resumed == st.resumed
      requires OnRelay(program, limits, st, step, state, relay.body, store) != Fault
      modifies this
      ensures result.None? ==> OnRelay(program, limits, st, step, state, relay.body, old(store)) == Running(Snapshot())
      ensures result.Some? ==> OnRelay(program, limits, st, step, state, relay.body, old(store)) == Halted(result.value, Snapshot())
    {
      hide Unwound;
      transfer := transfer.(pending := transfer.pending + [Pending(relay, state)]);
      var failure := ContinueTransfer();
      result := if failure.Some? then Some(Blocked(failure.value)) else None;
    }

    /** One iteration of the machine loop. */
    method Iterate() returns (result: Option<Step>)
      requires AdvanceMachine(program, limits, Snapshot()) != Fault
      modifies this
      ensures result.None? ==> AdvanceMachine(program, limits, old(Snapshot())) == Running(Snapshot())
      ensures result.Some? ==> AdvanceMachine(program, limits, old(Snapshot())) == Halted(result.value, Snapshot())
    {
      hide AdvanceBody, OnDone, OnCall, OnOrigin, OnRelay;
      ghost var st := Snapshot();
      var activation := stack[|stack| - 1];
      var advanced := AdvanceBody(program, limits.maxSteps, activation.body, resumed, store);
      stack, store := stack[..|stack| - 1], advanced.store;
      if advanced.Done? {
        resumed := None;
        result := Finish(activation, advanced.step, st);
        return;
      }
      var caller := activation.(body := advanced.body);
      match advanced.request {
        case CallRequested(child) => result := StartCall(caller, child, st);
        case OriginRequested(child) => result := Originate(caller, child, st);
        case RelayRequested(step, state) => result := Relay(caller, step, state, st);
      }
    }

    /** Runs the machine to its answer. */
    method ExecuteMachine(ghost entry: CallRequest, ghost initial: Store) returns (result: Step)
      requires Verified(program) && initial.steps <= limits.maxSteps
      requires Snapshot() == Initial(entry, initial)
      modifies this
      ensures (result, store) == PlainMetered(program, limits, entry, initial)
      ensures !IsExhaustion(result) ==> (result, store) == Plain(program, limits, entry, initial)
      ensures (exists bound: nat :: Ample(program, limits, bound)) ==> !IsExhaustion(result)
      ensures result.ValueStep? ==> stackBytes == 0 && Replay(events) == Some(Ledger(nextTicket, {}))
    {
      hide Meaning, PlainMetered, Plain, Verified, AdvanceMachine, Replay, Ample;
      ghost var answer := PlainMetered(program, limits, entry, initial);
      MeteredIsPlain(program, limits, entry, initial);
      InitialConsistent(program, limits, entry, initial);
      while true
        invariant Consistent(program, limits, Snapshot()) && Meaning(program, limits, Snapshot()) == answer
        decreases limits.maxSteps - store.steps, Phase(Snapshot()), Height(Snapshot())
      {
        AdvanceConsistent(program, limits, Snapshot());
        AdvanceStaysOnCourse(program, limits, Snapshot());
        var stopped := Iterate();
        if stopped.Some? { return stopped.value; }
      }
    }
  }
}
