/**
 Suspension is transparent: with every caller below a suspension relaying, the activation
 machine computes what the plain recursive evaluator computes, and runs out of frame storage
 exactly where that evaluation, metered, does.

 The invariant reads the machine as one logical stack. Outside an unwind it is the parked
 activations followed by the live stack; during an unwind the innermost pending list, which
 was peeled off the top of the live stack, goes above it.
 */
module MachineTransparency {
  import opened Wrappers
  import opened Machine
  import opened PlainEvaluation

  // ---------------------------------------------------------------------------
  // What verified code gives
  // ---------------------------------------------------------------------------

  ghost predicate IsSuspendable(p: Program, fn: nat) {
    fn < |p.functions| && p.functions[fn].classification.Suspendable?
  }

  /** A function that suspends, or calls one that may, is suspendable and relays at that call. */
  ghost predicate Verified(p: Program) {
    forall fn, pc :: 0 <= fn < |p.functions| && 0 <= pc < |p.functions[fn].code| ==>
      InstructionVerified(p, fn, p.functions[fn].code[pc])
  }

  ghost predicate InstructionVerified(p: Program, fn: nat, i: Instruction) {
    && (i.Suspend? ==> IsSuspendable(p, fn))
    && (i.Call? && IsSuspendable(p, i.target) ==> i.relay.Relayed? && IsSuspendable(p, fn))
  }

  // ---------------------------------------------------------------------------
  // The logical stack
  // ---------------------------------------------------------------------------

  ghost function Backwards(pending: seq<Pending>): (r: seq<Activation>)
    ensures |r| == |pending|
  {
    if pending == [] then [] else Backwards(pending[1..]) + [pending[0].activation]
  }

  ghost function Parked(t: Transfer): seq<Activation> {
    if t.NoTransfer? then [] else Parked(t.parent) + Backwards(t.pending)
  }

  ghost predicate Unwinding(st: State) {
    st.resumed.Some? && st.resumed.value.TransferStep? && st.transfer.Context?
  }

  /** The logical stack while the innermost pending list is being peeled off the live stack. */
  ghost function Peeled(st: State): seq<Activation>
    requires st.transfer.Context?
  {
    Parked(st.transfer.parent) + st.stack + Backwards(st.transfer.pending)
  }

  ghost function Logical(st: State): seq<Activation> {
    if Unwinding(st) then Peeled(st) else Parked(st.transfer) + st.stack
  }

  ghost function Bodies(xs: seq<Activation>): (r: seq<Body>)
    ensures |r| == |xs|
    ensures forall i :: 0 <= i < |xs| ==> r[i] == xs[i].body
  {
    seq(|xs|, i requires 0 <= i < |xs| => xs[i].body)
  }

  ghost predicate Awaiting(p: Program, b: Body) {
    b.waiting && var at := InstructionAt(p, b); at.Some? && (at.value.Call? || at.value.Suspend?)
  }

  ghost predicate AwaitsCallOf(p: Program, b: Body, fn: nat) {
    b.waiting && var at := InstructionAt(p, b); at.Some? && at.value.Call? && at.value.target == fn
  }

  ghost predicate AwaitsSuspendable(p: Program, b: Body) {
    exists fn :: IsSuspendable(p, fn) && AwaitsCallOf(p, b, fn)
  }

  /** Every body sits at its own depth and, except perhaps the last, waits on a request. */
  ghost predicate Stacked(p: Program, bodies: seq<Body>) {
    && (forall i :: 0 <= i < |bodies| ==> bodies[i].depth == i + 1)
    && (forall i :: 0 <= i < |bodies| - 1 ==> Awaiting(p, bodies[i]))
  }

  ghost predicate LiveChain(p: Program, stack: seq<Activation>) {
    forall i :: 0 <= i < |stack| - 1 ==> AwaitsCallOf(p, stack[i].body, stack[i + 1].body.fn)
  }

  /** A transfer on its way down the live stack, or with nothing left to unwind. */
  ghost predicate InTransfer(p: Program, st: State) {
    && st.transfer.Context? && st.transfer.pending != [] && st.transfer.step.TransferStep?
    && var bodies := Bodies(Peeled(st));
    && Stacked(p, bodies)
    && Awaiting(p, bodies[|bodies| - 1])
    && LiveChain(p, st.stack)
    && (st.stack != [] ==> AwaitsSuspendable(p, st.stack[|st.stack| - 1].body))
  }

  ghost predicate Inv(p: Program, st: State) {
    if Unwinding(st) then
      InTransfer(p, st) && st.stack != [] && st.resumed.value == st.transfer.step
    else
      && st.stack != []
      && Stacked(p, Bodies(Logical(st)))
      && LiveChain(p, st.stack)
      && var top := st.stack[|st.stack| - 1].body;
         match st.resumed
         case None => !top.waiting
         case Some(step) => step.ValueStep? && Awaiting(p, top)
  }

  // ---------------------------------------------------------------------------
  // What a state means: the answer metered plain evaluation would give from here
  // ---------------------------------------------------------------------------

  ghost function Callers(xs: seq<Activation>): (r: seq<Caller>)
    ensures |r| == |xs|
  {
    seq(|xs|, i requires 0 <= i < |xs| => Caller(xs[i].body, xs[i].frame.Some?))
  }

  /** The functions of pending activations that publishing will give a frame, outermost first. */
  ghost function OwingPending(pending: seq<Pending>): seq<nat> {
    if pending == [] then []
    else
      var a := pending[0].activation;
      OwingPending(pending[1..]) + if pending[0].state.Some? && a.frame.None? then [a.body.fn] else []
  }

  /** Pending activations once they are published. */
  ghost function Published(pending: seq<Pending>): (r: seq<Caller>)
    ensures |r| == |pending|
  {
    if pending == [] then []
    else
      var a := pending[0].activation;
      Published(pending[1..]) + [Caller(a.body, a.frame.Some? || pending[0].state.Some?)]
  }

  /** The child started once the callers' frames fit, with all of them parked. */
  ghost function StartedMeaning(p: Program, limits: Limits, owing: seq<nat>, waiting: seq<Caller>, child: CallRequest, s: Store, held: int): (Step, Store) {
    var charge := ChargeAll(p, limits, owing, held);
    if charge.Err? then (Blocked(StackExhausted(charge.error)), s)
    else Resume(p, limits, waiting, [], Meter(p, limits, Enter(child, |waiting| + 1), false, [], s, charge.value))
  }

  ghost function TransferMeaning(p: Program, limits: Limits, st: State): (Step, Store)
    requires st.transfer.Context? && st.transfer.step.TransferStep?
  {
    StartedMeaning(p, limits, Owing(p, Callers(st.stack)) + OwingPending(st.transfer.pending),
                   Callers(Parked(st.transfer.parent)) + Park(p, Callers(st.stack)) + Published(st.transfer.pending),
                   st.transfer.step.child, st.store, st.stackBytes)
  }

  /** The body that runs next, with a value it waits for already delivered. */
  ghost function Active(p: Program, st: State): Body
    requires Inv(p, st) && !Unwinding(st)
  {
    var top := st.stack[|st.stack| - 1].body;
    if st.resumed.None? then top
    else Deliver(top, InstructionAt(p, top).value.destination, st.resumed.value.value)
  }

  /** The live callers below the active body, and whether that holds a frame. */
  ghost function LiveCallers(st: State): seq<Caller>
    requires st.stack != []
  {
    Callers(st.stack[..|st.stack| - 1])
  }

  ghost predicate Framed(st: State)
    requires st.stack != []
  {
    st.stack[|st.stack| - 1].frame.Some?
  }

  /** Evaluating the active body from here. */
  ghost function ActiveMeter(p: Program, limits: Limits, st: State): Metered
    requires Inv(p, st) && !Unwinding(st)
  {
    Meter(p, limits, Active(p, st), Framed(st), Owing(p, LiveCallers(st)), st.store, st.stackBytes)
  }

  ghost function Meaning(p: Program, limits: Limits, st: State): (Step, Store)
    requires Inv(p, st)
  {
    if Unwinding(st) then TransferMeaning(p, limits, st)
    else Resume(p, limits, Callers(Parked(st.transfer)), LiveCallers(st), ActiveMeter(p, limits, st))
  }

  /** Every held frame has the size its function was laid out with. */
  ghost predicate Sized(p: Program, xs: seq<Activation>) {
    forall i :: 0 <= i < |xs| && xs[i].frame.Some? ==> xs[i].frame.value.bytes == FrameSize(p, xs[i].body.fn)
  }

  // ---------------------------------------------------------------------------
  // Sequences of activations
  // ---------------------------------------------------------------------------

  lemma {:induction false} BackwardsAppend(pending: seq<Pending>, last: Pending)
    ensures Backwards(pending + [last]) == [last.activation] + Backwards(pending)
  {
    if pending == [] {
      assert pending + [last] == [last];
      assert Backwards([last]) == Backwards([]) + [last.activation];
    } else {
      BackwardsAppend(pending[1..], last);
      assert (pending + [last])[1..] == pending[1..] + [last];
    }
  }

  /** Taking the next pending activation takes the top of the parked part of the logical stack. */
  lemma {:induction false} ShiftTakesTheTop(t: Transfer)
    ensures var (next, t') := Shift(t);
            if next.None? then Parked(t) == [] else Parked(t) == Parked(t') + [next.value.activation]
    decreases t
  {
    if t.Context? {
      if t.pending == [] && t.parent.Context? {
        ShiftTakesTheTop(t.parent);
        assert Parked(t) == Parked(t.parent);
      } else if t.pending != [] {
        var t' := Context(t.step, t.pending[1..], t.parent);
        assert Parked(t) == Parked(t') + [t.pending[0].activation];
      }
    }
  }

  lemma {:induction false} SuspendedDepthIsParked(t: Transfer)
    ensures SuspendedDepth(t) == |Parked(t)|
    decreases t
  {
    if t.Context? { SuspendedDepthIsParked(t.parent); }
  }

  lemma CallersAppend(xs: seq<Activation>, ys: seq<Activation>)
    ensures Callers(xs + ys) == Callers(xs) + Callers(ys)
  {
  }

  // ---------------------------------------------------------------------------
  // One body
  // ---------------------------------------------------------------------------

  /** What a waiting body makes of the answer of its child. */
  ghost function Returned(p: Program, limits: Limits, b: Body, framed: bool, owing: seq<nat>, r: Metered, suspended: bool): Metered {
    if !r.step.ValueStep? then r
    else
      var after := Continue(p, limits, b, framed || (r.suspended && Records(p, b)), if suspended then [] else owing, r);
      after.(suspended := suspended || after.suspended)
  }

  ghost function Called(p: Program, limits: Limits, b: Body, framed: bool, owing: seq<nat>, child: CallRequest, s: Store, held: int): Metered {
    var r := Meter(p, limits, Enter(child, b.depth + 1), false, Owed(p, owing, b, framed), s, held);
    Returned(p, limits, b, framed, owing, r, r.suspended)
  }

  ghost function Suspended(p: Program, limits: Limits, b: Body, framed: bool, owing: seq<nat>, child: CallRequest, s: Store, held: int): Metered {
    var charge := ChargeAll(p, limits, owing, held);
    if charge.Err? then Metered(Blocked(StackExhausted(charge.error)), s, held, false)
    else Returned(p, limits, b, framed, owing, Meter(p, limits, Enter(child, b.depth + 1), false, [], s, charge.value), true)
  }

  /** Evaluating a body is running it to its next request and answering that request. */
  ghost predicate AgreesWithPlain(p: Program, limits: Limits, b: Body, framed: bool, owing: seq<nat>, s: Store, held: int, advanced: Advanced) {
    var meter := Meter(p, limits, b, framed, owing, s, held);
    match advanced
    case Done(step, s') =>
      !step.TransferStep? && !IsExhaustion(step)
      && meter == Metered(step, s', if step.ValueStep? then held - FrameOf(p, b, framed) else held, false)
    case Yielded(CallRequested(child), b', s') =>
      && s'.steps > s.steps
      && b'.fn == b.fn && b'.depth == b.depth
      && child.target < |p.functions| && AwaitsCallOf(p, b', child.target)
      && meter == (if b.depth >= limits.maxCallDepth then Metered(Blocked(CallDepthLimit(b.depth)), s', held, false)
                   else Called(p, limits, b', framed, owing, child, s', held))
    case Yielded(OriginRequested(child), b', s') =>
      && s'.steps > s.steps
      && b'.fn == b.fn && b'.depth == b.depth
      && Awaiting(p, b') && InstructionAt(p, b').value.Suspend?
      && meter == Suspended(p, limits, b', framed, owing, child, s', held)
    case Yielded(RelayRequested(_, _), _, _) => false
  }

  lemma {:induction false} RunBodyAgrees(p: Program, limits: Limits, b: Body, framed: bool, owing: seq<nat>, s: Store, held: int)
    requires !b.waiting && s.steps <= limits.maxSteps
    ensures AgreesWithPlain(p, limits, b, framed, owing, s, held, RunBody(p, limits.maxSteps, b, s))
    decreases limits.maxSteps - s.steps
  {
    var at := InstructionAt(p, b);
    if at.Some? && !at.value.Return? && s.steps < limits.maxSteps && !at.value.Fail? {
      var i, s' := at.value, s.(steps := s.steps + 1);
      if i.Call? || i.Suspend? {
        RequestAgrees(p, limits, b, framed, owing, s, held);
      } else {
        hide AgreesWithPlain;
        var (b', cells') := ExecuteLocal(i, b, s.cells);
        RunBodyAgrees(p, limits, b', framed, owing, s'.(cells := cells'), held);
        LocalAgrees(p, limits, b, framed, owing, s, held);
      }
    }
  }

  /** A body at a call or suspension makes that request. */
  lemma {:induction false} RequestAgrees(p: Program, limits: Limits, b: Body, framed: bool, owing: seq<nat>, s: Store, held: int)
    requires !b.waiting && s.steps < limits.maxSteps
    requires var at := InstructionAt(p, b); at.Some? && (at.value.Call? || at.value.Suspend?)
    ensures AgreesWithPlain(p, limits, b, framed, owing, s, held, RunBody(p, limits.maxSteps, b, s))
  {
    hide Meter, Called, Suspended, ReadAll;
    var i := InstructionAt(p, b).value;
    var child := CallRequest(i.target, ReadAll(b.locals, i.arguments));
    if i.target >= |p.functions| { MissingAgrees(p, limits, b, framed, owing, s, held); }
    else if i.Call? { CallAgrees(p, limits, b, framed, owing, child, s, held); }
    else { SuspendAgrees(p, limits, b, framed, owing, child, s, held); }
    assert InstructionAt(p, b.(waiting := true)) == InstructionAt(p, b);
  }

  lemma MissingAgrees(p: Program, limits: Limits, b: Body, framed: bool, owing: seq<nat>, s: Store, held: int)
    requires s.steps < limits.maxSteps && InstructionAt(p, b).Some?
    requires var i := InstructionAt(p, b).value; (i.Call? || i.Suspend?) && i.target >= |p.functions|
    ensures Meter(p, limits, b, framed, owing, s, held)
         == Metered(Blocked(MissingFunction(InstructionAt(p, b).value.target)), s.(steps := s.steps + 1), held, false)
  {
  }

  lemma {:induction false} CallAgrees(p: Program, limits: Limits, b: Body, framed: bool, owing: seq<nat>, child: CallRequest, s: Store, held: int)
    requires !b.waiting && s.steps < limits.maxSteps && InstructionAt(p, b).Some?
    requires var i := InstructionAt(p, b).value; i.Call? && i.target < |p.functions| && child == CallRequest(i.target, ReadAll(b.locals, i.arguments))
    ensures Meter(p, limits, b, framed, owing, s, held)
         == var s' := s.(steps := s.steps + 1);
            if b.depth >= limits.maxCallDepth then Metered(Blocked(CallDepthLimit(b.depth)), s', held, false)
            else Called(p, limits, b.(waiting := true), framed, owing, child, s', held)
  {
    hide Owed, ReadAll;
    var b', i := b.(waiting := true), InstructionAt(p, b).value;
    assert InstructionAt(p, b') == InstructionAt(p, b) && Owed(p, owing, b', framed) == Owed(p, owing, b, framed) by { SameOwed(p, owing, b, framed); }
    var r := Meter(p, limits, Enter(child, b.depth + 1), false, Owed(p, owing, b, framed), s.(steps := s.steps + 1), held);
    if r.step.ValueStep? { assert Deliver(b', i.destination, r.step.value) == Deliver(b, i.destination, r.step.value); }
  }

  lemma SameOwed(p: Program, owing: seq<nat>, b: Body, framed: bool)
    ensures Owed(p, owing, b.(waiting := true), framed) == Owed(p, owing, b, framed)
  {
  }

  lemma {:induction false} SuspendAgrees(p: Program, limits: Limits, b: Body, framed: bool, owing: seq<nat>, child: CallRequest, s: Store, held: int)
    requires !b.waiting && s.steps < limits.maxSteps && InstructionAt(p, b).Some?
    requires var i := InstructionAt(p, b).value; i.Suspend? && i.target < |p.functions| && child == CallRequest(i.target, ReadAll(b.locals, i.arguments))
    ensures Meter(p, limits, b, framed, owing, s, held)
         == Suspended(p, limits, b.(waiting := true), framed, owing, child, s.(steps := s.steps + 1), held)
  {
    hide ChargeAll;
    var b', i := b.(waiting := true), InstructionAt(p, b).value;
    assert InstructionAt(p, b') == InstructionAt(p, b);
    var charge := ChargeAll(p, limits, owing, held);
    if charge.Ok? {
      var r := Meter(p, limits, Enter(child, b.depth + 1), false, [], s.(steps := s.steps + 1), charge.value);
      if r.step.ValueStep? { assert Deliver(b', i.destination, r.step.value) == Deliver(b, i.destination, r.step.value); }
    }
  }

  /** A local instruction leaves the request, and what it is to be answered with, to the rest of the body. */
  lemma {:induction false} LocalAgrees(p: Program, limits: Limits, b: Body, framed: bool, owing: seq<nat>, s: Store, held: int)
    requires s.steps < limits.maxSteps
    requires var at := InstructionAt(p, b);
             at.Some? && !at.value.Return? && !at.value.Fail? && !at.value.Call? && !at.value.Suspend?
    requires var (b', cells') := ExecuteLocal(InstructionAt(p, b).value, b, s.cells);
             var s' := s.(steps := s.steps + 1, cells := cells');
             AgreesWithPlain(p, limits, b', framed, owing, s', held, RunBody(p, limits.maxSteps, b', s'))
    ensures AgreesWithPlain(p, limits, b, framed, owing, s, held, RunBody(p, limits.maxSteps, b, s))
  {
    hide Called, Suspended, InstructionAt;
  }

  /** A call answered below its caller is the call answered with the caller on the stack. */
  lemma CalledMeaning(p: Program, limits: Limits, parked: seq<Caller>, live: seq<Caller>, b: Body, framed: bool, child: CallRequest, s: Store, held: int)
    ensures var c := live + [Caller(b, framed)];
            Resume(p, limits, parked, live, Called(p, limits, b, framed, Owing(p, live), child, s, held))
            == Resume(p, limits, parked, c, Meter(p, limits, Enter(child, b.depth + 1), false, Owing(p, c), s, held))
  {
    var c := live + [Caller(b, framed)];
    assert c[..|c| - 1] == live;
  }

  /** A suspension answered below its origin is answered with the origin, and every live caller, parked. */
  lemma SuspendedMeaning(p: Program, limits: Limits, parked: seq<Caller>, live: seq<Caller>, b: Body, framed: bool, child: CallRequest, s: Store, held: int)
    requires !Records(p, b) && b.depth == |parked| + |live| + 1
    ensures Resume(p, limits, parked, live, Suspended(p, limits, b, framed, Owing(p, live), child, s, held))
            == StartedMeaning(p, limits, Owing(p, live), parked + Park(p, live) + [Caller(b, framed)], child, s, held)
  {
    hide Meter, Owing, ChargeAll;
    var charge := ChargeAll(p, limits, Owing(p, live), held);
    if charge.Ok? {
      SuspendedReturns(p, limits, parked, live, b, framed, Owing(p, live), Meter(p, limits, Enter(child, b.depth + 1), false, [], s, charge.value));
    }
  }

  /** The child's answer goes to the origin, then to the callers the suspension parked. */
  lemma SuspendedReturns(p: Program, limits: Limits, parked: seq<Caller>, live: seq<Caller>, b: Body, framed: bool, owing: seq<nat>, r: Metered)
    requires !Records(p, b)
    ensures Resume(p, limits, parked, live, Returned(p, limits, b, framed, owing, r, true))
            == Resume(p, limits, parked + Park(p, live) + [Caller(b, framed)], [], r)
  {
    hide Meter, Owing, Records, Park, Continue;
    var all := parked + Park(p, live) + [Caller(b, framed)];
    assert all[..|all| - 1] == parked + Park(p, live) && all[|all| - 1] == Caller(b, framed);
    if r.step.ValueStep? {
      var after := Continue(p, limits, b, framed, [], r);
      assert Returned(p, limits, b, framed, owing, r, true) == after.(suspended := true);
      hide Returned, Resume;
      SuspendedParksAll(p, limits, parked, live, after.(suspended := true));
      ParkedIgnoreSuspended(p, limits, parked + Park(p, live), after.(suspended := true), after);
      ResumeParked(p, limits, all, r);
    }
  }

  lemma ResumeParked(p: Program, limits: Limits, parked: seq<Caller>, r: Metered)
    requires r.step.ValueStep? && parked != []
    ensures var c := parked[|parked| - 1];
            Resume(p, limits, parked, [], r) == Resume(p, limits, parked[..|parked| - 1], [], Continue(p, limits, c.body, c.framed, [], r))
  {
  }

  // ---------------------------------------------------------------------------
  // Charging a pending list
  // ---------------------------------------------------------------------------

  lemma {:induction false} ChargingKeepsBodies(p: Program, limits: Limits, c: Charged, i: nat)
    ensures var c' := ChargeFrom(p, limits, c, i);
            && |c'.pending| == |c.pending|
            && (forall k :: 0 <= k < |c.pending| ==> c'.pending[k].activation.body == c.pending[k].activation.body)
            && (c.failure.None? && c'.failure.Some? ==> c'.failure.value.StackExhausted?)
    decreases |c.pending| - i
  {
    if i < |c.pending| && c.failure.None? {
      ChargingKeepsBodies(p, limits, ChargeOne(p, limits, c, i), i + 1);
    }
  }

  lemma {:induction false} SameBodiesBackwards(a: seq<Pending>, b: seq<Pending>)
    requires |a| == |b| && forall k :: 0 <= k < |a| ==> a[k].activation.body == b[k].activation.body
    ensures Bodies(Backwards(a)) == Bodies(Backwards(b))
  {
    if a != [] {
      SameBodiesBackwards(a[1..], b[1..]);
      assert Bodies(Backwards(a)) == Bodies(Backwards(a[1..])) + [a[0].activation.body];
      assert Bodies(Backwards(b)) == Bodies(Backwards(b[1..])) + [b[0].activation.body];
    }
  }

  /** Charging from a position on is charging the functions that owe a frame from there on. */
  ghost predicate ChargesExactly(p: Program, limits: Limits, c: Charged, i: nat, c': Charged) {
    i <= |c.pending| && |c'.pending| == |c.pending|
    && match ChargeAll(p, limits, OwingPending(c.pending[i..]), c.stackBytes)
       case Err(fn) => c'.failure == Some(StackExhausted(fn))
       case Ok(held) =>
         && c'.failure.None? && c'.stackBytes == held
         && c'.pending[..i] == c.pending[..i]
         && Callers(Backwards(c'.pending[i..])) == Published(c.pending[i..])
  }

  lemma {:induction false} ChargingIsExact(p: Program, limits: Limits, c: Charged, i: nat)
    requires i <= |c.pending| && c.failure.None?
    ensures ChargesExactly(p, limits, c, i, ChargeFrom(p, limits, c, i))
    decreases |c.pending| - i
  {
    if i < |c.pending| {
      hide ChargesExactly, ChargeAll, ChargeOne;
      var d := ChargeOne(p, limits, c, i);
      OwingOneMore(p, limits, c, i);
      if d.failure.None? {
        ChargingIsExact(p, limits, d, i + 1);
        ExactOneMore(p, limits, c, i, ChargeFrom(p, limits, d, i + 1));
      } else {
        ExactFailure(p, limits, c, i);
      }
    }
  }

  lemma ExactFailure(p: Program, limits: Limits, c: Charged, i: nat)
    requires i < |c.pending| && c.failure.None? && ChargeOne(p, limits, c, i).failure.Some?
    requires ChargeAll(p, limits, OwingPending(c.pending[i..]), c.stackBytes) == Err(c.pending[i].activation.body.fn)
    ensures ChargesExactly(p, limits, c, i, ChargeOne(p, limits, c, i))
  {
    hide ChargeAll, OwingPending;
  }

  /** Charging one position exactly and the rest exactly is charging them all exactly. */
  lemma ExactOneMore(p: Program, limits: Limits, c: Charged, i: nat, c': Charged)
    requires i < |c.pending| && c.failure.None? && ChargeOne(p, limits, c, i).failure.None?
    requires var d := ChargeOne(p, limits, c, i);
             && ChargesExactly(p, limits, d, i + 1, c')
             && ChargeAll(p, limits, OwingPending(c.pending[i..]), c.stackBytes) == ChargeAll(p, limits, OwingPending(d.pending[i + 1..]), d.stackBytes)
    ensures ChargesExactly(p, limits, c, i, c')
  {
    hide ChargeAll, OwingPending;
    var d := ChargeOne(p, limits, c, i);
    if c'.failure.None? {
      assert c'.pending[..i] == c'.pending[..i + 1][..i] == d.pending[..i + 1][..i] == c.pending[..i];
      assert c'.pending[i] == c'.pending[..i + 1][i] == d.pending[i];
      assert c'.pending[i..][0] == d.pending[i] && c'.pending[i..][1..] == c'.pending[i + 1..];
      assert c.pending[i..][0] == c.pending[i] && c.pending[i..][1..] == d.pending[i + 1..];
      CallersAppend(Backwards(c'.pending[i + 1..]), [d.pending[i].activation]);
    }
  }

  /** The first position to charge is the last that owes. */
  lemma OwingOneMore(p: Program, limits: Limits, c: Charged, i: nat)
    requires i < |c.pending| && c.failure.None?
    ensures var d := ChargeOne(p, limits, c, i);
            ChargeAll(p, limits, OwingPending(c.pending[i..]), c.stackBytes)
            == if d.failure.Some? then Err(c.pending[i].activation.body.fn)
               else ChargeAll(p, limits, OwingPending(d.pending[i + 1..]), d.stackBytes)
  {
    var d := ChargeOne(p, limits, c, i);
    assert c.pending[i..][0] == c.pending[i] && c.pending[i..][1..] == c.pending[i + 1..] == d.pending[i + 1..];
    var rest, a := OwingPending(c.pending[i + 1..]), c.pending[i].activation;
    if c.pending[i].state.Some? && a.frame.None? {
      assert OwingPending(c.pending[i..]) == rest + [a.body.fn];
      assert (rest + [a.body.fn])[..|rest|] == rest;
    } else {
      assert OwingPending(c.pending[i..]) == rest;
    }
  }

  // ---------------------------------------------------------------------------
  // One iteration of the machine
  // ---------------------------------------------------------------------------

  /** What one iteration owes: the invariant and the meaning, or the meaning as its answer. */
  ghost predicate Keeps(p: Program, limits: Limits, meaning: (Step, Store), progress: Progress) {
    match progress
    case Running(st') => Inv(p, st') && Meaning(p, limits, st') == meaning
    case Halted(result, last) => (result, last.store) == meaning
    case Fault => false
  }

  lemma BodiesAppend(xs: seq<Activation>, ys: seq<Activation>)
    ensures Bodies(xs + ys) == Bodies(xs) + Bodies(ys)
  {
  }

  /** Starting a child above fully parked callers means answering that child to them. */
  lemma StartedChildKeeps(p: Program, limits: Limits, st: State, child: CallRequest)
    requires var bodies := Bodies(Parked(st.transfer)); Stacked(p, bodies) && (bodies != [] ==> Awaiting(p, bodies[|bodies| - 1]))
    requires st.resumed.None? && st.stack == [Activation(Enter(child, |Parked(st.transfer)| + 1), None)]
    ensures Inv(p, st)
    ensures Meaning(p, limits, st)
         == Resume(p, limits, Callers(Parked(st.transfer)), [],
                   Meter(p, limits, Enter(child, |Parked(st.transfer)| + 1), false, [], st.store, st.stackBytes))
  {
    var bodies := Bodies(Parked(st.transfer));
    BodiesAppend(Parked(st.transfer), st.stack);
    assert Bodies(Logical(st)) == bodies + [st.stack[0].body];
    assert LiveCallers(st) == [];
  }

  lemma ChargedParkedBodies(t: Transfer, pending: seq<Pending>)
    requires t.Context? && |pending| == |t.pending|
    requires forall k :: 0 <= k < |pending| ==> pending[k].activation.body == t.pending[k].activation.body
    ensures Bodies(Parked(t.(pending := pending))) == Bodies(Parked(t))
  {
    SameBodiesBackwards(t.pending, pending);
    BodiesAppend(Parked(t.parent), Backwards(t.pending));
    BodiesAppend(Parked(t.parent), Backwards(pending));
  }

  /** Publishing gives exactly the frames that are owed, and runs out exactly where they do not fit. */
  lemma PublishKeeps(p: Program, limits: Limits, st: State)
    requires InTransfer(p, st) && st.stack == []
    ensures Keeps(p, limits, TransferMeaning(p, limits, st), Publish(p, limits, st))
  {
    hide Meter, Resume, Stacked, ChargeFrom, ChargeAll, Owing, OwingPending, Published, Park, Parked;
    var pending := st.transfer.pending;
    var start := Charged(None, pending, st.nextTicket, st.stackBytes, st.events);
    var c := ChargeFrom(p, limits, start, 0);
    ChargingKeepsBodies(p, limits, start, 0);
    ChargingIsExact(p, limits, start, 0);
    assert pending[0..] == pending && c.pending[0..] == c.pending;
    assert Owing(p, Callers(st.stack)) + OwingPending(pending) == OwingPending(pending) by { NothingOwed(p); }
    if c.failure.None? {
      var st' := Publish(p, limits, st).state;
      PublishedCallers(p, st, c.pending);
      StartedChildKeeps(p, limits, st', st.transfer.step.child);
    }
  }

  lemma PublishedCallers(p: Program, st: State, charged: seq<Pending>)
    requires InTransfer(p, st) && st.stack == [] && |charged| == |st.transfer.pending|
    requires forall k :: 0 <= k < |charged| ==> charged[k].activation.body == st.transfer.pending[k].activation.body
    requires Callers(Backwards(charged)) == Published(st.transfer.pending)
    ensures var t := st.transfer.(pending := charged);
            && Callers(Parked(t)) == Callers(Parked(st.transfer.parent)) + Park(p, Callers(st.stack)) + Published(st.transfer.pending)
            && Bodies(Parked(t)) == Bodies(Peeled(st))
            && charged[0].activation.body.depth == |Parked(t)|
  {
    var t := st.transfer.(pending := charged);
    assert Peeled(st) == Parked(st.transfer);
    ChargedParkedBodies(st.transfer, charged);
    CallersAppend(Parked(st.transfer.parent), Backwards(charged));
    assert Park(p, Callers(st.stack)) == [];
    var bodies := Bodies(Peeled(st));
    assert bodies[|bodies| - 1] == st.transfer.pending[0].activation.body;
  }

  lemma UnwoundKeeps(p: Program, limits: Limits, st: State)
    requires InTransfer(p, st)
    ensures Keeps(p, limits, TransferMeaning(p, limits, st), Unwound(p, limits, st))
  {
    if st.stack == [] {
      PublishKeeps(p, limits, st);
    } else {
      var st' := st.(resumed := Some(st.transfer.step));
      assert Peeled(st') == Peeled(st);
    }
  }

  /** A relaying caller joins the pending list; the logical stack does not change. */
  lemma {:induction false} RelayStep(p: Program, limits: Limits, st: State) returns (st': State)
    requires Verified(p) && Inv(p, st) && Unwinding(st)
    ensures InTransfer(p, st') && Peeled(st') == Peeled(st)
    ensures st' == st.(stack := st.stack[..|st.stack| - 1], transfer := st'.transfer)
    ensures Relays(p, st, st')
    ensures AdvanceMachine(p, limits, st) == Unwound(p, limits, st')
  {
    var top := st.stack[|st.stack| - 1];
    var below := st.stack[..|st.stack| - 1];
    var fn :| IsSuspendable(p, fn) && AwaitsCallOf(p, top.body, fn);
    var call := InstructionAt(p, top.body).value;
    assert InstructionVerified(p, top.body.fn, call);
    var relay := Pending(top, call.relay.state);
    st' := st.(stack := below, transfer := st.transfer.(pending := st.transfer.pending + [relay]));
    BackwardsAppend(st.transfer.pending, relay);
    assert Peeled(st') == Peeled(st);
    if below != [] {
      assert AwaitsCallOf(p, below[|below| - 1].body, top.body.fn);
    }
    assert top.(body := top.body) == top;
  }

  /** The top of the stack joined the pending list, with a state exactly if its call records one. */
  ghost predicate Relays(p: Program, st: State, st': State) {
    && st.stack != [] && st.transfer.Context? && st'.transfer.Context?
    && var top := st.stack[|st.stack| - 1];
    && st'.transfer.step == st.transfer.step && st'.transfer.parent == st.transfer.parent
    && |st'.transfer.pending| == |st.transfer.pending| + 1
    && var relay := st'.transfer.pending[|st.transfer.pending|];
    && st'.transfer.pending == st.transfer.pending + [relay] && relay.activation == top
    && (relay.state.Some? <==> Records(p, top.body))
  }

  lemma {:induction false} OwingPendingAppend(pending: seq<Pending>, last: Pending)
    ensures OwingPending(pending + [last])
         == (if last.state.Some? && last.activation.frame.None? then [last.activation.body.fn] else []) + OwingPending(pending)
    ensures Published(pending + [last])
         == [Caller(last.activation.body, last.activation.frame.Some? || last.state.Some?)] + Published(pending)
  {
    if pending == [] {
      assert (pending + [last])[1..] == [];
    } else {
      OwingPendingAppend(pending[1..], last);
      assert (pending + [last])[1..] == pending[1..] + [last];
    }
  }

  lemma RelayKeeps(p: Program, limits: Limits, st: State)
    requires Verified(p) && Inv(p, st) && Unwinding(st)
    ensures Keeps(p, limits, Meaning(p, limits, st), AdvanceMachine(p, limits, st))
  {
    var st' := RelayStep(p, limits, st);
    RelayedMeaning(p, limits, st, st');
    UnwoundKeeps(p, limits, st');
  }

  /** A caller owes and will be parked the same, on the stack and in the pending list. */
  lemma {:induction false} RelayedMeaning(p: Program, limits: Limits, st: State, st': State)
    requires Relays(p, st, st') && st.transfer.step.TransferStep?
    requires st' == st.(stack := st.stack[..|st.stack| - 1], transfer := st'.transfer)
    ensures TransferMeaning(p, limits, st') == TransferMeaning(p, limits, st)
  {
    var pending, relay := st.transfer.pending, st'.transfer.pending[|st.transfer.pending|];
    var live, below := Callers(st.stack), Callers(st'.stack);
    OwingPendingAppend(pending, relay);
    assert live[..|live| - 1] == below && live[|live| - 1] == Caller(relay.activation.body, relay.activation.frame.Some?);
    assert Owing(p, live) + OwingPending(pending) == Owing(p, below) + OwingPending(st'.transfer.pending);
    var parked := Callers(Parked(st.transfer.parent));
    assert Park(p, live) == Park(p, below) + [Published([relay])[0]];
    assert parked + Park(p, live) + Published(pending) == parked + Park(p, below) + Published(st'.transfer.pending);
  }

  /** The logical stack splits into what lies below the active body and the body itself. */
  lemma ActiveIsOnTop(p: Program, st: State)
    requires Inv(p, st) && !Unwinding(st)
    ensures var below := Bodies(Parked(st.transfer) + st.stack[..|st.stack| - 1]);
            && Bodies(Logical(st)) == below + [st.stack[|st.stack| - 1].body]
            && |below| == |Logical(st)| - 1
            && Active(p, st).depth == |below| + 1
            && Active(p, st).fn == st.stack[|st.stack| - 1].body.fn
            && !Active(p, st).waiting
            && Stacked(p, below)
            && (forall i :: 0 <= i < |below| ==> Awaiting(p, below[i]))
  {
    var top := st.stack[|st.stack| - 1];
    assert Logical(st) == Parked(st.transfer) + st.stack[..|st.stack| - 1] + [top];
    BodiesAppend(Parked(st.transfer) + st.stack[..|st.stack| - 1], [top]);
    var bodies := Bodies(Logical(st));
    assert bodies[|bodies| - 1] == top.body;
    var below := Bodies(Parked(st.transfer) + st.stack[..|st.stack| - 1]);
    assert forall i :: 0 <= i < |below| ==> below[i] == bodies[i];
  }

  ghost predicate AllAwaiting(p: Program, bodies: seq<Body>) {
    forall i :: 0 <= i < |bodies| ==> Awaiting(p, bodies[i])
  }

  lemma StackedPush(p: Program, below: seq<Body>, b: Body)
    requires Stacked(p, below) && AllAwaiting(p, below) && b.depth == |below| + 1
    ensures Stacked(p, below + [b])
    ensures Awaiting(p, b) ==> AllAwaiting(p, below + [b])
  {
  }

  lemma ReturnedInv(p: Program, st: State, rest: seq<Activation>)
    requires st.stack != [] && Logical(st) == rest && rest[|rest| - 1] == st.stack[|st.stack| - 1]
    requires Stacked(p, Bodies(rest)) && AllAwaiting(p, Bodies(rest)) && LiveChain(p, st.stack)
    requires st.resumed.Some? && st.resumed.value.ValueStep?
    ensures Inv(p, st)
  {
    assert Bodies(rest)[|rest| - 1] == st.stack[|st.stack| - 1].body;
  }

  /** What finishing the top activation leaves: the rest of the logical stack, with its frame released. */
  ghost predicate LeavesRest(p: Program, st: State, step: Step, store: Store, progress: Progress)
    requires st.stack != []
  {
    var rest := Parked(st.transfer) + st.stack[..|st.stack| - 1];
    var books := ReleaseFrame(st.stack[|st.stack| - 1], st);
    match progress
    case Running(st') =>
      && st'.stack != [] && Logical(st') == rest && LiveChain(p, st'.stack)
      && rest != [] && st'.stack[|st'.stack| - 1] == rest[|rest| - 1]
      && st'.resumed == Some(step) && st'.store == store
      && st'.stackBytes == books.stackBytes && st'.nextTicket == books.nextTicket && st'.events == books.events
    case Halted(result, last) =>
      && rest == [] && result == step && last.store == store
      && last.stackBytes == books.stackBytes && last.nextTicket == books.nextTicket && last.events == books.events
    case Fault => false
  }

  lemma DoneAboveCaller(p: Program, st: State, step: Step, store: Store)
    requires |st.stack| > 1 && LiveChain(p, st.stack) && step.ValueStep?
    ensures LeavesRest(p, st, step, store, OnDone(st, step, store))
  {
    var below := st.stack[..|st.stack| - 1];
    var st' := OnDone(st, step, store).state;
    assert st'.stack == below && st'.transfer == st.transfer && !Unwinding(st');
    assert forall i :: 0 <= i < |below| ==> below[i] == st.stack[i];
  }

  lemma DoneAboveParked(p: Program, st: State, step: Step, store: Store)
    requires |st.stack| == 1 && step.ValueStep?
    ensures LeavesRest(p, st, step, store, OnDone(st, step, store))
  {
    ShiftTakesTheTop(st.transfer);
    assert Parked(st.transfer) + st.stack[..0] == Parked(st.transfer);
  }

  lemma DoneStack(p: Program, st: State, step: Step, store: Store)
    requires Inv(p, st) && !Unwinding(st) && step.ValueStep?
    ensures LeavesRest(p, st, step, store, OnDone(st, step, store))
  {
    if |st.stack| > 1 { DoneAboveCaller(p, st, step, store); } else { DoneAboveParked(p, st, step, store); }
  }

  lemma ResumeEnds(p: Program, limits: Limits, parked: seq<Caller>, live: seq<Caller>, r: Metered)
    requires r.step.ValueStep? ==> |parked| == |live| == 0
    ensures Resume(p, limits, parked, live, r) == (r.step, r.store)
  {
  }

  lemma DoneKeeps(p: Program, limits: Limits, st: State, step: Step, store: Store)
    requires Inv(p, st) && !Unwinding(st) && !step.TransferStep? && Sized(p, Logical(st))
    requires ActiveMeter(p, limits, st)
          == Metered(step, store, if step.ValueStep? then st.stackBytes - FrameOf(p, Active(p, st), Framed(st)) else st.stackBytes, false)
    ensures Keeps(p, limits, Meaning(p, limits, st), OnDone(st, step, store))
  {
    ActiveIsOnTop(p, st);
    hide Meter, Resume, Stacked, LiveChain, Awaiting;
    var rest, top := Parked(st.transfer) + st.stack[..|st.stack| - 1], st.stack[|st.stack| - 1];
    var r, parked, live := ActiveMeter(p, limits, st), Callers(Parked(st.transfer)), LiveCallers(st);
    if step.ValueStep? {
      DoneStack(p, st, step, store);
      assert Logical(st)[|Logical(st)| - 1] == top;
      assert ReleaseFrame(top, st).stackBytes == r.held;
      var progress := OnDone(st, step, store);
      if progress.Running? {
        ReturnedInv(p, progress.state, rest);
        ReturnedMeaning(p, limits, st, progress.state, r);
      } else {
        ResumeEnds(p, limits, parked, live, r);
      }
    } else {
      ResumeEnds(p, limits, parked, live, r);
    }
  }

  /** The active body of a state that was handed a value goes on from it. */
  lemma {:induction false} HandedMeter(p: Program, limits: Limits, st: State, r: Metered)
    requires Inv(p, st) && !Unwinding(st) && r.step.ValueStep?
    requires st.resumed == Some(r.step) && st.store == r.store && st.stackBytes == r.held
    ensures var top := st.stack[|st.stack| - 1];
            ActiveMeter(p, limits, st) == Continue(p, limits, top.body, top.frame.Some?, Owing(p, LiveCallers(st)), r)
  {
    hide Meter, Parked, Stacked, LiveChain, Owing;
  }

  /** What lies below the active body, live or parked, goes on with the value. */
  lemma {:induction false} ReturnedMeaning(p: Program, limits: Limits, st: State, st': State, r: Metered)
    requires Inv(p, st) && !Unwinding(st) && Inv(p, st') && !Unwinding(st') && r.step.ValueStep? && !r.suspended
    requires st'.resumed == Some(r.step) && st'.store == r.store && st'.stackBytes == r.held
    requires if |st.stack| > 1 then st'.transfer == st.transfer && st'.stack == st.stack[..|st.stack| - 1]
             else |st'.stack| == 1 && Parked(st.transfer) == Parked(st'.transfer) + st'.stack
    ensures Meaning(p, limits, st') == Resume(p, limits, Callers(Parked(st.transfer)), LiveCallers(st), r)
  {
    HandedMeter(p, limits, st', r);
    assert st.stack != [] && st'.stack != [];
    hide Meter, Parked, Inv, ActiveMeter, Continue, Owing;
    var parked, live := Callers(Parked(st.transfer)), LiveCallers(st);
    var top := st'.stack[|st'.stack| - 1];
    if |st.stack| > 1 {
      assert live[|live| - 1] == Caller(top.body, top.frame.Some?) && live[..|live| - 1] == LiveCallers(st');
      ResumeLive(p, limits, parked, live, r);
    } else {
      CallersAppend(Parked(st'.transfer), st'.stack);
      assert live == [] && LiveCallers(st') == [];
      assert parked[|parked| - 1] == Caller(top.body, top.frame.Some?) && parked[..|parked| - 1] == Callers(Parked(st'.transfer));
      assert Owing(p, []) == [] by { NothingOwed(p); }
      ResumeParked(p, limits, parked, r);
    }
  }

  lemma NothingOwed(p: Program)
    ensures Owing(p, []) == []
  {
  }

  lemma ResumeLive(p: Program, limits: Limits, parked: seq<Caller>, live: seq<Caller>, r: Metered)
    requires r.step.ValueStep? && !r.suspended && live != []
    ensures var c, rest := live[|live| - 1], live[..|live| - 1];
            Resume(p, limits, parked, live, r) == Resume(p, limits, parked, rest, Continue(p, limits, c.body, c.framed, Owing(p, rest), r))
  {
    hide Continue, Owing;
    var c, rest := live[|live| - 1], live[..|live| - 1];
    var after := Continue(p, limits, c.body, c.framed, Owing(p, rest), r);
    assert after.(suspended := after.suspended) == after;
  }

  lemma CallInv(p: Program, st: State, rest: seq<Activation>, caller: Activation, callee: Activation)
    requires Stacked(p, Bodies(rest)) && AllAwaiting(p, Bodies(rest))
    requires caller.body.depth == |rest| + 1 && callee.body.depth == |rest| + 2
    requires AwaitsCallOf(p, caller.body, callee.body.fn) && !callee.body.waiting
    requires st.resumed.None? && |st.stack| >= 2 && LiveChain(p, st.stack)
    requires Logical(st) == rest + [caller] + [callee] && st.stack[|st.stack| - 1] == callee
    ensures Inv(p, st) && Active(p, st) == callee.body
    ensures Bodies(Logical(st)) == Bodies(rest) + [caller.body] + [callee.body]
  {
    BodiesAppend(rest, [caller]);
    BodiesAppend(rest + [caller], [callee]);
    StackedPush(p, Bodies(rest), caller.body);
    StackedPush(p, Bodies(rest) + [caller.body], callee.body);
  }

  lemma CallKeeps(p: Program, limits: Limits, st: State, child: CallRequest, body: Body, store: Store)
    requires Inv(p, st) && !Unwinding(st)
    requires AgreesWithPlain(p, limits, Active(p, st), Framed(st), Owing(p, LiveCallers(st)), st.store, st.stackBytes,
                             Yielded(CallRequested(child), body, store))
    ensures Keeps(p, limits, Meaning(p, limits, st), OnCall(limits, st, child, body, store))
  {
    hide Meter, Resume, ChargeAll, Stacked, LiveChain, Called, Parked;
    ActiveIsOnTop(p, st);
    SuspendedDepthIsParked(st.transfer);
    var progress := OnCall(limits, st, child, body, store);
    if progress.Running? {
      CallerPushed(p, st, progress.state, child, body);
      CalledMeaning(p, limits, Callers(Parked(st.transfer)), LiveCallers(st), body, Framed(st), child, store, st.stackBytes);
    } else {
      ResumeEnds(p, limits, Callers(Parked(st.transfer)), LiveCallers(st), ActiveMeter(p, limits, st));
    }
  }

  /** The machine with the callee on top of its waiting caller. */
  lemma CallerPushed(p: Program, st: State, st': State, child: CallRequest, body: Body)
    requires Inv(p, st) && !Unwinding(st) && body.depth == |Logical(st)| && AwaitsCallOf(p, body, child.target)
    requires body.fn == st.stack[|st.stack| - 1].body.fn && st'.resumed.None? && st'.transfer == st.transfer
    requires var caller := st.stack[|st.stack| - 1].(body := body);
             st'.stack == st.stack[..|st.stack| - 1] + [caller] + [Activation(Enter(child, body.depth + 1), None)]
    ensures Inv(p, st') && !Unwinding(st') && Active(p, st') == Enter(child, body.depth + 1) && !Framed(st')
    ensures LiveCallers(st') == LiveCallers(st) + [Caller(body, Framed(st))]
  {
    ActiveIsOnTop(p, st);
    var rest := Parked(st.transfer) + st.stack[..|st.stack| - 1];
    var caller, callee := st.stack[|st.stack| - 1].(body := body), Activation(Enter(child, body.depth + 1), None);
    assert Logical(st') == rest + [caller] + [callee];
    CallInv(p, st', rest, caller, callee);
    assert st'.stack[..|st'.stack| - 1] == st.stack[..|st.stack| - 1] + [caller];
    CallersAppend(st.stack[..|st.stack| - 1], [caller]);
    assert Callers([caller]) == [Caller(body, Framed(st))];
  }

  lemma OriginInTransfer(p: Program, st: State, live: seq<Activation>, rest: seq<Activation>, origin: Activation)
    requires Verified(p) && st.transfer.Context? && st.transfer.step.TransferStep?
    requires st.transfer.pending == [Pending(origin, None)]
    requires st.stack == live && rest == Parked(st.transfer.parent) + live
    requires Stacked(p, Bodies(rest)) && AllAwaiting(p, Bodies(rest)) && origin.body.depth == |rest| + 1
    requires Awaiting(p, origin.body) && InstructionAt(p, origin.body).value.Suspend?
    requires LiveChain(p, live)
    requires live != [] ==> AwaitsCallOf(p, live[|live| - 1].body, origin.body.fn)
    ensures InTransfer(p, st) && Peeled(st) == rest + [origin]
    ensures Bodies(Peeled(st)) == Bodies(rest) + [origin.body]
  {
    assert Backwards([]) == [];
    assert Backwards([Pending(origin, None)]) == [origin];
    assert Peeled(st) == rest + [origin];
    BodiesAppend(rest, [origin]);
    StackedPush(p, Bodies(rest), origin.body);
    assert InstructionVerified(p, origin.body.fn, InstructionAt(p, origin.body).value);
  }

  /** The state in which an origin has joined a fresh pending list. */
  ghost function Originated(st: State, child: CallRequest, body: Body, store: Store): State
    requires st.stack != []
  {
    var origin := st.stack[|st.stack| - 1].(body := body);
    st.(stack := st.stack[..|st.stack| - 1], store := store,
        transfer := Context(TransferStep(store.steps, child), [Pending(origin, None)], st.transfer))
  }

  lemma OriginMeaning(p: Program, limits: Limits, st: State, child: CallRequest, body: Body, store: Store)
    requires Verified(p) && Inv(p, st) && !Unwinding(st)
    requires AgreesWithPlain(p, limits, Active(p, st), Framed(st), Owing(p, LiveCallers(st)), st.store, st.stackBytes,
                             Yielded(OriginRequested(child), body, store))
    ensures var st' := Originated(st, child, body, store);
            && InTransfer(p, st')
            && Peeled(st') == Parked(st.transfer) + st.stack[..|st.stack| - 1] + [st.stack[|st.stack| - 1].(body := body)]
            && TransferMeaning(p, limits, st') == Meaning(p, limits, st)
  {
    ActiveIsOnTop(p, st);
    var live := st.stack[..|st.stack| - 1];
    var rest, origin := Parked(st.transfer) + live, st.stack[|st.stack| - 1].(body := body);
    var st' := Originated(st, child, body, store);
    OriginInTransfer(p, st', live, rest, origin);
    SuspendedMeaning(p, limits, Callers(Parked(st.transfer)), LiveCallers(st), body, Framed(st), child, store, st.stackBytes);
    assert OwingPending(st'.transfer.pending) == [] && Published(st'.transfer.pending) == [Caller(body, Framed(st))] by {
      assert st'.transfer.pending[1..] == [];
    }
    assert Owing(p, LiveCallers(st)) + [] == Owing(p, LiveCallers(st));
  }

  lemma OriginKeeps(p: Program, limits: Limits, st: State, child: CallRequest, body: Body, store: Store)
    requires Verified(p) && Inv(p, st) && !Unwinding(st)
    requires AgreesWithPlain(p, limits, Active(p, st), Framed(st), Owing(p, LiveCallers(st)), st.store, st.stackBytes,
                             Yielded(OriginRequested(child), body, store))
    ensures Keeps(p, limits, Meaning(p, limits, st), OnOrigin(p, limits, st, child, body, store))
  {
    OriginMeaning(p, limits, st, child, body, store);
    UnwoundKeeps(p, limits, Originated(st, child, body, store));
  }

  /** One iteration keeps the invariant and the meaning, and stops only with that answer. */
  lemma AdvanceKeeps(p: Program, limits: Limits, st: State)
    requires Verified(p) && Inv(p, st) && st.store.steps <= limits.maxSteps && Sized(p, Logical(st))
    ensures Keeps(p, limits, Meaning(p, limits, st), AdvanceMachine(p, limits, st))
  {
    if Unwinding(st) {
      RelayKeeps(p, limits, st);
    } else {
      ActiveIsOnTop(p, st);
      RunBodyAgrees(p, limits, Active(p, st), Framed(st), Owing(p, LiveCallers(st)), st.store, st.stackBytes);
      var top := st.stack[|st.stack| - 1].body;
      var advanced := AdvanceBody(p, limits.maxSteps, top, st.resumed, st.store);
      assert advanced == RunBody(p, limits.maxSteps, Active(p, st), st.store);
      match advanced
      case Done(step, store) => DoneKeeps(p, limits, st, step, store);
      case Yielded(CallRequested(child), body, store) => CallKeeps(p, limits, st, child, body, store);
      case Yielded(OriginRequested(child), body, store) => OriginKeeps(p, limits, st, child, body, store);
      case Yielded(RelayRequested(_, _), _, _) =>
    }
  }
}
