/**
 Coroutine-frame accounting: the byte counter is the sum of the frames held by live and parked
 activations, and the event log opens every ticket once and closes it at most once.
 */
module MachineAccounting {
  import opened Wrappers
  import opened Machine
  import opened PlainEvaluation
  import opened MachineTransparency

  // ---------------------------------------------------------------------------
  // What a stack of activations holds
  // ---------------------------------------------------------------------------

  ghost function Bytes(a: Activation): nat {
    if a.frame.Some? then a.frame.value.bytes else 0
  }

  /** Weighs an activation by whether it holds one particular ticket. */
  ghost function Holds(ticket: nat): Activation -> nat {
    (a: Activation) => if a.frame.Some? && a.frame.value.ticket == ticket then 1 else 0
  }

  ghost function Sum(xs: seq<Activation>, weight: Activation -> nat): nat {
    if xs == [] then 0 else Sum(xs[..|xs| - 1], weight) + weight(xs[|xs| - 1])
  }

  datatype Ledger = Ledger(next: nat, open: set<nat>)

  /** Replays an event log to the next fresh ticket and the open ones; None if it misuses a ticket. */
  ghost function Replay(events: seq<FrameEvent>): Option<Ledger> {
    if events == [] then Some(Ledger(0, {}))
    else
      var before := Replay(events[..|events| - 1]);
      if before.None? then None
      else
        var l := before.value;
        match events[|events| - 1]
        case FramePush(t) => if t == l.next then Some(Ledger(t + 1, l.open + {t})) else None
        case FrameComplete(t) => if t in l.open then Some(Ledger(l.next, l.open - {t})) else None
  }

  /** The tickets held are exactly the open ones, each held once. */
  ghost predicate HeldOnce(held: seq<Activation>, open: set<nat>) {
    forall t: nat :: Sum(held, Holds(t)) == if t in open then 1 else 0
  }

  ghost predicate Balanced(limits: Limits, bytes: int, next: nat, events: seq<FrameEvent>, held: seq<Activation>) {
    && bytes == Sum(held, Bytes) <= limits.maxStackBytes
    && Replay(events).Some?
    && Replay(events).value.next == next
    && HeldOnce(held, Replay(events).value.open)
  }

  ghost predicate Accounted(p: Program, limits: Limits, st: State) {
    && Balanced(limits, st.stackBytes, st.nextTicket, st.events, Logical(st))
    && Sized(p, Logical(st))
    && |Logical(st)| + (if Unwinding(st) then 1 else 0) <= st.store.steps + 1
  }

  // ---------------------------------------------------------------------------
  // Sums over sequences
  // ---------------------------------------------------------------------------

  lemma {:induction false} SumAppend(xs: seq<Activation>, ys: seq<Activation>, weight: Activation -> nat)
    ensures Sum(xs + ys, weight) == Sum(xs, weight) + Sum(ys, weight)
    decreases |ys|
  {
    if ys == [] {
      assert xs + ys == xs;
    } else {
      SumAppend(xs, ys[..|ys| - 1], weight);
      assert (xs + ys)[..|xs + ys| - 1] == xs + ys[..|ys| - 1];
    }
  }

  lemma SumSnoc(xs: seq<Activation>, a: Activation, weight: Activation -> nat)
    ensures Sum(xs + [a], weight) == Sum(xs, weight) + weight(a)
  {
  }

  lemma SumUpdate(xs: seq<Activation>, i: nat, a: Activation, weight: Activation -> nat)
    requires i < |xs|
    ensures Sum(xs[i := a], weight) + weight(xs[i]) == Sum(xs, weight) + weight(a)
  {
    hide Sum;
    assert xs == xs[..i] + [xs[i]] + xs[i + 1..];
    assert xs[i := a] == xs[..i] + [a] + xs[i + 1..];
    SumSnoc(xs[..i], xs[i], weight);
    SumSnoc(xs[..i], a, weight);
    SumAppend(xs[..i] + [xs[i]], xs[i + 1..], weight);
    SumAppend(xs[..i] + [a], xs[i + 1..], weight);
  }

  lemma {:induction false} SumBound(p: Program, xs: seq<Activation>, bound: nat)
    requires Sized(p, xs) && forall fn :: FrameSize(p, fn) <= bound
    ensures Sum(xs, Bytes) <= bound * |xs|
  {
    if xs != [] {
      SumBound(p, xs[..|xs| - 1], bound);
      assert bound * |xs| == bound * (|xs| - 1) + bound;
    }
  }

  /** A pending position is one position of the backwards stack, and updates go through. */
  lemma {:induction false} BackwardsUpdate(pending: seq<Pending>, i: nat, entry: Pending)
    requires i < |pending|
    ensures Backwards(pending)[|pending| - 1 - i] == pending[i].activation
    ensures Backwards(pending[i := entry]) == Backwards(pending)[|pending| - 1 - i := entry.activation]
  {
    var updated := pending[i := entry];
    if i == 0 {
      assert updated[1..] == pending[1..];
    } else {
      BackwardsUpdate(pending[1..], i - 1, entry);
      assert updated[1..] == pending[1..][i - 1 := entry];
    }
  }

  // ---------------------------------------------------------------------------
  // The ledger
  // ---------------------------------------------------------------------------

  lemma {:induction false} OpenTicketsAreOld(events: seq<FrameEvent>)
    requires Replay(events).Some?
    ensures forall t :: t in Replay(events).value.open ==> t < Replay(events).value.next
  {
    if events != [] { OpenTicketsAreOld(events[..|events| - 1]); }
  }

  /** Handing a fresh frame to a frameless activation keeps the books. */
  lemma PushBalances(limits: Limits, bytes: int, events: seq<FrameEvent>, next: nat, held: seq<Activation>, i: nat, frame: CoroutineFrame)
    requires Balanced(limits, bytes, next, events, held)
    requires i < |held| && held[i].frame.None? && frame.ticket == next
    requires bytes + frame.bytes <= limits.maxStackBytes
    ensures Balanced(limits, bytes + frame.bytes, next + 1, events + [FramePush(next)], held[i := held[i].(frame := Some(frame))])
  {
    var after := held[i].(frame := Some(frame));
    var open := Replay(events).value.open;
    OpenTicketsAreOld(events);
    assert (events + [FramePush(next)])[..|events|] == events;
    SumUpdate(held, i, after, Bytes);
    forall t: nat ensures Sum(held[i := after], Holds(t)) == if t in open + {next} then 1 else 0 {
      SumUpdate(held, i, after, Holds(t));
    }
  }

  /** Releasing the topmost activation's frame keeps the books of the rest. */
  lemma ReleaseBalances(limits: Limits, st: State, held: seq<Activation>, top: Activation)
    requires Balanced(limits, st.stackBytes, st.nextTicket, st.events, held + [top])
    ensures var st' := ReleaseFrame(top, st);
            Balanced(limits, st'.stackBytes, st'.nextTicket, st'.events, held)
  {
  }

  /** Moving the resume point of a frame, or replacing a body, changes nothing in the books. */
  lemma SameFrameBalances(limits: Limits, bytes: int, events: seq<FrameEvent>, next: nat, held: seq<Activation>, i: nat, a: Activation)
    requires Balanced(limits, bytes, next, events, held)
    requires i < |held| && Bytes(a) == Bytes(held[i]) && a.frame.Some? == held[i].frame.Some?
    requires a.frame.Some? ==> a.frame.value.ticket == held[i].frame.value.ticket
    ensures Balanced(limits, bytes, next, events, held[i := a])
  {
    SumUpdate(held, i, a, Bytes);
    forall t: nat ensures Sum(held[i := a], Holds(t)) == Sum(held, Holds(t)) {
      SumUpdate(held, i, a, Holds(t));
    }
  }

  lemma FramelessBalances(limits: Limits, bytes: int, events: seq<FrameEvent>, next: nat, held: seq<Activation>, a: Activation)
    requires Balanced(limits, bytes, next, events, held) && a.frame.None?
    ensures Balanced(limits, bytes, next, events, held + [a])
  {
  }

  // ---------------------------------------------------------------------------
  // Charging
  // ---------------------------------------------------------------------------

  ghost predicate ChargedBalanced(p: Program, limits: Limits, c: Charged, outer: seq<Activation>) {
    && Balanced(limits, c.stackBytes, c.nextTicket, c.events, outer + Backwards(c.pending))
    && Sized(p, outer + Backwards(c.pending))
  }

  lemma ChargeOneBalances(p: Program, limits: Limits, c: Charged, i: nat, outer: seq<Activation>)
    requires i < |c.pending| && c.failure.None? && ChargedBalanced(p, limits, c, outer)
    ensures ChargedBalanced(p, limits, ChargeOne(p, limits, c, i), outer)
  {
    var c' := ChargeOne(p, limits, c, i);
    if c.pending[i].state.Some? && c'.failure.None? {
      var held := outer + Backwards(c.pending);
      var at := |outer| + |c.pending| - 1 - i;
      BackwardsUpdate(c.pending, i, c'.pending[i]);
      assert outer + Backwards(c'.pending) == held[at := c'.pending[i].activation];
      if c.pending[i].activation.frame.None? {
        PushBalances(limits, c.stackBytes, c.events, c.nextTicket, held, at, c'.pending[i].activation.frame.value);
      } else {
        SameFrameBalances(limits, c.stackBytes, c.events, c.nextTicket, held, at, c'.pending[i].activation);
      }
    }
  }

  lemma {:induction false} ChargingBalances(p: Program, limits: Limits, c: Charged, i: nat, outer: seq<Activation>)
    requires ChargedBalanced(p, limits, c, outer)
    ensures ChargedBalanced(p, limits, ChargeFrom(p, limits, c, i), outer)
    decreases |c.pending| - i
  {
    if i < |c.pending| && c.failure.None? {
      ChargeOneBalances(p, limits, c, i, outer);
      ChargingBalances(p, limits, ChargeOne(p, limits, c, i), i + 1, outer);
    }
  }

  /** Room for every frame a run within the step limit can hold at once. */
  ghost predicate Ample(p: Program, limits: Limits, bound: nat) {
    (forall fn :: FrameSize(p, fn) <= bound) && bound * limits.maxSteps <= limits.maxStackBytes
  }

  lemma SumWithout(xs: seq<Activation>, i: nat, weight: Activation -> nat)
    requires i < |xs|
    ensures Sum(xs, weight) == Sum(xs[..i] + xs[i + 1..], weight) + weight(xs[i])
  {
    hide Sum;
    var before, after := xs[..i], xs[i + 1..];
    assert xs == before + [xs[i]] + after;
    SumSnoc(before, xs[i], weight);
    SumAppend(before + [xs[i]], after, weight);
    SumAppend(before, after, weight);
  }

  lemma SizedWithout(p: Program, xs: seq<Activation>, i: nat)
    requires i < |xs| && Sized(p, xs)
    ensures Sized(p, xs[..i] + xs[i + 1..])
  {
  }

  lemma RoomForOneMore(p: Program, limits: Limits, held: seq<Activation>, at: nat, bound: nat)
    requires Ample(p, limits, bound) && Sized(p, held) && |held| <= limits.maxSteps
    requires at < |held| && held[at].frame.None?
    ensures Sum(held, Bytes) + bound <= limits.maxStackBytes
  {
    var others := held[..at] + held[at + 1..];
    SumWithout(held, at, Bytes);
    SizedWithout(p, held, at);
    SumBound(p, others, bound);
    MultiplyMonotone(bound, |others| + 1, limits.maxSteps);
    assert bound * (|others| + 1) == bound * |others| + bound;
  }

  lemma MultiplyMonotone(bound: nat, a: nat, b: nat)
    requires a <= b
    ensures bound * a <= bound * b
  {
  }

  lemma {:induction false} AmpleChargingSucceeds(p: Program, limits: Limits, c: Charged, i: nat, outer: seq<Activation>, bound: nat)
    requires ChargedBalanced(p, limits, c, outer) && c.failure.None?
    requires Ample(p, limits, bound) && |outer| + |c.pending| <= limits.maxSteps
    ensures ChargeFrom(p, limits, c, i).failure.None?
    decreases |c.pending| - i
  {
    if i < |c.pending| {
      ChargeOneBalances(p, limits, c, i, outer);
      var entry := c.pending[i];
      if entry.state.Some? && entry.activation.frame.None? {
        BackwardsUpdate(c.pending, i, entry);
        RoomForOneMore(p, limits, outer + Backwards(c.pending), |outer| + |c.pending| - 1 - i, bound);
      }
      AmpleChargingSucceeds(p, limits, ChargeOne(p, limits, c, i), i + 1, outer, bound);
    }
  }

  // ---------------------------------------------------------------------------
  // One iteration of the machine
  // ---------------------------------------------------------------------------

  /** What one iteration owes: balanced books, and closed books when it returns a value. */
  ghost predicate KeepsBooks(p: Program, limits: Limits, progress: Progress) {
    match progress
    case Running(st') => Accounted(p, limits, st')
    case Halted(result, last) =>
      && (result.ValueStep? ==>
            last.stackBytes == 0 && Replay(last.events) == Some(Ledger(last.nextTicket, {})))
      && (IsExhaustion(result) ==> forall bound: nat :: !Ample(p, limits, bound))
    case Fault => true
  }

  lemma EmptyBooks(limits: Limits, st: State)
    requires Balanced(limits, st.stackBytes, st.nextTicket, st.events, [])
    ensures st.stackBytes == 0 && Replay(st.events) == Some(Ledger(st.nextTicket, {}))
  {
    var open := Replay(st.events).value.open;
    forall t: nat ensures t !in open {
      assert Sum([], Holds(t)) == if t in open then 1 else 0;
    }
    assert open == {};
  }

  lemma PublishBooks(p: Program, limits: Limits, st: State)
    requires InTransfer(p, st) && st.stack == []
    requires Balanced(limits, st.stackBytes, st.nextTicket, st.events, Peeled(st)) && Sized(p, Peeled(st))
    requires |Peeled(st)| <= st.store.steps <= limits.maxSteps
    ensures KeepsBooks(p, limits, Publish(p, limits, st))
  {
    var outer := Parked(st.transfer.parent);
    assert Peeled(st) == outer + Backwards(st.transfer.pending);
    var start := Charged(None, st.transfer.pending, st.nextTicket, st.stackBytes, st.events);
    var c := ChargeFrom(p, limits, start, 0);
    ChargingBalances(p, limits, start, 0, outer);
    if c.failure.Some? {
      forall bound: nat | Ample(p, limits, bound) ensures false {
        AmpleChargingSucceeds(p, limits, start, 0, outer, bound);
      }
    } else {
      hide HeldOnce, Replay;
      var st' := Publish(p, limits, st).state;
      var held := outer + Backwards(c.pending);
      assert Logical(st') == held + st'.stack;
      FramelessBalances(limits, c.stackBytes, c.events, c.nextTicket, held, st'.stack[0]);
    }
  }

  lemma UnwoundBooks(p: Program, limits: Limits, st: State)
    requires InTransfer(p, st)
    requires Balanced(limits, st.stackBytes, st.nextTicket, st.events, Peeled(st)) && Sized(p, Peeled(st))
    requires |Peeled(st)| <= st.store.steps <= limits.maxSteps
    ensures KeepsBooks(p, limits, Unwound(p, limits, st))
  {
    if st.stack == [] {
      PublishBooks(p, limits, st);
    } else {
      assert Peeled(st.(resumed := Some(st.transfer.step))) == Peeled(st);
    }
  }

  /** Replacing the top body, in the same function, keeps the frames and their sizes. */
  lemma NewTopBooks(p: Program, limits: Limits, st: State, rest: seq<Activation>, body: Body)
    requires st.stack != [] && Logical(st) == rest + [st.stack[|st.stack| - 1]]
    requires Accounted(p, limits, st) && body.fn == st.stack[|st.stack| - 1].body.fn
    ensures var held := rest + [st.stack[|st.stack| - 1].(body := body)];
            Balanced(limits, st.stackBytes, st.nextTicket, st.events, held) && Sized(p, held)
  {
  }

  lemma DoneBooks(p: Program, limits: Limits, st: State, step: Step, store: Store)
    requires Inv(p, st) && !Unwinding(st) && Accounted(p, limits, st)
    requires step.ValueStep? && st.store.steps <= store.steps
    ensures KeepsBooks(p, limits, OnDone(st, step, store))
  {
    var rest := Parked(st.transfer) + st.stack[..|st.stack| - 1];
    var top := st.stack[|st.stack| - 1];
    assert Logical(st) == rest + [top];
    ReleaseBalances(limits, st, rest, top);
    SizedPrefix(p, rest, top);
    DoneStack(p, st, step, store);
    var progress := OnDone(st, step, store);
    if progress.Halted? { EmptyBooks(limits, progress.last); }
  }

  lemma SizedPrefix(p: Program, rest: seq<Activation>, top: Activation)
    requires Sized(p, rest + [top])
    ensures Sized(p, rest)
  {
    assert forall i :: 0 <= i < |rest| ==> rest[i] == (rest + [top])[i];
  }

  lemma CallBooks(p: Program, limits: Limits, st: State, child: CallRequest, body: Body, store: Store)
    requires Inv(p, st) && !Unwinding(st) && Accounted(p, limits, st)
    requires body.fn == st.stack[|st.stack| - 1].body.fn && st.store.steps < store.steps
    ensures KeepsBooks(p, limits, OnCall(limits, st, child, body, store))
  {
    var rest := Parked(st.transfer) + st.stack[..|st.stack| - 1];
    var top := st.stack[|st.stack| - 1];
    assert Logical(st) == rest + [top];
    NewTopBooks(p, limits, st, rest, body);
    var held := rest + [top.(body := body)];
    var callee := Activation(Enter(child, body.depth + 1), None);
    FramelessBalances(limits, st.stackBytes, st.events, st.nextTicket, held, callee);
    var progress := OnCall(limits, st, child, body, store);
    if progress.Running? {
      assert Logical(progress.state) == held + [callee];
    }
  }

  /** The books of a transfer that has just begun. */
  lemma OriginatedBooks(p: Program, limits: Limits, st: State, child: CallRequest, body: Body, store: Store, rest: seq<Activation>)
    requires st.stack != [] && Logical(st) == rest + [st.stack[|st.stack| - 1]]
    requires Accounted(p, limits, st) && body.fn == st.stack[|st.stack| - 1].body.fn
    requires !Unwinding(st) && st.store.steps < store.steps <= limits.maxSteps
    requires InTransfer(p, Originated(st, child, body, store))
    requires Peeled(Originated(st, child, body, store)) == rest + [st.stack[|st.stack| - 1].(body := body)]
    ensures KeepsBooks(p, limits, Unwound(p, limits, Originated(st, child, body, store)))
  {
    hide InTransfer, Unwound, Peeled, Logical, Balanced, Sized, KeepsBooks;
    NewTopBooks(p, limits, st, rest, body);
    UnwoundBooks(p, limits, Originated(st, child, body, store));
  }

  lemma OriginBooks(p: Program, limits: Limits, st: State, child: CallRequest, body: Body, store: Store)
    requires Verified(p) && Inv(p, st) && !Unwinding(st) && Accounted(p, limits, st)
    requires store.steps <= limits.maxSteps
    requires AgreesWithPlain(p, limits, Active(p, st), Framed(st), Owing(p, LiveCallers(st)), st.store, st.stackBytes,
                             Yielded(OriginRequested(child), body, store))
    ensures KeepsBooks(p, limits, OnOrigin(p, limits, st, child, body, store))
  {
    hide *;
    OriginMeaning(p, limits, st, child, body, store);
    OriginFacts(p, limits, st, child, body, store);
    OriginatedBooks(p, limits, st, child, body, store, Parked(st.transfer) + st.stack[..|st.stack| - 1]);
  }

  /** What an origin keeps of its activation, and where that stands. */
  lemma OriginFacts(p: Program, limits: Limits, st: State, child: CallRequest, body: Body, store: Store)
    requires Inv(p, st) && !Unwinding(st)
    requires AgreesWithPlain(p, limits, Active(p, st), Framed(st), Owing(p, LiveCallers(st)), st.store, st.stackBytes,
                             Yielded(OriginRequested(child), body, store))
    ensures st.stack != [] && body.fn == st.stack[|st.stack| - 1].body.fn && st.store.steps < store.steps
    ensures Logical(st) == Parked(st.transfer) + st.stack[..|st.stack| - 1] + [st.stack[|st.stack| - 1]]
    ensures OnOrigin(p, limits, st, child, body, store) == Unwound(p, limits, Originated(st, child, body, store))
  {
    ActiveIsOnTop(p, st);
    hide Meter, Suspended, Unwound, Stacked, LiveChain, Owing, LiveCallers, Awaiting, Active, Parked, ChargeAll;
  }

  /** One iteration keeps the books, and a run that returns a value has closed them. */
  lemma AdvanceBooks(p: Program, limits: Limits, st: State)
    requires Verified(p) && Inv(p, st) && st.store.steps <= limits.maxSteps
    requires Accounted(p, limits, st)
    ensures KeepsBooks(p, limits, AdvanceMachine(p, limits, st))
  {
    if Unwinding(st) {
      var st' := RelayStep(p, limits, st);
      UnwoundBooks(p, limits, st');
    } else {
      ActiveIsOnTop(p, st);
      RunBodyAgrees(p, limits, Active(p, st), Framed(st), Owing(p, LiveCallers(st)), st.store, st.stackBytes);
      var top := st.stack[|st.stack| - 1].body;
      var advanced := AdvanceBody(p, limits.maxSteps, top, st.resumed, st.store);
      assert advanced == RunBody(p, limits.maxSteps, Active(p, st), st.store);
      match advanced
      case Done(step, store) =>
        if step.ValueStep? { DoneBooks(p, limits, st, step, store); }
      case Yielded(CallRequested(child), body, store) => CallBooks(p, limits, st, child, body, store);
      case Yielded(OriginRequested(child), body, store) => OriginBooks(p, limits, st, child, body, store);
      case Yielded(RelayRequested(_, _), _, _) =>
    }
  }
}
