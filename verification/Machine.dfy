/**
 The evaluator's activation machine: function bodies as resumable activations, and the driver
 that calls them, unwinds them into pending lists on a suspension, and resumes them one by one.

 A body is a defunctionalised generator. Advancing it either finishes it or yields one of the
 three machine requests: call a function, originate a transfer and hand over a child, or relay
 a transfer that came out of a call.
 */
module Machine {
  import opened Wrappers

  type Value = int

  /** What a call site does when the called activation comes back as a transfer. */
  datatype Relay = Unrelayed | Relayed(state: Option<nat>)

  datatype Instruction =
    | Constant(destination: nat, value: Value)
    | Add(destination: nat, left: nat, right: nat)
    | LoadCell(destination: nat, cell: nat)
    | StoreCell(cell: nat, source: nat)
    | BranchIfZero(condition: nat, target: nat)
    | Call(destination: nat, target: nat, arguments: seq<nat>, relay: Relay)
    | Suspend(destination: nat, target: nat, arguments: seq<nat>)
    | Return(source: nat)
    | Fail(reason: nat)

  datatype Classification = Synchronous | Suspendable

  datatype MirFunction = MirFunction(classification: Classification, code: seq<Instruction>, frameSize: nat)

  datatype Program = Program(functions: seq<MirFunction>)

  datatype Limits = Limits(maxSteps: nat, maxCallDepth: nat, maxStackBytes: nat)

  /** The evaluator state that function bodies themselves read and write. */
  datatype Store = Store(cells: map<nat, Value>, steps: nat)

  datatype BlockedReason =
    | StepLimit(count: nat)
    | CallDepthLimit(count: nat)
    | Trap(reason: nat)
    | MissingFunction(target: nat)
    | MalformedCode
    | StackExhausted(fn: nat)

  datatype CallRequest = CallRequest(target: nat, arguments: seq<Value>)

  /** `serial` stands for the object identity by which a relay recognises its transfer. */
  datatype Step =
    | ValueStep(value: Value)
    | Blocked(reason: BlockedReason)
    | TransferStep(serial: nat, child: CallRequest)

  datatype Body = Body(fn: nat, pc: nat, locals: map<nat, Value>, waiting: bool, depth: nat)

  datatype Request =
    | CallRequested(child: CallRequest)
    | OriginRequested(child: CallRequest)
    | RelayRequested(transfer: Step, state: Option<nat>)

  datatype Advanced =
    | Done(step: Step, store: Store)
    | Yielded(request: Request, body: Body, store: Store)

  // ---------------------------------------------------------------------------
  // Function bodies
  // ---------------------------------------------------------------------------

  function InstructionAt(p: Program, b: Body): Option<Instruction> {
    if b.fn < |p.functions| && b.pc < |p.functions[b.fn].code|
    then Some(p.functions[b.fn].code[b.pc])
    else None
  }

  function Read(locals: map<nat, Value>, local: nat): Value {
    if local in locals then locals[local] else 0
  }

  function ReadAll(locals: map<nat, Value>, arguments: seq<nat>): seq<Value> {
    seq(|arguments|, i requires 0 <= i < |arguments| => Read(locals, arguments[i]))
  }

  function Enter(child: CallRequest, depth: nat): Body {
    Body(child.target, 0, map i: nat | i < |child.arguments| :: child.arguments[i], false, depth)
  }

  /** The body after the value of its pending call or suspension has been written. */
  function Deliver(b: Body, destination: nat, value: Value): Body {
    b.(waiting := false, locals := b.locals[destination := value], pc := b.pc + 1)
  }

  /** One instruction that makes no request: the next body and the next cells. */
  function ExecuteLocal(i: Instruction, b: Body, cells: map<nat, Value>): (Body, map<nat, Value>) {
    match i
    case Constant(d, v) => (b.(locals := b.locals[d := v], pc := b.pc + 1), cells)
    case Add(d, l, r) => (b.(locals := b.locals[d := Read(b.locals, l) + Read(b.locals, r)], pc := b.pc + 1), cells)
    case LoadCell(d, c) => (b.(locals := b.locals[d := Read(cells, c)], pc := b.pc + 1), cells)
    case StoreCell(c, s) => (b.(pc := b.pc + 1), cells[c := Read(b.locals, s)])
    case BranchIfZero(c, t) => (b.(pc := if Read(b.locals, c) == 0 then t else b.pc + 1), cells)
    case _ => (b, cells)
  }

  /** Runs a body from its current instruction to its next request or to its end. */
  function RunBody(p: Program, maxSteps: nat, b: Body, s: Store): (r: Advanced)
    ensures s.steps <= r.store.steps
    ensures s.steps <= maxSteps ==> r.store.steps <= maxSteps
    decreases maxSteps - s.steps
  {
    var at := InstructionAt(p, b);
    if at.None? then Done(Blocked(MalformedCode), s)
    else if at.value.Return? then Done(ValueStep(Read(b.locals, at.value.source)), s)
    else if s.steps >= maxSteps then Done(Blocked(StepLimit(s.steps)), s)
    else
      var i, s' := at.value, s.(steps := s.steps + 1);
      if i.Fail? then Done(Blocked(Trap(i.reason)), s')
      else if i.Call? || i.Suspend? then
        if i.target >= |p.functions| then Done(Blocked(MissingFunction(i.target)), s')
        else
          var child := CallRequest(i.target, ReadAll(b.locals, i.arguments));
          Yielded(if i.Call? then CallRequested(child) else OriginRequested(child), b.(waiting := true), s')
      else
        var (b', cells') := ExecuteLocal(i, b, s.cells);
        RunBody(p, maxSteps, b', s'.(cells := cells'))
  }

  /** Feeds the answer to the request a body is waiting on. */
  function ResumeBody(p: Program, maxSteps: nat, b: Body, answer: Step, s: Store): (r: Advanced)
    ensures s.steps <= r.store.steps
    ensures s.steps <= maxSteps ==> r.store.steps <= maxSteps
  {
    var at := InstructionAt(p, b);
    if at.None? || !(at.value.Call? || at.value.Suspend?) then Done(Blocked(MalformedCode), s)
    else if answer.ValueStep? then RunBody(p, maxSteps, Deliver(b, at.value.destination, answer.value), s)
    else if answer.TransferStep? && at.value.Call? && at.value.relay.Relayed? then
      Yielded(RelayRequested(answer, at.value.relay.state), b, s)
    else Done(answer, s)
  }

  function AdvanceBody(p: Program, maxSteps: nat, b: Body, resumed: Option<Step>, s: Store): (r: Advanced)
    ensures s.steps <= r.store.steps
    ensures s.steps <= maxSteps ==> r.store.steps <= maxSteps
  {
    if !b.waiting then RunBody(p, maxSteps, b, s)
    else if resumed.None? then Done(Blocked(MalformedCode), s)
    else ResumeBody(p, maxSteps, b, resumed.value, s)
  }

  // ---------------------------------------------------------------------------
  // The driver
  // ---------------------------------------------------------------------------

  datatype CoroutineFrame = CoroutineFrame(ticket: nat, bytes: nat, point: nat)

  datatype Activation = Activation(body: Body, frame: Option<CoroutineFrame>)

  datatype Pending = Pending(activation: Activation, state: Option<nat>)

  datatype Transfer =
    | NoTransfer
    | Context(step: Step, pending: seq<Pending>, parent: Transfer)

  datatype FrameEvent = FramePush(ticket: nat) | FrameComplete(ticket: nat)

  datatype State = State(
    stack: seq<Activation>,
    transfer: Transfer,
    resumed: Option<Step>,
    store: Store,
    nextTicket: nat,
    stackBytes: int,
    events: seq<FrameEvent>)

  /** `Fault` is an internal error of the machine: a thrown RangeError. */
  datatype Progress = Running(state: State) | Halted(result: Step, last: State) | Fault

  function ReleaseFrame(a: Activation, st: State): State {
    match a.frame
    case None => st
    case Some(frame) =>
      st.(stackBytes := st.stackBytes - frame.bytes, events := st.events + [FrameComplete(frame.ticket)])
  }

  /** Takes the first pending activation of the innermost context that still has one. */
  function Shift(t: Transfer): (Option<Pending>, Transfer) {
    match t
    case NoTransfer => (None, NoTransfer)
    case Context(step, pending, parent) =>
      if pending != [] then (Some(pending[0]), Context(step, pending[1..], parent))
      else if parent.NoTransfer? then (None, t)
      else Shift(parent)
  }

  function SuspendedDepth(t: Transfer): nat {
    if t.NoTransfer? then 0 else |t.pending| + SuspendedDepth(t.parent)
  }

  /** The frame storage after charging pending activations from position `i` on. */
  datatype Charged = Charged(
    failure: Option<BlockedReason>,
    pending: seq<Pending>,
    nextTicket: nat,
    stackBytes: int,
    events: seq<FrameEvent>)

  /** Gives one pending activation its frame, or moves the resume point of the frame it has. */
  function ChargeOne(p: Program, limits: Limits, c: Charged, i: nat): (r: Charged)
    requires i < |c.pending| && c.failure.None?
    ensures |r.pending| == |c.pending|
  {
    var entry := c.pending[i];
    if entry.state.None? then c
    else
      var point := entry.state.value;
      var body := entry.activation.body;
      match entry.activation.frame
      case Some(frame) =>
        c.(pending := c.pending[i := entry.(activation := entry.activation.(frame := Some(frame.(point := point))))])
      case None =>
        var bytes := FrameSize(p, body.fn);
        if c.stackBytes + bytes > limits.maxStackBytes then
          c.(failure := Some(StackExhausted(body.fn)))
        else
          var frame := CoroutineFrame(c.nextTicket, bytes, point);
          Charged(None,
                  c.pending[i := entry.(activation := entry.activation.(frame := Some(frame)))],
                  c.nextTicket + 1,
                  c.stackBytes + bytes,
                  c.events + [FramePush(c.nextTicket)])
  }

  function FrameSize(p: Program, fn: nat): nat {
    if fn < |p.functions| then p.functions[fn].frameSize else 0
  }

  function ChargeFrom(p: Program, limits: Limits, c: Charged, i: nat): (r: Charged)
    ensures |r.pending| == |c.pending|
    decreases |c.pending| - i
  {
    if i >= |c.pending| || c.failure.Some? then c
    else ChargeFrom(p, limits, ChargeOne(p, limits, c, i), i + 1)
  }

  /** Charges the frames of a fully unwound transfer and starts its child. */
  function Publish(p: Program, limits: Limits, st: State): Progress {
    if st.transfer.NoTransfer? || st.transfer.pending == [] || !st.transfer.step.TransferStep? then Fault
    else
      var c := ChargeFrom(p, limits, Charged(None, st.transfer.pending, st.nextTicket, st.stackBytes, st.events), 0);
      var charged := st.(transfer := st.transfer.(pending := c.pending), nextTicket := c.nextTicket,
                         stackBytes := c.stackBytes, events := c.events, resumed := None);
      if c.failure.Some? then Halted(Blocked(c.failure.value), charged)
      else
        var child := Enter(st.transfer.step.child, c.pending[0].activation.body.depth + 1);
        Running(charged.(stack := st.stack + [Activation(child, None)]))
  }

  /** The top activation finished: return its step to the caller below, or resume a pending one. */
  function OnDone(st: State, step: Step, store: Store): Progress
    requires st.stack != []
  {
    var top := st.stack[|st.stack| - 1];
    var popped := st.(stack := st.stack[..|st.stack| - 1], store := store, resumed := None);
    if step.Blocked? then Halted(step, popped)
    else
      var released := ReleaseFrame(top, popped);
      if released.stack != [] then Running(released.(resumed := Some(step)))
      else
        var (next, transfer) := Shift(st.transfer);
        if next.None? then Halted(step, released.(transfer := NoTransfer))
        else Running(released.(stack := [next.value.activation], transfer := transfer, resumed := Some(step)))
  }

  function OnCall(limits: Limits, st: State, child: CallRequest, body: Body, store: Store): Progress
    requires st.stack != []
  {
    var caller := st.stack[|st.stack| - 1].(body := body);
    var waiting := st.(stack := st.stack[..|st.stack| - 1] + [caller], store := store, resumed := None);
    var count := |st.stack| + SuspendedDepth(st.transfer);
    if count >= limits.maxCallDepth then Halted(Blocked(CallDepthLimit(count)), waiting)
    else Running(waiting.(stack := waiting.stack + [Activation(Enter(child, body.depth + 1), None)]))
  }

  /** Hands the transfer to the caller below, or publishes it when nothing is left to unwind. */
  function Unwound(p: Program, limits: Limits, st: State): Progress
    requires st.transfer.Context?
  {
    if st.stack != [] then Running(st.(resumed := Some(st.transfer.step))) else Publish(p, limits, st)
  }

  function OnOrigin(p: Program, limits: Limits, st: State, child: CallRequest, body: Body, store: Store): Progress
    requires st.stack != []
  {
    var origin := st.stack[|st.stack| - 1].(body := body);
    var transfer := Context(TransferStep(store.steps, child), [Pending(origin, None)], st.transfer);
    Unwound(p, limits, st.(stack := st.stack[..|st.stack| - 1], store := store, transfer := transfer))
  }

  function OnRelay(p: Program, limits: Limits, st: State, step: Step, state: Option<nat>, body: Body, store: Store): Progress
    requires st.stack != []
  {
    if st.transfer.NoTransfer? || st.transfer.step != step then Fault
    else
      var relay := st.stack[|st.stack| - 1].(body := body);
      var transfer := st.transfer.(pending := st.transfer.pending + [Pending(relay, state)]);
      Unwound(p, limits, st.(stack := st.stack[..|st.stack| - 1], store := store, transfer := transfer))
  }

  /** One iteration of the machine loop. */
  function AdvanceMachine(p: Program, limits: Limits, st: State): Progress {
    if st.stack == [] then Fault
    else
      match AdvanceBody(p, limits.maxSteps, st.stack[|st.stack| - 1].body, st.resumed, st.store)
      case Done(step, store) => OnDone(st, step, store)
      case Yielded(CallRequested(child), body, store) => OnCall(limits, st, child, body, store)
      case Yielded(OriginRequested(child), body, store) => OnOrigin(p, limits, st, child, body, store)
      case Yielded(RelayRequested(step, state), body, store) => OnRelay(p, limits, st, step, state, body, store)
  }

  function Initial(entry: CallRequest, store: Store): State {
    State([Activation(Enter(entry, 1), None)], NoTransfer, None, store, 0, 0, [])
  }

  /** The machine after `n` iterations, or where it stopped before that. */
  function Iterate(p: Program, limits: Limits, st: State, n: nat): Progress {
    if n == 0 then Running(st)
    else
      match Iterate(p, limits, st, n - 1)
      case Running(st') => AdvanceMachine(p, limits, st')
      case stopped => stopped
  }
}
