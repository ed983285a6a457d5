/**
 What the instructions mean, instruction by instruction and without the helpers that execute them: for plain
 evaluation, for a body run by the machine, and for the storage of frames.
 */
module MachineMeaning {
  import opened Wrappers
  import opened Machine
  import opened PlainEvaluation

  // ---------------------------------------------------------------------------
  // Locals and cells
  // ---------------------------------------------------------------------------

  /** What is read: the value last stored, or zero where there is none. */
  predicate Reads(values: map<nat, Value>, at: nat, value: Value) {
    if at in values then value == values[at] else value == 0
  }

  /** The value is readable where it was stored, and everything else is as before. */
  ghost predicate Stored(before: map<nat, Value>, after: map<nat, Value>, at: nat, value: Value) {
    && at in after && after[at] == value
    && forall other :: other != at ==>
         (other in after <==> other in before) && (other in before ==> after[other] == before[other])
  }

  /** The same activation, at an instruction, with these locals. */
  ghost predicate Moved(b: Body, after: Body, pc: nat) {
    after.fn == b.fn && after.depth == b.depth && after.pc == pc
  }

  /** What an instruction that asks for nothing does to a body and to the cells. */
  ghost predicate Executes(i: Instruction, b: Body, cells: map<nat, Value>, after: Body, cells': map<nat, Value>) {
    after.waiting == b.waiting
    && match i
       case Constant(d, v) => Moved(b, after, b.pc + 1) && Stored(b.locals, after.locals, d, v) && cells' == cells
       case Add(d, l, r) =>
         && Moved(b, after, b.pc + 1) && cells' == cells
         && exists x, y :: Reads(b.locals, l, x) && Reads(b.locals, r, y) && Stored(b.locals, after.locals, d, x + y)
       case LoadCell(d, c) =>
         && Moved(b, after, b.pc + 1) && cells' == cells
         && exists x :: Reads(cells, c, x) && Stored(b.locals, after.locals, d, x)
       case StoreCell(c, source) =>
         && Moved(b, after, b.pc + 1) && after.locals == b.locals
         && exists x :: Reads(b.locals, source, x) && Stored(cells, cells', c, x)
       case BranchIfZero(c, target) =>
         && after.locals == b.locals && cells' == cells
         && if Reads(b.locals, c, 0) then Moved(b, after, target) else Moved(b, after, b.pc + 1)
       case _ => false
  }

  /** The arguments a caller hands over. */
  ghost predicate Passes(b: Body, arguments: seq<nat>, values: seq<Value>) {
    |values| == |arguments| && forall i :: 0 <= i < |arguments| ==> Reads(b.locals, arguments[i], values[i])
  }

  /** A callee at its first instruction: parameter `i` holds argument `i`, and no other local is set. */
  ghost predicate Entered(callee: Body, target: nat, values: seq<Value>, depth: nat) {
    && callee.fn == target && callee.pc == 0 && !callee.waiting && callee.depth == depth
    && forall l: nat :: (l in callee.locals <==> l < |values|) && (l < |values| ==> callee.locals[l] == values[l])
  }

  /** A caller goes on at the instruction after its call, with the callee's value where the call wanted it. */
  ghost predicate Received(b: Body, after: Body, destination: nat, value: Value) {
    Moved(b, after, b.pc + 1) && !after.waiting && Stored(b.locals, after.locals, destination, value)
  }

  lemma EnteredIsEnter(child: CallRequest, depth: nat)
    ensures Entered(Enter(child, depth), child.target, child.arguments, depth)
  {
  }

  lemma ReadsRead(values: map<nat, Value>, at: nat)
    ensures Reads(values, at, Read(values, at))
  {
  }

  lemma ExecutesLocal(i: Instruction, b: Body, cells: map<nat, Value>)
    requires i.Constant? || i.Add? || i.LoadCell? || i.StoreCell? || i.BranchIfZero?
    ensures var (after, cells') := ExecuteLocal(i, b, cells); Executes(i, b, cells, after, cells')
  {
    match i
    case Add(d, l, r) =>
      ReadsRead(b.locals, l);
      ReadsRead(b.locals, r);
    case LoadCell(d, c) => ReadsRead(cells, c);
    case StoreCell(c, source) => ReadsRead(b.locals, source);
    case _ =>
  }

  // ---------------------------------------------------------------------------
  // Plain evaluation
  // ---------------------------------------------------------------------------

  /** A way to evaluate bodies. */
  type Evaluation = (Body, Store) -> (Step, Store)

  /** A call or a suspension: the callee is evaluated, and the caller goes on with its value or stops as it did. */
  ghost predicate CallMeans(evaluate: Evaluation, b: Body, target: nat, arguments: seq<nat>, destination: nat, s: Store, r: (Step, Store)) {
    exists values, callee :: Passes(b, arguments, values) && Entered(callee, target, values, b.depth + 1)
      && GoesOn(evaluate, b, destination, evaluate(callee, s), r)
  }

  /** An instruction that asks for nothing: it takes effect, and evaluation goes on. */
  ghost predicate LocalMeans(evaluate: Evaluation, b: Body, i: Instruction, s: Store, r: (Step, Store)) {
    exists after, cells' :: Executes(i, b, s.cells, after, cells') && r == evaluate(after, Store(cells', s.steps + 1))
  }

  /** With a value the caller goes on after its call; any other answer is its own. */
  ghost predicate GoesOn(evaluate: Evaluation, b: Body, destination: nat, answer: (Step, Store), r: (Step, Store)) {
    if answer.0.ValueStep? then exists after :: Received(b, after, destination, answer.0.value) && r == evaluate(after, answer.1)
    else r == answer
  }

  /** What evaluating a body comes to, by the instruction it stands at. */
  ghost predicate PlainMeans(p: Program, limits: Limits, evaluate: Evaluation, b: Body, s: Store, r: (Step, Store)) {
    if b.fn >= |p.functions| || b.pc >= |p.functions[b.fn].code| then r == (Blocked(MalformedCode), s)
    else
      var i, spent := p.functions[b.fn].code[b.pc], Store(s.cells, s.steps + 1);
      if i.Return? then r.1 == s && r.0.ValueStep? && Reads(b.locals, i.source, r.0.value)
      else if s.steps >= limits.maxSteps then r == (Blocked(StepLimit(s.steps)), s)
      else
        match i
        case Fail(reason) => r == (Blocked(Trap(reason)), spent)
        case Call(d, target, arguments, _) =>
          if target >= |p.functions| then r == (Blocked(MissingFunction(target)), spent)
          else if b.depth >= limits.maxCallDepth then r == (Blocked(CallDepthLimit(b.depth)), spent)
          else CallMeans(evaluate, b, target, arguments, d, spent, r)
        case Suspend(d, target, arguments) =>
          if target >= |p.functions| then r == (Blocked(MissingFunction(target)), spent)
          else CallMeans(evaluate, b, target, arguments, d, spent, r)
        case _ => LocalMeans(evaluate, b, i, s, r)
  }

  /** Plain evaluation of one program. */
  ghost function Evaluating(p: Program, limits: Limits): Evaluation {
    (b: Body, s: Store) => Evaluate(p, limits, b, s)
  }

  /** The body stands at an instruction that asks for nothing, with a step left. */
  ghost predicate RunsLocally(p: Program, maxSteps: nat, b: Body, s: Store) {
    && InstructionAt(p, b).Some? && s.steps < maxSteps
    && var i := InstructionAt(p, b).value; i.Constant? || i.Add? || i.LoadCell? || i.StoreCell? || i.BranchIfZero?
  }

  lemma EvaluateUnfolds(p: Program, limits: Limits, b: Body, s: Store)
    requires RunsLocally(p, limits.maxSteps, b, s)
    ensures var (after, cells') := ExecuteLocal(InstructionAt(p, b).value, b, s.cells);
            Evaluate(p, limits, b, s) == Evaluate(p, limits, after, Store(cells', s.steps + 1))
  {
    hide ExecuteLocal;
  }

  lemma LocalEvaluates(p: Program, limits: Limits, b: Body, s: Store)
    requires RunsLocally(p, limits.maxSteps, b, s)
    ensures LocalMeans(Evaluating(p, limits), b, InstructionAt(p, b).value, s, Evaluate(p, limits, b, s))
  {
    hide Evaluate, Executes, ExecuteLocal;
    var i := InstructionAt(p, b).value;
    var (after, cells') := ExecuteLocal(i, b, s.cells);
    ExecutesLocal(i, b, s.cells);
    EvaluateUnfolds(p, limits, b, s);
    assert Evaluating(p, limits)(after, Store(cells', s.steps + 1)) == Evaluate(p, limits, b, s);
  }

  lemma CallEvaluates(p: Program, limits: Limits, b: Body, target: nat, arguments: seq<nat>, destination: nat, s: Store)
    ensures var (answer, s') := Evaluate(p, limits, Enter(CallRequest(target, ReadAll(b.locals, arguments)), b.depth + 1), s);
            var r := if answer.ValueStep? then Evaluate(p, limits, Deliver(b, destination, answer.value), s') else (answer, s');
            CallMeans(Evaluating(p, limits), b, target, arguments, destination, s, r)
  {
    var values := ReadAll(b.locals, arguments);
    var callee := Enter(CallRequest(target, values), b.depth + 1);
    assert Passes(b, arguments, values);
    EnteredIsEnter(CallRequest(target, values), b.depth + 1);
    var evaluate := Evaluating(p, limits);
    var (answer, s') := evaluate(callee, s);
    if answer.ValueStep? {
      var after := Deliver(b, destination, answer.value);
      assert Received(b, after, destination, answer.value) && evaluate(after, s') == Evaluate(p, limits, after, s');
    }
    assert GoesOn(evaluate, b, destination, evaluate(callee, s), if answer.ValueStep? then Evaluate(p, limits, Deliver(b, destination, answer.value), s') else (answer, s'));
  }

  /** Plain evaluation means what its instructions say. */
  lemma EvaluateMeans(p: Program, limits: Limits, b: Body, s: Store)
    ensures PlainMeans(p, limits, Evaluating(p, limits), b, s, Evaluate(p, limits, b, s))
  {
    hide CallMeans, LocalMeans, ExecuteLocal, Evaluating;
    var at := InstructionAt(p, b);
    if at.Some? {
      var i := at.value;
      if i.Return? { ReadsRead(b.locals, i.source); }
      else if i.Call? || i.Suspend? {
        CallEvaluates(p, limits, b, i.target, i.arguments, i.destination, s.(steps := s.steps + 1));
      } else if !i.Fail? && s.steps < limits.maxSteps {
        LocalEvaluates(p, limits, b, s);
      }
    }
  }

  lemma StoredIsUpdated(before: map<nat, Value>, after: map<nat, Value>, at: nat, value: Value)
    requires Stored(before, after, at, value)
    ensures after == before[at := value]
  {
  }

  lemma ExecutedIsLocal(i: Instruction, b: Body, cells: map<nat, Value>, after: Body, cells': map<nat, Value>)
    requires Executes(i, b, cells, after, cells')
    ensures ExecuteLocal(i, b, cells) == (after, cells')
  {
    match i
    case Constant(d, v) => StoredIsUpdated(b.locals, after.locals, d, v);
    case Add(d, l, r) => StoredIsUpdated(b.locals, after.locals, d, Read(b.locals, l) + Read(b.locals, r));
    case LoadCell(d, c) => StoredIsUpdated(b.locals, after.locals, d, Read(cells, c));
    case StoreCell(c, source) => StoredIsUpdated(cells, cells', c, Read(b.locals, source));
    case BranchIfZero(_, _) =>
  }

  /** And whatever means what the instructions say is plain evaluation. */
  lemma {:induction false} OnlyEvaluateMeans(p: Program, limits: Limits, evaluate: Evaluation, b: Body, s: Store)
    requires forall c, t :: PlainMeans(p, limits, evaluate, c, t, evaluate(c, t))
    ensures evaluate(b, s) == Evaluate(p, limits, b, s)
    decreases limits.maxSteps - s.steps
  {
    assert PlainMeans(p, limits, evaluate, b, s, evaluate(b, s));
    var at := InstructionAt(p, b);
    if at.Some? && !at.value.Return? && s.steps < limits.maxSteps {
      var i, spent := at.value, s.(steps := s.steps + 1);
      if i.Call? || i.Suspend? {
        if i.target < |p.functions| && !(i.Call? && b.depth >= limits.maxCallDepth) {
          assert CallMeans(evaluate, b, i.target, i.arguments, i.destination, spent, evaluate(b, s));
          OnlyCall(p, limits, evaluate, b, i.target, i.arguments, i.destination, s, evaluate(b, s));
        }
      } else if !i.Fail? {
        var after, cells' :| Executes(i, b, s.cells, after, cells') && evaluate(b, s) == evaluate(after, Store(cells', s.steps + 1));
        ExecutedIsLocal(i, b, s.cells, after, cells');
        OnlyEvaluateMeans(p, limits, evaluate, after, Store(cells', s.steps + 1));
      }
    }
  }

  lemma {:induction false} OnlyCall(p: Program, limits: Limits, evaluate: Evaluation, b: Body, target: nat, arguments: seq<nat>, destination: nat, s: Store, r: (Step, Store))
    requires forall c, t :: PlainMeans(p, limits, evaluate, c, t, evaluate(c, t))
    requires s.steps < limits.maxSteps && CallMeans(evaluate, b, target, arguments, destination, s.(steps := s.steps + 1), r)
    ensures var (answer, s') := Evaluate(p, limits, Enter(CallRequest(target, ReadAll(b.locals, arguments)), b.depth + 1), s.(steps := s.steps + 1));
            r == if answer.ValueStep? then Evaluate(p, limits, Deliver(b, destination, answer.value), s') else (answer, s')
    decreases limits.maxSteps - s.steps, 0
  {
    hide PlainMeans;
    var spent := s.(steps := s.steps + 1);
    var values, callee :| Passes(b, arguments, values) && Entered(callee, target, values, b.depth + 1)
      && GoesOn(evaluate, b, destination, evaluate(callee, spent), r);
    assert values == ReadAll(b.locals, arguments);
    assert callee.locals == Enter(CallRequest(target, values), b.depth + 1).locals;
    OnlyEvaluateMeans(p, limits, evaluate, callee, spent);
    var answer := evaluate(callee, spent);
    if answer.0.ValueStep? {
      var after :| Received(b, after, destination, answer.0.value) && r == evaluate(after, answer.1);
      StoredIsUpdated(b.locals, after.locals, destination, answer.0.value);
      OnlyEvaluateMeans(p, limits, evaluate, after, answer.1);
    }
  }

  // ---------------------------------------------------------------------------
  // A body run by the machine
  // ---------------------------------------------------------------------------

  /** What running a body comes to, by the instruction it stands at. */
  ghost predicate BodyMeans(p: Program, maxSteps: nat, b: Body, s: Store, r: Advanced) {
    if b.fn >= |p.functions| || b.pc >= |p.functions[b.fn].code| then r == Done(Blocked(MalformedCode), s)
    else
      var i, spent := p.functions[b.fn].code[b.pc], Store(s.cells, s.steps + 1);
      if i.Return? then r.Done? && r.store == s && r.step.ValueStep? && Reads(b.locals, i.source, r.step.value)
      else if s.steps >= maxSteps then r == Done(Blocked(StepLimit(s.steps)), s)
      else
        match i
        case Fail(reason) => r == Done(Blocked(Trap(reason)), spent)
        case Call(_, target, arguments, _) =>
          if target >= |p.functions| then r == Done(Blocked(MissingFunction(target)), spent)
          else exists values :: Passes(b, arguments, values) && r == Yielded(CallRequested(CallRequest(target, values)), b.(waiting := true), spent)
        case Suspend(_, target, arguments) =>
          if target >= |p.functions| then r == Done(Blocked(MissingFunction(target)), spent)
          else exists values :: Passes(b, arguments, values) && r == Yielded(OriginRequested(CallRequest(target, values)), b.(waiting := true), spent)
        case _ =>
          exists after, cells' :: Executes(i, b, s.cells, after, cells') && r == RunBody(p, maxSteps, after, Store(cells', s.steps + 1))
  }

  /** What a waiting body makes of the answer to its request. */
  ghost predicate AnswerMeans(p: Program, maxSteps: nat, b: Body, answer: Step, s: Store, r: Advanced) {
    if b.fn >= |p.functions| || b.pc >= |p.functions[b.fn].code| then r == Done(Blocked(MalformedCode), s)
    else
      match p.functions[b.fn].code[b.pc]
      case Call(d, _, _, relay) =>
        if answer.ValueStep? then exists after :: Received(b, after, d, answer.value) && r == RunBody(p, maxSteps, after, s)
        else if answer.TransferStep? && relay.Relayed? then r == Yielded(RelayRequested(answer, relay.state), b, s)
        else r == Done(answer, s)
      case Suspend(d, _, _) =>
        if answer.ValueStep? then exists after :: Received(b, after, d, answer.value) && r == RunBody(p, maxSteps, after, s)
        else r == Done(answer, s)
      case _ => r == Done(Blocked(MalformedCode), s)
  }

  lemma RunBodyUnfolds(p: Program, maxSteps: nat, b: Body, s: Store)
    requires RunsLocally(p, maxSteps, b, s)
    ensures var (after, cells') := ExecuteLocal(InstructionAt(p, b).value, b, s.cells);
            RunBody(p, maxSteps, b, s) == RunBody(p, maxSteps, after, Store(cells', s.steps + 1))
  {
    hide ExecuteLocal;
  }

  lemma RunBodyMeans(p: Program, maxSteps: nat, b: Body, s: Store)
    ensures BodyMeans(p, maxSteps, b, s, RunBody(p, maxSteps, b, s))
  {
    hide Executes, ExecuteLocal;
    var at := InstructionAt(p, b);
    if at.Some? {
      var i := at.value;
      if i.Return? {
        ReadsRead(b.locals, i.source);
      } else if i.Call? || i.Suspend? {
        assert Passes(b, i.arguments, ReadAll(b.locals, i.arguments));
      } else if RunsLocally(p, maxSteps, b, s) {
        RunBodyUnfolds(p, maxSteps, b, s);
        ExecutesLocal(i, b, s.cells);
        var (after, cells') := ExecuteLocal(i, b, s.cells);
        assert Executes(i, b, s.cells, after, cells');
      }
    }
  }

  lemma ResumeBodyMeans(p: Program, maxSteps: nat, b: Body, answer: Step, s: Store)
    ensures AnswerMeans(p, maxSteps, b, answer, s, ResumeBody(p, maxSteps, b, answer, s))
  {
    var at := InstructionAt(p, b);
    if at.Some? && (at.value.Call? || at.value.Suspend?) && answer.ValueStep? {
      assert Received(b, Deliver(b, at.value.destination, answer.value), at.value.destination, answer.value);
    }
  }

  // ---------------------------------------------------------------------------
  // Frames
  // ---------------------------------------------------------------------------

  /** The bytes the functions were laid out to need for a frame. */
  ghost function Bytes(p: Program, fn: nat): nat {
    if fn < |p.functions| then p.functions[fn].frameSize else 0
  }

  ghost function AllBytes(p: Program, fns: seq<nat>): nat {
    if fns == [] then 0 else Bytes(p, fns[0]) + AllBytes(p, fns[1..])
  }

  lemma {:induction false} AllBytesAppend(p: Program, fns: seq<nat>, fn: nat)
    ensures AllBytes(p, fns + [fn]) == AllBytes(p, fns) + Bytes(p, fn)
  {
    if fns == [] {
      assert [fn][1..] == [];
    } else {
      assert (fns + [fn])[1..] == fns[1..] + [fn];
      AllBytesAppend(p, fns[1..], fn);
    }
  }

  /** The first frame that does not fit, the last function being served first. */
  ghost predicate FirstToFail(p: Program, limits: Limits, owing: seq<nat>, held: int, k: int) {
    && 0 <= k < |owing|
    && (k + 1 < |owing| ==> held + AllBytes(p, owing[k + 1..]) <= limits.maxStackBytes)
    && held + AllBytes(p, owing[k + 1..]) + Bytes(p, owing[k]) > limits.maxStackBytes
  }

  lemma FailsOneDeeper(p: Program, limits: Limits, rest: seq<nat>, fn: nat, held: int, k: int)
    requires held + Bytes(p, fn) <= limits.maxStackBytes && FirstToFail(p, limits, rest, held + Bytes(p, fn), k)
    ensures FirstToFail(p, limits, rest + [fn], held, k)
  {
    assert (rest + [fn])[k + 1..] == rest[k + 1..] + [fn];
    AllBytesAppend(p, rest[k + 1..], fn);
  }

  /** Charging frames, the last first: all of them if they fit, or stopping at the first that does not. */
  lemma {:induction false} ChargeAllMeans(p: Program, limits: Limits, owing: seq<nat>, held: int)
    ensures match ChargeAll(p, limits, owing, held)
            case Ok(now) => now == held + AllBytes(p, owing) && (owing != [] ==> now <= limits.maxStackBytes)
            case Err(fn) => exists k :: FirstToFail(p, limits, owing, held, k) && owing[k] == fn
    decreases |owing|
  {
    if owing != [] {
      var fn, rest := owing[|owing| - 1], owing[..|owing| - 1];
      assert owing == rest + [fn];
      AllBytesAppend(p, rest, fn);
      if held + Bytes(p, fn) > limits.maxStackBytes {
        assert owing[|owing|..] == [];
        assert FirstToFail(p, limits, owing, held, |owing| - 1);
      } else {
        ChargeAllMeans(p, limits, rest, held + Bytes(p, fn));
        hide AllBytes, FirstToFail;
        var r := ChargeAll(p, limits, rest, held + Bytes(p, fn));
        assert ChargeAll(p, limits, owing, held) == r;
        if r.Err? {
          var k :| FirstToFail(p, limits, rest, held + Bytes(p, fn), k) && rest[k] == r.error;
          FailsOneDeeper(p, limits, rest, fn, held, k);
        }
      }
    }
  }

  /**
   A pending entry once it is charged: with a resume state it holds a frame that resumes there, its own or a fresh
   one as large as its function needs; without one nothing changes.
   */
  ghost predicate Recorded(p: Program, before: Pending, after: Pending, from: nat, to: nat) {
    match before.state
    case None => after == before
    case Some(point) =>
      && after.state == before.state && after.activation.body == before.activation.body && after.activation.frame.Some?
      && var frame := after.activation.frame.value;
         && frame.point == point
         && match before.activation.frame
            case Some(held) => frame.ticket == held.ticket && frame.bytes == held.bytes
            case None => from <= frame.ticket < to && frame.bytes == Bytes(p, before.activation.body.fn)
  }

  /** Charging records every resume state, with a fresh ticket for every new frame. */
  lemma {:induction false} ChargingRecords(p: Program, limits: Limits, c: Charged, i: nat)
    requires i <= |c.pending| && c.failure.None?
    ensures var c' := ChargeFrom(p, limits, c, i);
            c'.failure.None? ==>
              && c.nextTicket <= c'.nextTicket
              && c'.pending[..i] == c.pending[..i]
              && forall k :: i <= k < |c.pending| ==> Recorded(p, c.pending[k], c'.pending[k], c.nextTicket, c'.nextTicket)
    decreases |c.pending| - i
  {
    if i < |c.pending| {
      var d := ChargeOne(p, limits, c, i);
      if d.failure.None? {
        ChargingRecords(p, limits, d, i + 1);
        var c' := ChargeFrom(p, limits, d, i + 1);
        if c'.failure.None? {
          assert Recorded(p, c.pending[i], d.pending[i], c.nextTicket, d.nextTicket);
          assert c'.pending[i] == c'.pending[..i + 1][i] == d.pending[i];
          assert c'.pending[..i] == c'.pending[..i + 1][..i] == d.pending[..i + 1][..i] == c.pending[..i];
          forall k | i < k < |c.pending| ensures Recorded(p, c.pending[k], c'.pending[k], c.nextTicket, c'.nextTicket) {
            assert d.pending[k] == c.pending[k];
          }
        }
      }
    }
  }

  // ---------------------------------------------------------------------------
  // Transfers
  // ---------------------------------------------------------------------------

  /** The transfers in progress, the innermost first. */
  ghost function Steps(t: Transfer): seq<Step> {
    if t.NoTransfer? then [] else [t.step] + Steps(t.parent)
  }

  /** Every transfer is newer than the ones around it. */
  ghost predicate Newer(t: Transfer, bound: int) {
    t.Context? ==> t.step.TransferStep? && t.step.serial < bound && Newer(t.parent, t.step.serial)
  }

  lemma {:induction false} NewerIn(t: Transfer, bound: int, i: nat)
    requires Newer(t, bound) && i < |Steps(t)|
    ensures Steps(t)[i].TransferStep? && Steps(t)[i].serial < bound
  {
    if i > 0 { NewerIn(t.parent, t.step.serial, i - 1); }
  }

  lemma {:induction false} NewerDiffer(t: Transfer, bound: int, i: nat, j: nat)
    requires Newer(t, bound) && i < j < |Steps(t)|
    ensures Steps(t)[i] != Steps(t)[j]
  {
    if i > 0 { NewerDiffer(t.parent, t.step.serial, i - 1, j - 1); } else { NewerIn(t.parent, t.step.serial, j - 1); }
  }

  lemma {:induction false} NewerShift(t: Transfer, bound: int)
    requires Newer(t, bound)
    ensures Newer(Shift(t).1, bound)
  {
    if t.Context? && t.pending == [] && t.parent.Context? { NewerShift(t.parent, bound); }
  }

  lemma {:induction false} RequestsSpend(p: Program, maxSteps: nat, b: Body, s: Store)
    ensures var r := RunBody(p, maxSteps, b, s); r.Yielded? ==> r.store.steps > s.steps
  {
  }

  lemma AdvancedSpends(p: Program, maxSteps: nat, b: Body, resumed: Option<Step>, s: Store)
    ensures var r := AdvanceBody(p, maxSteps, b, resumed, s);
            r.store.steps >= s.steps && (r.Yielded? && !r.request.RelayRequested? ==> r.store.steps > s.steps)
  {
    hide RunBody;
    RequestsSpend(p, maxSteps, b, s);
    var at := InstructionAt(p, b);
    if at.Some? && (at.value.Call? || at.value.Suspend?) && resumed.Some? && resumed.value.ValueStep? {
      RequestsSpend(p, maxSteps, Deliver(b, at.value.destination, resumed.value.value), s);
    }
  }

  /** One iteration starts only transfers newer than those in progress. */
  lemma AdvanceKeepsNewer(p: Program, limits: Limits, st: State)
    requires Newer(st.transfer, st.store.steps + 1)
    ensures var r := AdvanceMachine(p, limits, st); r.Running? ==> Newer(r.state.transfer, r.state.store.steps + 1)
  {
    if st.stack != [] {
      hide AdvanceBody, Enter, ChargeFrom, Shift;
      AdvancedSpends(p, limits.maxSteps, st.stack[|st.stack| - 1].body, st.resumed, st.store);
      NewerShift(st.transfer, st.store.steps + 1);
    }
  }

  /** No two transfers in progress are the same, so a relay can tell its own from the others. */
  lemma {:induction false} TransfersAreDistinct(p: Program, limits: Limits, entry: CallRequest, store: Store, n: nat, st: State)
    requires Iterate(p, limits, Initial(entry, store), n) == Running(st)
    ensures Newer(st.transfer, st.store.steps + 1)
    ensures forall i, j :: 0 <= i < j < |Steps(st.transfer)| ==> Steps(st.transfer)[i] != Steps(st.transfer)[j]
  {
    if n > 0 {
      hide AdvanceMachine;
      var before := Iterate(p, limits, Initial(entry, store), n - 1).state;
      TransfersAreDistinct(p, limits, entry, store, n - 1, before);
      AdvanceKeepsNewer(p, limits, before);
    }
    hide Newer, Steps, Iterate, Initial;
    forall i, j | 0 <= i < j < |Steps(st.transfer)| ensures Steps(st.transfer)[i] != Steps(st.transfer)[j] {
      NewerDiffer(st.transfer, st.store.steps + 1, i, j);
    }
  }
}
