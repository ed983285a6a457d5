/**
 The reference semantics: plain recursive evaluation, in which a suspension is an ordinary call and nothing is
 ever unwound, parked or resumed. `Meter` is the same evaluation with the storage of coroutine frames counted:
 it tells exactly when a suspension runs out of it.
 */
module PlainEvaluation {
  import opened Wrappers
  import opened Machine

  function Evaluate(p: Program, limits: Limits, b: Body, s: Store): (r: (Step, Store))
    ensures s.steps <= r.1.steps
    ensures s.steps <= limits.maxSteps ==> r.1.steps <= limits.maxSteps
    ensures !r.0.TransferStep?
    decreases limits.maxSteps - s.steps
  {
    var at := InstructionAt(p, b);
    if at.None? then (Blocked(MalformedCode), s)
    else if at.value.Return? then (ValueStep(Read(b.locals, at.value.source)), s)
    else if s.steps >= limits.maxSteps then (Blocked(StepLimit(s.steps)), s)
    else
      var i, s' := at.value, s.(steps := s.steps + 1);
      if i.Fail? then (Blocked(Trap(i.reason)), s')
      else if i.Call? || i.Suspend? then
        if i.target >= |p.functions| then (Blocked(MissingFunction(i.target)), s')
        else if i.Call? && b.depth >= limits.maxCallDepth then (Blocked(CallDepthLimit(b.depth)), s')
        else
          var child := CallRequest(i.target, ReadAll(b.locals, i.arguments));
          var (answer, s'') := Evaluate(p, limits, Enter(child, b.depth + 1), s');
          if answer.ValueStep? then Evaluate(p, limits, Deliver(b, i.destination, answer.value), s'') else (answer, s'')
      else
        var (b', cells') := ExecuteLocal(i, b, s.cells);
        Evaluate(p, limits, b', s'.(cells := cells'))
  }

  // ---------------------------------------------------------------------------
  // Counting frames
  // ---------------------------------------------------------------------------

  /** What an evaluation came to, the frame bytes then held, and whether it ever suspended. */
  datatype Metered = Metered(step: Step, store: Store, held: int, suspended: bool)

  /** The body waits on a call at which it records a resume state, so a suspension below gives it a frame. */
  predicate Records(p: Program, b: Body) {
    var at := InstructionAt(p, b);
    at.Some? && at.value.Call? && at.value.relay.Relayed? && at.value.relay.state.Some?
  }

  /** Gives a frame to each of the functions, the last first; or names the first whose frame does not fit. */
  function ChargeAll(p: Program, limits: Limits, owing: seq<nat>, held: int): Result<int, nat> {
    if owing == [] then Ok(held)
    else
      var fn := owing[|owing| - 1];
      if held + FrameSize(p, fn) > limits.maxStackBytes then Err(fn)
      else ChargeAll(p, limits, owing[..|owing| - 1], held + FrameSize(p, fn))
  }

  function FrameOf(p: Program, b: Body, framed: bool): nat {
    if framed then FrameSize(p, b.fn) else 0
  }

  /**
   Evaluates a body that holds a frame or not. `owing` are the functions of the callers that a suspension here
   would newly give a frame, outermost first.
   */
  function Meter(p: Program, limits: Limits, b: Body, framed: bool, owing: seq<nat>, s: Store, held: int): (r: Metered)
    ensures s.steps <= r.store.steps
    ensures s.steps <= limits.maxSteps ==> r.store.steps <= limits.maxSteps
    ensures !r.step.TransferStep?
    decreases limits.maxSteps - s.steps
  {
    var at := InstructionAt(p, b);
    if at.None? then Metered(Blocked(MalformedCode), s, held, false)
    else if at.value.Return? then
      Metered(ValueStep(Read(b.locals, at.value.source)), s, held - FrameOf(p, b, framed), false)
    else if s.steps >= limits.maxSteps then Metered(Blocked(StepLimit(s.steps)), s, held, false)
    else
      var i, s' := at.value, s.(steps := s.steps + 1);
      if i.Fail? then Metered(Blocked(Trap(i.reason)), s', held, false)
      else if i.Call? || i.Suspend? then
        if i.target >= |p.functions| then Metered(Blocked(MissingFunction(i.target)), s', held, false)
        else if i.Call? && b.depth >= limits.maxCallDepth then Metered(Blocked(CallDepthLimit(b.depth)), s', held, false)
        else
          var child := Enter(CallRequest(i.target, ReadAll(b.locals, i.arguments)), b.depth + 1);
          var charge := if i.Suspend? then ChargeAll(p, limits, owing, held) else Ok(held);
          if charge.Err? then Metered(Blocked(StackExhausted(charge.error)), s', held, false)
          else
            var below := if i.Suspend? then [] else Owed(p, owing, b, framed);
            var r := Meter(p, limits, child, false, below, s', charge.value);
            if !r.step.ValueStep? then r
            else
              var suspended := i.Suspend? || r.suspended;
              var after := Meter(p, limits, Deliver(b, i.destination, r.step.value), framed || (r.suspended && Records(p, b)),
                                 if suspended then [] else owing, r.store, r.held);
              after.(suspended := suspended || after.suspended)
      else
        var (b', cells') := ExecuteLocal(i, b, s.cells);
        Meter(p, limits, b', framed, owing, s'.(cells := cells'), held)
  }

  /** Who would owe a frame if the callee of this body suspended. */
  function Owed(p: Program, owing: seq<nat>, b: Body, framed: bool): seq<nat> {
    if !framed && Records(p, b) then owing + [b.fn] else owing
  }

  predicate IsExhaustion(result: Step) {
    result.Blocked? && result.reason.StackExhausted?
  }

  /** Counting frames changes nothing but that a suspension may run out of them. */
  lemma {:induction false} MeterIsPlain(p: Program, limits: Limits, b: Body, framed: bool, owing: seq<nat>, s: Store, held: int)
    ensures var r := Meter(p, limits, b, framed, owing, s, held);
            !IsExhaustion(r.step) ==> (r.step, r.store) == Evaluate(p, limits, b, s)
    decreases limits.maxSteps - s.steps
  {
    var at := InstructionAt(p, b);
    if at.Some? && !at.value.Return? && s.steps < limits.maxSteps && !at.value.Fail? {
      var i, s' := at.value, s.(steps := s.steps + 1);
      if i.Call? || i.Suspend? {
        var child := Enter(CallRequest(i.target, ReadAll(b.locals, i.arguments)), b.depth + 1);
        var charge := if i.Suspend? then ChargeAll(p, limits, owing, held) else Ok(held);
        if charge.Ok? {
          var below := if i.Suspend? then [] else Owed(p, owing, b, framed);
          MeterIsPlain(p, limits, child, false, below, s', charge.value);
          var r := Meter(p, limits, child, false, below, s', charge.value);
          if r.step.ValueStep? {
            MeterIsPlain(p, limits, Deliver(b, i.destination, r.step.value), framed || (r.suspended && Records(p, b)),
                         if i.Suspend? || r.suspended then [] else owing, r.store, r.held);
          }
        }
      } else {
        var (b', cells') := ExecuteLocal(i, b, s.cells);
        MeterIsPlain(p, limits, b', framed, owing, s'.(cells := cells'), held);
      }
    }
  }

  // ---------------------------------------------------------------------------
  // Returning through a stack
  // ---------------------------------------------------------------------------

  /** A waiting body, and whether it holds a frame. */
  datatype Caller = Caller(body: Body, framed: bool)

  /** The functions of the callers that a suspension above would newly give a frame, outermost first. */
  function Owing(p: Program, live: seq<Caller>): seq<nat> {
    if live == [] then []
    else Owed(p, Owing(p, live[..|live| - 1]), live[|live| - 1].body, live[|live| - 1].framed)
  }

  /** Resumes a waiting body with the value of its call and evaluates it to its end. */
  function Continue(p: Program, limits: Limits, b: Body, framed: bool, owing: seq<nat>, r: Metered): Metered
    requires r.step.ValueStep?
  {
    var at := InstructionAt(p, b);
    if at.Some? && (at.value.Call? || at.value.Suspend?)
    then Meter(p, limits, Deliver(b, at.value.destination, r.step.value), framed, owing, r.store, r.held)
    else r.(step := Blocked(MalformedCode))
  }

  /**
   Returns through the callers, innermost last: first through live ones, which a suspension since their call has
   parked, then through parked ones, which no further suspension reaches.
   */
  function Resume(p: Program, limits: Limits, parked: seq<Caller>, live: seq<Caller>, r: Metered): (Step, Store)
    decreases |parked| + |live|
  {
    if !r.step.ValueStep? || parked + live == [] then (r.step, r.store)
    else if live == [] then
      var c := parked[|parked| - 1];
      Resume(p, limits, parked[..|parked| - 1], [], Continue(p, limits, c.body, c.framed, [], r))
    else
      var c, rest := live[|live| - 1], live[..|live| - 1];
      var framed := c.framed || (r.suspended && Records(p, c.body));
      var after := Continue(p, limits, c.body, framed, if r.suspended then [] else Owing(p, rest), r);
      Resume(p, limits, parked, rest, after.(suspended := r.suspended || after.suspended))
  }

  /** Callers once a suspension above them has unwound them. */
  function Park(p: Program, live: seq<Caller>): (r: seq<Caller>)
    ensures |r| == |live|
  {
    seq(|live|, i requires 0 <= i < |live| => live[i].(framed := live[i].framed || Records(p, live[i].body)))
  }

  /** After a suspension the live callers are parked ones. */
  lemma {:induction false} SuspendedParksAll(p: Program, limits: Limits, parked: seq<Caller>, live: seq<Caller>, r: Metered)
    requires r.suspended
    ensures Resume(p, limits, parked, live, r) == Resume(p, limits, parked + Park(p, live), [], r)
    decreases |live|
  {
    if live == [] {
      assert parked + Park(p, live) == parked;
    } else if r.step.ValueStep? {
      var c, rest := live[|live| - 1], live[..|live| - 1];
      var all := parked + Park(p, live);
      assert all[|all| - 1] == Park(p, [c])[0] && all[..|all| - 1] == parked + Park(p, rest);
      var after := Continue(p, limits, c.body, c.framed || Records(p, c.body), [], r).(suspended := true);
      SuspendedParksAll(p, limits, parked, rest, after);
      ParkedIgnoreSuspended(p, limits, parked + Park(p, rest), after, Continue(p, limits, c.body, c.framed || Records(p, c.body), [], r));
    }
  }

  lemma {:induction false} ParkedIgnoreSuspended(p: Program, limits: Limits, parked: seq<Caller>, r: Metered, r': Metered)
    requires r' == r.(suspended := r'.suspended)
    ensures Resume(p, limits, parked, [], r) == Resume(p, limits, parked, [], r')
  {
    if r.step.ValueStep? && parked != [] {
      var c := parked[|parked| - 1];
      ParkedIgnoreSuspended(p, limits, parked[..|parked| - 1], Continue(p, limits, c.body, c.framed, [], r), Continue(p, limits, c.body, c.framed, [], r'));
    }
  }
}
