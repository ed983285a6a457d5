/**
 Lowering preserves meaning: running the emitted blocks from the entry computes exactly what
 evaluating the source does, value for value and undefined for undefined.
 */
module TinySimulation {
  import opened Wrappers
  import opened TinyProgram
  import opened TinyIr
  import opened TinyCompiler
  import opened TinyLowering
  import E = TinyExpression

  /** One activation: the two programs, the finished blocks of the function being run, its arguments. */
  datatype Activation = Activation(p: Program, m: Module, calls: nat, steps: nat, blocks: seq<Block>, args: seq<int>)

  /** Where execution stands, and what the registers hold. */
  datatype Machine = Machine(at: Position, regs: Registers, fuel: nat)

  function RunFrom(a: Activation, s: Machine): Option<int> {
    Run(a.m, a.calls, a.steps, a.blocks, a.args, s.at, s.regs, s.fuel)
  }

  function Meaning(a: Activation, scope: Scope, e: E.Expression): Option<int> {
    Evaluate(a.p, a.calls, scope.parameters, a.args, e)
  }

  /** The end of what the builder has emitted so far. */
  function Here(b: Builder, from: nat): Position
    requires b.current < |b.blocks|
  {
    Position(b.current, |b.blocks[b.current].body|, from)
  }

  /** The finished blocks extend what the builder holds; a terminated block is final. */
  ghost predicate Within(b: Builder, blocks: seq<Block>) {
    && b.current < |b.blocks| <= |blocks|
    && (forall i :: 0 <= i < |b.blocks| ==> b.blocks[i].body <= blocks[i].body)
    && (forall i :: 0 <= i < |b.blocks| && b.blocks[i].terminator.Some? ==> blocks[i] == b.blocks[i])
  }

  lemma GrownWithin(b: Builder, b': Builder, blocks: seq<Block>)
    requires Open(b) && Grows(b, b') && Within(b', blocks)
    ensures Within(b, blocks)
  {
  }

  /** Every function of the two programs means the same with this many nested calls. */
  ghost predicate CallsAgree(p: Program, m: Module, calls: nat, steps: nat) {
    forall name, values :: InvokeIr(m, calls, steps, name, values) == Invoke(p, calls, name, values)
  }

  ghost predicate Ready(a: Activation, scope: Scope) {
    && (a.calls > 0 ==> CallsAgree(a.p, a.m, a.calls - 1, a.steps))
    && forall x :: x in scope.parameters ==> scope.parameters[x] < |a.args|
  }

  /** Registers numbered below `n` keep their values. */
  ghost predicate Keeps(regs: Registers, regs': Registers, n: nat) {
    forall name :: name in regs && NumberOf(name) < n ==> name in regs' && regs'[name] == regs[name]
  }

  predicate Older(o: Operand, n: nat) {
    o.Register? ==> NumberOf(o.name) < n
  }

  /** The value of an operand is known and survives every later step. */
  ghost predicate Holds(a: Activation, o: Operand, regs: Registers, n: nat, v: int) {
    Older(o, n) && TinyIr.ValueOf(o, regs, a.args) == Some(v)
  }

  lemma HoldsLater(a: Activation, o: Operand, regs: Registers, n: nat, v: int, regs': Registers, n': nat)
    requires Holds(a, o, regs, n, v) && Keeps(regs, regs', n) && n <= n'
    ensures Holds(a, o, regs', n', v)
  {
  }

  lemma KeepsTransitive(r: Registers, r': Registers, r'': Registers, n: nat, n': nat)
    requires Keeps(r, r', n) && Keeps(r', r'', n') && n <= n'
    ensures Keeps(r, r'', n)
  {
  }

  /** Reaching `s'` from `s`: both runs end alike, registers older than `b` are kept. */
  ghost predicate Reaches(a: Activation, b: Builder, s: Machine, b': Builder, s': Machine, cost: nat) {
    && b.current < |b.blocks| && b'.current < |b'.blocks|
    && s.at == Here(b, s.at.from) && s'.at == Here(b', s'.at.from)
    && s'.fuel <= s.fuel <= s'.fuel + cost
    && RunFrom(a, s) == RunFrom(a, s')
    && Keeps(s.regs, s'.regs, b.nextValue) && b.nextValue <= b'.nextValue
  }

  lemma ReachesTransitive(a: Activation, b: Builder, s: Machine, b': Builder, s': Machine, cost: nat, b'': Builder, s'': Machine, cost': nat)
    requires Reaches(a, b, s, b', s', cost) && Reaches(a, b', s', b'', s'', cost')
    ensures Reaches(a, b, s, b'', s'', cost + cost')
  {
  }

  // ---------------------------------------------------------------------------
  // One step
  // ---------------------------------------------------------------------------

  /** The emitted instruction is the next one the machine executes. */
  lemma StepEmitted(a: Activation, b: Builder, i: Instruction, s: Machine, v: Option<int>) returns (s': Machine)
    requires Open(b) && Within(Emit(b, i), a.blocks)
    requires s.at == Here(b, s.at.from) && s.fuel > 0
    requires Execute(a.m, a.calls, a.steps, i, s.at.from, s.regs, a.args) == v
    requires NumberOf(i.result) == b.nextValue
    ensures v.None? ==> RunFrom(a, s) == None
    ensures v.Some? ==> Reaches(a, b, s, Emit(b, i), s', 1) && Holds(a, Register(i.result), s'.regs, b.nextValue + 1, v.value)
    ensures v.Some? ==> s'.at.from == s.at.from
  {
    assert Emit(b, i).blocks[b.current].body <= a.blocks[b.current].body;
    s' := Machine(Here(Emit(b, i), s.at.from), if v.Some? then s.regs[i.result := v.value] else s.regs, s.fuel - 1);
  }

  /** What a lowered expression must do: be undefined where the source is, else reach its end holding the value. */
  ghost predicate Outcome(a: Activation, b: Builder, s: Machine, lowered: Lowered, v: Option<int>, s': Machine, cost: nat) {
    if v.None? then RunFrom(a, s) == None
    else
      && Reaches(a, b, s, lowered.builder, s', cost)
      && Holds(a, lowered.operand, s'.regs, lowered.builder.nextValue, v.value)
  }

  // ---------------------------------------------------------------------------
  // Operators
  // ---------------------------------------------------------------------------

  lemma NegateRuns(a: Activation, b: Builder, o: Operand, s: Machine, x: int) returns (s': Machine)
    requires Open(b) && Within(EmitNegate(b, o).builder, a.blocks)
    requires s.at == Here(b, s.at.from) && s.fuel > 0
    requires Holds(a, o, s.regs, b.nextValue, x)
    ensures Outcome(a, b, s, EmitNegate(b, o), Some(WrapI32(0 - x)), s', 1)
  {
    NumberOfFresh("negated", b.nextValue);
    s' := StepEmitted(a, b, Negate(FreshName("negated", b.nextValue), o), s, Some(WrapI32(0 - x)));
  }

  lemma OperatorMeaning(op: E.BinaryOperator, x: int, y: int)
    ensures OpcodeMeaning(OpcodeOf(op), x, y) == BinaryMeaning(op, x, y)
  {
  }

  lemma BinaryRuns(a: Activation, b: Builder, op: E.BinaryOperator, l: Operand, r: Operand, s: Machine, x: int, y: int)
    returns (s': Machine)
    requires Open(b) && Within(EmitBinary(b, op, l, r).builder, a.blocks)
    requires s.at == Here(b, s.at.from) && s.fuel > 1
    requires Holds(a, l, s.regs, b.nextValue, x) && Holds(a, r, s.regs, b.nextValue, y)
    ensures Outcome(a, b, s, EmitBinary(b, op, l, r), BinaryMeaning(op, x, y), s', 2)
  {
    var name, v := FreshName(ResultBase(op), b.nextValue), BinaryMeaning(op, x, y);
    var i := Compute(name, OpcodeOf(op), l, r);
    var computed := Emit(b, i);
    NumberOfFresh(ResultBase(op), b.nextValue);
    OperatorMeaning(op, x, y);
    EmitGrows(b, i);
    if op.Less? || op.Greater? {
      var extended := FreshName("comparison_i32", computed.nextValue);
      var j := ZeroExtend(extended, Register(name));
      EmitGrows(computed, j);
      GrownWithin(computed, Emit(computed, j), a.blocks);
      var middle := StepEmitted(a, b, i, s, v);
      NumberOfFresh("comparison_i32", computed.nextValue);
      s' := StepEmitted(a, computed, j, middle, v);
      ReachesTransitive(a, b, s, computed, middle, 1, Emit(computed, j), s', 1);
    } else {
      s' := StepEmitted(a, b, i, s, v);
    }
  }

  // ---------------------------------------------------------------------------
  // Calls
  // ---------------------------------------------------------------------------

  ghost predicate HoldAll(a: Activation, os: seq<Operand>, regs: Registers, n: nat, vs: seq<int>) {
    |os| == |vs| && forall k :: 0 <= k < |os| ==> Holds(a, os[k], regs, n, vs[k])
  }

  lemma {:induction false} ValuesHeld(a: Activation, os: seq<Operand>, regs: Registers, n: nat, vs: seq<int>)
    requires HoldAll(a, os, regs, n, vs)
    ensures ValuesOf(os, regs, a.args) == Some(vs)
  {
    if os != [] {
      assert Holds(a, os[0], regs, n, vs[0]);
      forall k | 0 <= k < |os[1..]| ensures Holds(a, os[1..][k], regs, n, vs[1..][k]) {
        assert Holds(a, os[k + 1], regs, n, vs[k + 1]);
      }
      ValuesHeld(a, os[1..], regs, n, vs[1..]);
      assert vs == [vs[0]] + vs[1..];
    }
  }

  lemma HoldFirst(a: Activation, o: Operand, regs: Registers, n: nat, v: int, os: seq<Operand>, regs': Registers, n': nat, vs: seq<int>)
    requires Holds(a, o, regs, n, v) && Keeps(regs, regs', n) && n <= n' && HoldAll(a, os, regs', n', vs)
    ensures HoldAll(a, [o] + os, regs', n', [v] + vs)
  {
  }

  function CallMeaning(a: Activation, callee: string, vs: seq<int>): Option<int> {
    if a.calls == 0 then None else Invoke(a.p, a.calls - 1, callee, vs)
  }

  lemma CallRuns(a: Activation, b: Builder, callee: string, os: seq<Operand>, s: Machine, vs: seq<int>) returns (s': Machine)
    requires Open(b) && Within(EmitCall(b, callee, os).builder, a.blocks)
    requires s.at == Here(b, s.at.from) && s.fuel > 0
    requires HoldAll(a, os, s.regs, b.nextValue, vs)
    requires a.calls > 0 ==> CallsAgree(a.p, a.m, a.calls - 1, a.steps)
    ensures Outcome(a, b, s, EmitCall(b, callee, os), CallMeaning(a, callee, vs), s', 1)
  {
    var name := FreshName("called", b.nextValue);
    NumberOfFresh("called", b.nextValue);
    ValuesHeld(a, os, s.regs, b.nextValue, vs);
    s' := StepEmitted(a, b, CallDirect(name, callee, os), s, CallMeaning(a, callee, vs));
  }

  // ---------------------------------------------------------------------------
  // Conditionals
  // ---------------------------------------------------------------------------

  /** Testing the condition enters the true block or the false block, from the block the condition ended in. */
  lemma BranchRuns(a: Activation, b: Builder, o: Operand, s: Machine, x: int) returns (s': Machine)
    requires Open(b) && Within(BeginIf(b, o), a.blocks)
    requires s.at == Here(b, s.at.from) && s.fuel > 1
    requires Holds(a, o, s.regs, b.nextValue, x)
    ensures s'.at == Position(if x != 0 then |b.blocks| else |b.blocks| + 1, 0, b.current)
    ensures s'.fuel <= s.fuel <= s'.fuel + 2 && RunFrom(a, s) == RunFrom(a, s')
    ensures Keeps(s.regs, s'.regs, b.nextValue)
  {
    var name := FreshName("condition", b.nextValue);
    var i := Compute(name, Ne, o, Literal(0));
    NumberOfFresh("condition", b.nextValue);
    EmitGrows(b, i);
    var tested, final := Emit(b, i), BeginIf(b, o);
    assert final.blocks[b.current] == tested.blocks[b.current].(terminator := Some(ConditionalBranch(Register(name), |b.blocks|, |b.blocks| + 1)));
    assert a.blocks[b.current] == final.blocks[b.current];
    assert Within(tested, a.blocks);
    var middle := StepEmitted(a, b, i, s, Some(if x != 0 then 1 else 0));
    s' := Machine(Position(if x != 0 then |b.blocks| else |b.blocks| + 1, 0, b.current), middle.regs, middle.fuel - 1);
  }

  /** A finished branch jumps to the merge block, where the phi picks that branch's value. */
  lemma JoinRuns(a: Activation, branch: Builder, o: Operand, s: Machine, v: int, merged: Builder, onTrue: Incoming, onFalse: Incoming)
    returns (s': Machine)
    requires branch.current < |branch.blocks| && branch.current < |a.blocks|
    requires a.blocks[branch.current] == branch.blocks[branch.current].(terminator := Some(Branch(merged.current)))
    requires s.at == Here(branch, s.at.from) && s.fuel > 1
    requires Holds(a, o, s.regs, merged.nextValue, v)
    requires Open(merged) && merged.blocks[merged.current].body == [] && Within(EndIf(merged, onTrue, onFalse).builder, a.blocks)
    requires IncomingFrom([onTrue, onFalse], branch.current) == Some(o)
    ensures s'.fuel <= s.fuel <= s'.fuel + 2 && s'.at == Here(EndIf(merged, onTrue, onFalse).builder, branch.current)
    ensures RunFrom(a, s) == RunFrom(a, s') && Keeps(s.regs, s'.regs, merged.nextValue)
    ensures Holds(a, EndIf(merged, onTrue, onFalse).operand, s'.regs, merged.nextValue + 1, v)
  {
    var name := FreshName("if_result", merged.nextValue);
    NumberOfFresh("if_result", merged.nextValue);
    var middle := Machine(Position(merged.current, 0, branch.current), s.regs, s.fuel - 1);
    assert RunFrom(a, s) == RunFrom(a, middle);
    s' := StepEmitted(a, merged, Phi(name, [onTrue, onFalse]), middle, Some(v));
  }

  /** Moving on from a branch that ended leaves the branch itself within the finished blocks. */
  lemma EndedWithin(b: Builder, merge: nat, next: nat, blocks: seq<Block>)
    requires Open(b) && Within(EndBranch(b, merge, next), blocks)
    ensures Within(b, blocks)
    ensures blocks[b.current] == b.blocks[b.current].(terminator := Some(Branch(merge)))
  {
  }

  /** Every stage of lowering a conditional is within the finished blocks. */
  ghost predicate StagesWithin(c: Lowered, onTrue: Lowered, onFalse: Lowered, blocks: seq<Block>) {
    && Within(c.builder, blocks) && Within(BeginIf(c.builder, c.operand), blocks)
    && Within(onTrue.builder, blocks) && Within(Between(c.builder, onTrue.builder), blocks)
    && Within(onFalse.builder, blocks)
    && blocks[onTrue.builder.current]
       == onTrue.builder.blocks[onTrue.builder.current].(terminator := Some(Branch(|c.builder.blocks| + 2)))
    && blocks[onFalse.builder.current]
       == onFalse.builder.blocks[onFalse.builder.current].(terminator := Some(Branch(|c.builder.blocks| + 2)))
  }

  lemma FalseArmIsWithin(c: Lowered, onTrue: Lowered, onFalse: Lowered, blocks: seq<Block>)
    requires Staged(c, onTrue, onFalse)
    requires Within(FinishIf(|c.builder.blocks|, onTrue, onFalse).builder, blocks)
    ensures Within(onFalse.builder, blocks) && Within(Between(c.builder, onTrue.builder), blocks)
    ensures blocks[onFalse.builder.current]
            == onFalse.builder.blocks[onFalse.builder.current].(terminator := Some(Branch(|c.builder.blocks| + 2)))
  {
    var n := |c.builder.blocks|;
    var between, merged := Between(c.builder, onTrue.builder), Merged(c.builder, onFalse.builder);
    BetweenGrows(c.builder, c.operand, onTrue.builder);
    MergedGrows(c.builder, between, onFalse.builder);
    var phi := Phi(FreshName("if_result", merged.nextValue),
                   [Incoming(onTrue.operand, onTrue.builder.current), Incoming(onFalse.operand, onFalse.builder.current)]);
    EmitGrows(merged, phi);
    hide BeginIf, Between;
    GrownWithin(merged, Emit(merged, phi), blocks);
    EndedWithin(onFalse.builder, n + 2, n + 2, blocks);
    GrownWithin(between, onFalse.builder, blocks);
  }

  lemma StagesAreWithin(c: Lowered, onTrue: Lowered, onFalse: Lowered, blocks: seq<Block>)
    requires Staged(c, onTrue, onFalse)
    requires Within(FinishIf(|c.builder.blocks|, onTrue, onFalse).builder, blocks)
    ensures StagesWithin(c, onTrue, onFalse, blocks)
  {
    hide Within, Grows, BeginIf, FinishIf;
    FalseArmIsWithin(c, onTrue, onFalse, blocks);
    var n := |c.builder.blocks|;
    BetweenGrows(c.builder, c.operand, onTrue.builder);
    EndedWithin(onTrue.builder, n + 2, n + 1, blocks);
    BeginIfGrows(c.builder, c.operand);
    GrownWithin(BeginIf(c.builder, c.operand), onTrue.builder, blocks);
    GrownWithin(c.builder, BeginIf(c.builder, c.operand), blocks);
  }

  /** The arm's end jumps to an open, empty merge block whose phi knows it. */
  lemma ArmReady(c: Lowered, onTrue: Lowered, onFalse: Lowered, taken: bool, blocks: seq<Block>)
    requires Staged(c, onTrue, onFalse) && Within(FinishIf(|c.builder.blocks|, onTrue, onFalse).builder, blocks)
    ensures var arm, merged := if taken then onTrue else onFalse, Merged(c.builder, onFalse.builder);
            var x, y := Incoming(onTrue.operand, onTrue.builder.current), Incoming(onFalse.operand, onFalse.builder.current);
            && FinishIf(|c.builder.blocks|, onTrue, onFalse) == EndIf(merged, x, y)
            && arm.builder.current < |arm.builder.blocks| && arm.builder.current < |blocks|
            && blocks[arm.builder.current] == arm.builder.blocks[arm.builder.current].(terminator := Some(Branch(merged.current)))
            && arm.builder.nextValue <= merged.nextValue
            && Open(merged) && merged.blocks[merged.current].body == []
            && IncomingFrom([x, y], arm.builder.current) == Some(arm.operand)
  {
    StagesAreWithin(c, onTrue, onFalse, blocks);
    BetweenGrows(c.builder, c.operand, onTrue.builder);
    MergedGrows(c.builder, Between(c.builder, onTrue.builder), onFalse.builder);
    ArmsEndApart(c, onTrue, onFalse);
    hide BeginIf, Between, Grows, Emit, Terminate, FreshName;
  }

  lemma EndIfGrows(b: Builder, x: Incoming, y: Incoming)
    requires Open(b)
    ensures var b' := EndIf(b, x, y).builder; b'.nextValue == b.nextValue + 1 && b'.current == b.current < |b'.blocks|
  {
  }

  lemma KeepsOlder(regs: Registers, regs': Registers, n: nat, n': nat)
    requires Keeps(regs, regs', n') && n <= n'
    ensures Keeps(regs, regs', n)
  {
  }

  lemma KeepsItself(regs: Registers, n: nat)
    ensures Keeps(regs, regs, n)
  {
  }

  /** Whichever branch ran, the merge block ends holding that branch's value. */
  lemma ArmJoins(a: Activation, c: Lowered, onTrue: Lowered, onFalse: Lowered, taken: bool, s: Machine, v: int)
    returns (s': Machine)
    requires Staged(c, onTrue, onFalse) && Within(FinishIf(|c.builder.blocks|, onTrue, onFalse).builder, a.blocks)
    requires var arm := if taken then onTrue else onFalse;
             && s.at == Here(arm.builder, s.at.from) && s.fuel > 1
             && Holds(a, arm.operand, s.regs, arm.builder.nextValue, v)
    ensures var arm, finished := if taken then onTrue else onFalse, FinishIf(|c.builder.blocks|, onTrue, onFalse);
            && s'.fuel <= s.fuel <= s'.fuel + 2 && finished.builder.current < |finished.builder.blocks|
            && s'.at == Here(finished.builder, s'.at.from)
            && RunFrom(a, s) == RunFrom(a, s') && Keeps(s.regs, s'.regs, arm.builder.nextValue)
            && Holds(a, finished.operand, s'.regs, finished.builder.nextValue, v)
            && arm.builder.nextValue <= finished.builder.nextValue
  {
    hide Staged, Merged, FinishIf, EndIf, RunFrom, Keeps, Holds, Within, Open, IncomingFrom;
    var arm, merged := if taken then onTrue else onFalse, Merged(c.builder, onFalse.builder);
    var x, y := Incoming(onTrue.operand, onTrue.builder.current), Incoming(onFalse.operand, onFalse.builder.current);
    ArmReady(c, onTrue, onFalse, taken, a.blocks);
    EndIfGrows(merged, x, y);
    KeepsItself(s.regs, arm.builder.nextValue);
    HoldsLater(a, arm.operand, s.regs, arm.builder.nextValue, v, s.regs, merged.nextValue);
    s' := JoinRuns(a, arm.builder, arm.operand, s, v, merged, x, y);
    KeepsOlder(s.regs, s'.regs, arm.builder.nextValue, merged.nextValue);
  }

  // ---------------------------------------------------------------------------
  // Expressions
  // ---------------------------------------------------------------------------

  /** A bound on the steps an expression's own instructions take. */
  function Cost(e: E.Expression): nat {
    match e
    case Integer(_, _) => 0
    case Name(_, _) => 0
    case Unary(o, _) => Cost(o) + 1
    case Binary(_, l, r, _) => Cost(l) + Cost(r) + 2
    case Call(_, arguments, _) => CostAll(arguments) + 1
    case If(c, t, f, _) => Cost(c) + Cost(t) + Cost(f) + 4
  }

  function CostAll(es: seq<E.Expression>): nat {
    if es == [] then 0 else Cost(es[0]) + CostAll(es[1..])
  }

  /**
   The simulation: from where the builder stood to where lowering the expression leaves it, the
   blocks compute the expression's value, or are undefined exactly when the expression is.
   */
  lemma {:induction false} LowerRuns(a: Activation, scope: Scope, b: Builder, e: E.Expression, lowered: Lowered, s: Machine)
    returns (s': Machine)
    requires Open(b) && Lower(scope, b, e) == Ok(lowered) && Within(lowered.builder, a.blocks)
    requires Ready(a, scope) && s.at == Here(b, s.at.from) && s.fuel > Cost(e)
    ensures Outcome(a, b, s, lowered, Meaning(a, scope, e), s', Cost(e))
    decreases e, 2
  {
    s' := s;
    hide EmitNegate, EmitBinary, EmitCall, FinishIf, BeginIf;
    match e
    case Integer(_, _) =>
    case Name(_, _) =>
    case Unary(o, _) =>
      var l := Lower(scope, b, o).value;
      s' := UnaryRuns(a, scope, b, e, l, s);
    case Binary(op, l, r, _) =>
      var left := Lower(scope, b, l).value;
      var right := Lower(scope, left.builder, r).value;
      s' := OperandsRun(a, scope, b, e, left, right, s);
    case Call(callee, arguments, _) =>
      s' := ArgumentsRun(a, scope, b, e, LowerAll(scope, b, arguments).value, s);
    case If(_, _, _, _) =>
      var c, onTrue, onFalse := LowerIfGrows(scope, b, e);
      s' := IfRuns(a, scope, b, e, c, onTrue, onFalse, s);
  }

  lemma {:induction false} ArgumentsRun(a: Activation, scope: Scope, b: Builder, e: E.Expression, l: LoweredAll, s: Machine)
    returns (s': Machine)
    requires e.Call? && Open(b) && LowerAll(scope, b, e.arguments) == Ok(l)
    requires Within(EmitCall(l.builder, e.callee, l.operands).builder, a.blocks)
    requires Ready(a, scope) && s.at == Here(b, s.at.from) && s.fuel > Cost(e)
    ensures Outcome(a, b, s, EmitCall(l.builder, e.callee, l.operands), Meaning(a, scope, e), s', Cost(e))
    decreases e, 0
  {
    hide LowerAll;
    var finished := EmitCall(l.builder, e.callee, l.operands);
    LowerAllGrows(scope, b, e.arguments);
    EmitGrows(l.builder, CallDirect(FreshName("called", l.builder.nextValue), e.callee, l.operands));
    GrownWithin(l.builder, finished.builder, a.blocks);
    var middle, vs := LowerAllRuns(a, scope, b, e.arguments, l, s);
    s' := middle;
    if vs.Some? {
      s' := CallRuns(a, l.builder, e.callee, l.operands, middle, vs.value);
      if CallMeaning(a, e.callee, vs.value).Some? {
        ReachesTransitive(a, b, s, l.builder, middle, CostAll(e.arguments), finished.builder, s', 1);
      }
    }
  }

  lemma {:induction false} UnaryRuns(a: Activation, scope: Scope, b: Builder, e: E.Expression, l: Lowered, s: Machine)
    returns (s': Machine)
    requires e.Unary? && Open(b) && Lower(scope, b, e.operand) == Ok(l)
    requires Within(EmitNegate(l.builder, l.operand).builder, a.blocks)
    requires Ready(a, scope) && s.at == Here(b, s.at.from) && s.fuel > Cost(e)
    ensures Outcome(a, b, s, EmitNegate(l.builder, l.operand), Meaning(a, scope, e), s', Cost(e))
    decreases e, 0
  {
    hide Lower;
    var finished := EmitNegate(l.builder, l.operand);
    LowerGrows(scope, b, e.operand, l);
    EmitGrows(l.builder, Negate(FreshName("negated", l.builder.nextValue), l.operand));
    GrownWithin(l.builder, finished.builder, a.blocks);
    s' := LowerRuns(a, scope, b, e.operand, l, s);
    var x := Meaning(a, scope, e.operand);
    if x.Some? {
      var middle := s';
      s' := NegateRuns(a, l.builder, l.operand, middle, x.value);
      ReachesTransitive(a, b, s, l.builder, middle, Cost(e.operand), finished.builder, s', 1);
    }
  }

  lemma {:induction false} OperandsRun(a: Activation, scope: Scope, b: Builder, e: E.Expression, left: Lowered, right: Lowered, s: Machine)
    returns (s': Machine)
    requires e.Binary? && Open(b) && Lower(scope, b, e.left) == Ok(left) && Lower(scope, left.builder, e.right) == Ok(right)
    requires Within(EmitBinary(right.builder, e.operator, left.operand, right.operand).builder, a.blocks)
    requires Ready(a, scope) && s.at == Here(b, s.at.from) && s.fuel > Cost(e)
    ensures Outcome(a, b, s, EmitBinary(right.builder, e.operator, left.operand, right.operand), Meaning(a, scope, e), s', Cost(e))
    decreases e, 0
  {
    hide Lower;
    var finished := EmitBinary(right.builder, e.operator, left.operand, right.operand);
    LowerGrows(scope, b, e.left, left);
    LowerGrows(scope, left.builder, e.right, right);
    EmitBinaryGrows(right.builder, e.operator, left.operand, right.operand);
    GrownWithin(right.builder, finished.builder, a.blocks);
    GrownWithin(left.builder, right.builder, a.blocks);
    s' := LowerRuns(a, scope, b, e.left, left, s);
    var x := Meaning(a, scope, e.left);
    if x.Some? {
      var first := s';
      s' := LowerRuns(a, scope, left.builder, e.right, right, first);
      var y := Meaning(a, scope, e.right);
      if y.Some? {
        var second := s';
        HoldsLater(a, left.operand, first.regs, left.builder.nextValue, x.value, second.regs, right.builder.nextValue);
        ReachesTransitive(a, b, s, left.builder, first, Cost(e.left), right.builder, second, Cost(e.right));
        s' := BinaryRuns(a, right.builder, e.operator, left.operand, right.operand, second, x.value, y.value);
        if BinaryMeaning(e.operator, x.value, y.value).Some? {
          ReachesTransitive(a, b, s, right.builder, second, Cost(e.left) + Cost(e.right), finished.builder, s', 2);
        }
      }
    }
  }

  lemma {:induction false} IfRuns(a: Activation, scope: Scope, b: Builder, e: E.Expression, c: Lowered, onTrue: Lowered, onFalse: Lowered, s: Machine)
    returns (s': Machine)
    requires e.If? && Open(b) && LowersIf(scope, b, e, c, onTrue, onFalse)
    requires Within(FinishIf(|c.builder.blocks|, onTrue, onFalse).builder, a.blocks)
    requires Ready(a, scope) && s.at == Here(b, s.at.from) && s.fuel > Cost(e)
    ensures Outcome(a, b, s, FinishIf(|c.builder.blocks|, onTrue, onFalse), Meaning(a, scope, e), s', Cost(e))
    decreases e, 1
  {
    hide Lower, FinishIf, BeginIf;
    StagesAreWithin(c, onTrue, onFalse, a.blocks);
    s' := LowerRuns(a, scope, b, e.condition, c, s);
    var x := Meaning(a, scope, e.condition);
    if x.Some? {
      var tested, taken := s', x.value != 0;
      var entered := BranchRuns(a, c.builder, c.operand, tested, x.value);
      var arm := if taken then onTrue else onFalse;
      var ended := ArmRuns(a, scope, e, c, onTrue, onFalse, taken, entered);
      if Meaning(a, scope, e).Some? {
        s' := ArmJoins(a, c, onTrue, onFalse, taken, ended, Meaning(a, scope, e).value);
        KeepsTransitive(tested.regs, entered.regs, ended.regs, c.builder.nextValue, c.builder.nextValue);
        KeepsTransitive(tested.regs, ended.regs, s'.regs, c.builder.nextValue, arm.builder.nextValue);
        KeepsTransitive(s.regs, tested.regs, s'.regs, b.nextValue, c.builder.nextValue);
      }
    }
  }

  /** The branch the machine entered runs to its end. */
  lemma {:induction false} ArmRuns(a: Activation, scope: Scope, e: E.Expression, c: Lowered, onTrue: Lowered, onFalse: Lowered, taken: bool, s: Machine)
    returns (s': Machine)
    requires e.If? && Staged(c, onTrue, onFalse)
    requires Lower(scope, BeginIf(c.builder, c.operand), e.onTrue) == Ok(onTrue)
    requires Lower(scope, Between(c.builder, onTrue.builder), e.onFalse) == Ok(onFalse)
    requires Within(FinishIf(|c.builder.blocks|, onTrue, onFalse).builder, a.blocks) && Ready(a, scope)
    requires s.at == Position(if taken then |c.builder.blocks| else |c.builder.blocks| + 1, 0, c.builder.current)
    requires s.fuel > Cost(if taken then e.onTrue else e.onFalse)
    ensures var arm, v := if taken then onTrue else onFalse, Meaning(a, scope, if taken then e.onTrue else e.onFalse);
            && c.builder.nextValue <= arm.builder.nextValue && arm.builder.current < |arm.builder.blocks|
            && (v.None? ==> RunFrom(a, s) == None)
            && (v.Some? ==>
                  && s'.at == Here(arm.builder, s'.at.from) && RunFrom(a, s) == RunFrom(a, s')
                  && s'.fuel <= s.fuel <= s'.fuel + Cost(if taken then e.onTrue else e.onFalse)
                  && Keeps(s.regs, s'.regs, c.builder.nextValue)
                  && Holds(a, arm.operand, s'.regs, arm.builder.nextValue, v.value))
    decreases e, 0
  {
    hide Lower, BeginIf, Between, FinishIf;
    StagesAreWithin(c, onTrue, onFalse, a.blocks);
    BetweenGrows(c.builder, c.operand, onTrue.builder);
    BeginIfGrows(c.builder, c.operand);
    if taken {
      s' := LowerRuns(a, scope, BeginIf(c.builder, c.operand), e.onTrue, onTrue, s);
    } else {
      s' := LowerRuns(a, scope, Between(c.builder, onTrue.builder), e.onFalse, onFalse, s);
    }
  }

  lemma {:induction false} LowerAllRuns(a: Activation, scope: Scope, b: Builder, es: seq<E.Expression>, lowered: LoweredAll, s: Machine)
    returns (s': Machine, vs: Option<seq<int>>)
    requires Open(b) && LowerAll(scope, b, es) == Ok(lowered) && Within(lowered.builder, a.blocks)
    requires Ready(a, scope) && s.at == Here(b, s.at.from) && s.fuel > CostAll(es)
    ensures vs == EvaluateAll(a.p, a.calls, scope.parameters, a.args, es)
    ensures vs.None? ==> RunFrom(a, s) == None
    ensures vs.Some? ==>
      && Reaches(a, b, s, lowered.builder, s', CostAll(es))
      && HoldAll(a, lowered.operands, s'.regs, lowered.builder.nextValue, vs.value)
    decreases es, 0
  {
    s', vs := s, EvaluateAll(a.p, a.calls, scope.parameters, a.args, es);
    if es != [] {
      var first := Lower(scope, b, es[0]).value;
      var rest := LowerAll(scope, first.builder, es[1..]).value;
      LowerGrows(scope, b, es[0], first);
      LowerAllGrows(scope, first.builder, es[1..]);
      GrownWithin(first.builder, rest.builder, a.blocks);
      s' := LowerRuns(a, scope, b, es[0], first, s);
      var x := Meaning(a, scope, es[0]);
      if x.Some? {
        var middle := s';
        var others;
        s', others := LowerAllRuns(a, scope, first.builder, es[1..], rest, middle);
        if others.Some? {
          ReachesTransitive(a, b, s, first.builder, middle, Cost(es[0]), rest.builder, s', CostAll(es[1..]));
          HoldFirst(a, first.operand, middle.regs, first.builder.nextValue, x.value, rest.operands, s'.regs, rest.builder.nextValue, others.value);
        }
      }
    }
  }

  // ---------------------------------------------------------------------------
  // Functions and programs
  // ---------------------------------------------------------------------------

  /** A function run from its entry block returns what its body evaluates to. */
  lemma FunctionRuns(p: Program, m: Module, calls: nat, steps: nat, functions: map<string, nat>, f: FunctionDefinition, ir: IrFunction, args: seq<int>)
    requires LowerFunction(functions, f) == Ok(ir) && |args| == |f.parameters| && Cost(f.body) < steps
    requires calls > 0 ==> CallsAgree(p, m, calls - 1, steps)
    ensures Run(m, calls, steps, ir.blocks, args, Position(0, 0, 0), map[], steps)
            == Evaluate(p, calls, Positions(f.parameters), args, f.body)
  {
    hide Lower;
    var scope := Scope(functions, Positions(f.parameters));
    var lowered := Lower(scope, EmptyBody(), f.body).value;
    LowerGrows(scope, EmptyBody(), f.body, lowered);
    var b := lowered.builder;
    assert ir.blocks == Terminate(b, ReturnValue(lowered.operand)).blocks;
    var a := Activation(p, m, calls, steps, ir.blocks, args);
    var s' := LowerRuns(a, scope, EmptyBody(), f.body, lowered, Machine(Position(0, 0, 0), map[], steps));
  }

  /** Both programs resolve a name to the same definition. */
  lemma {:induction false} FindLowered(functions: map<string, nat>, fs: seq<FunctionDefinition>, irs: seq<IrFunction>, name: string)
    requires LowerFunctions(functions, fs) == Ok(irs)
    ensures Find(fs, name).Some? <==> FindIr(irs, name).Some?
    ensures Find(fs, name).Some? ==>
      Find(fs, name).value in fs && LowerFunction(functions, Find(fs, name).value) == Ok(FindIr(irs, name).value)
  {
    hide LowerFunction;
    if fs != [] {
      var first := LowerFunction(functions, fs[0]).value;
      LoweredFunctionKeepsSignature(functions, fs[0], first);
      FindLowered(functions, fs[1..], irs[1..], name);
    }
  }

  lemma LoweredFunctionKeepsSignature(functions: map<string, nat>, f: FunctionDefinition, ir: IrFunction)
    requires LowerFunction(functions, f) == Ok(ir)
    ensures ir.name == f.name && ir.arity == |f.parameters|
  {
  }

  /**
   Every accepted program means the same after lowering: each function on each argument list gives
   the same value, or is undefined in both, whatever the bound on nested calls.
   */
  lemma {:induction false} LoweringPreservesMeaning(p: Program, m: Module, calls: nat, steps: nat, name: string, args: seq<int>)
    requires BuildProgram(p) == Ok(m)
    requires forall f :: f in p.functions ==> Cost(f.body) < steps
    ensures InvokeIr(m, calls, steps, name, args) == Invoke(p, calls, name, args)
    decreases calls
  {
    hide LowerFunction;
    FindLowered(Arities(p.functions), p.functions, m.functions, name);
    var found := Find(p.functions, name);
    if found.Some? {
      var f, ir := found.value, FindIr(m.functions, name).value;
      LoweredFunctionKeepsSignature(Arities(p.functions), f, ir);
      if calls > 0 {
        var below: nat := calls - 1;
        forall other, values ensures InvokeIr(m, below, steps, other, values) == Invoke(p, below, other, values) {
          LoweringPreservesMeaning(p, m, below, steps, other, values);
        }
        assert CallsAgree(p, m, below, steps);
      }
      if |args| == |f.parameters| {
        FunctionRuns(p, m, calls, steps, Arities(p.functions), f, ir, args);
      }
    }
  }
}
