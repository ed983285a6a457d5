/**
 The lowering context as the compiler keeps it: the open body, the block being filled, and the two
 counters, all updated in place.
 */
module TinyBuilder {
  import opened Wrappers
  import opened TinyProgram
  import opened TinyIr
  import opened TinyCompiler
  import opened TinyAcceptance
  import opened TinyLowering
  import opened TinySimulation
  import opened TinyWellFormed
  import E = TinyExpression

  // ---------------------------------------------------------------------------
  // The context and its updates
  // ---------------------------------------------------------------------------

  lemma FinishIfJoins(n: nat, onTrue: Lowered, onFalse: Lowered)
    ensures FinishIf(n, onTrue, onFalse)
            == EndIf(EndBranch(onFalse.builder, n + 2, n + 2),
                     Incoming(onTrue.operand, onTrue.builder.current), Incoming(onFalse.operand, onFalse.builder.current))
  {
  }

  lemma BetweenStaysOpen(scope: Scope, b: Builder, e: E.Expression, c: Lowered, t: Lowered)
    requires e.If? && Open(b) && Lower(scope, b, e.condition) == Ok(c)
    requires Lower(scope, BeginIf(c.builder, c.operand), e.onTrue) == Ok(t)
    ensures Open(EndBranch(t.builder, |c.builder.blocks| + 2, |c.builder.blocks| + 1))
  {
    hide Lower;
    LowerGrows(scope, b, e.condition, c);
    BeginIfGrows(c.builder, c.operand);
    LowerGrows(scope, BeginIf(c.builder, c.operand), e.onTrue, t);
    BetweenGrows(c.builder, c.operand, t.builder);
  }

  lemma MergedStaysOpen(scope: Scope, b: Builder, e: E.Expression, c: Lowered, t: Lowered, f: Lowered)
    requires e.If? && Open(b) && Lower(scope, b, e.condition) == Ok(c)
    requires Lower(scope, BeginIf(c.builder, c.operand), e.onTrue) == Ok(t)
    requires Lower(scope, EndBranch(t.builder, |c.builder.blocks| + 2, |c.builder.blocks| + 1), e.onFalse) == Ok(f)
    ensures Open(EndBranch(f.builder, |c.builder.blocks| + 2, |c.builder.blocks| + 2))
  {
    hide Lower;
    LowerGrows(scope, b, e.condition, c);
    BeginIfGrows(c.builder, c.operand);
    LowerGrows(scope, BeginIf(c.builder, c.operand), e.onTrue, t);
    BetweenGrows(c.builder, c.operand, t.builder);
    LowerGrows(scope, Between(c.builder, t.builder), e.onFalse, f);
    MergedGrows(c.builder, Between(c.builder, t.builder), f.builder);
  }

  class LoweringContext {
    const scope: Scope
    var blocks: seq<Block>
    var currentBlock: nat
    var nextBlock: nat
    var nextValue: nat

    ghost function Contents(): Builder
      reads this
    {
      Builder(blocks, currentBlock, nextBlock, nextValue)
    }

    ghost predicate Valid()
      reads this
    {
      Open(Contents())
    }

    /** The entry block, open and empty. */
    constructor (scope: Scope)
      ensures this.scope == scope && Contents() == EmptyBody() && Valid()
    {
      this.scope := scope;
      blocks, currentBlock, nextBlock, nextValue := [Block("entry", [], None)], 0, 0, 0;
    }

    method TakeName(base: string) returns (name: string)
      modifies this`nextValue
      ensures name == FreshName(base, old(nextValue)) && nextValue == old(nextValue) + 1
    {
      name := FreshName(base, nextValue);
      nextValue := nextValue + 1;
    }

    method Append(i: Instruction)
      requires Valid()
      modifies this`blocks
      ensures Valid() && Contents() == Emit(old(Contents()), i).(nextValue := nextValue)
    {
      blocks := blocks[currentBlock := blocks[currentBlock].(body := blocks[currentBlock].body + [i])];
    }

    method End(t: Terminator)
      requires Valid()
      modifies this`blocks
      ensures Contents() == Terminate(old(Contents()), t)
    {
      blocks := blocks[currentBlock := blocks[currentBlock].(terminator := Some(t))];
    }

    method MakeBlock(base: string, number: nat) returns (index: nat)
      modifies this`blocks
      ensures index == |old(blocks)| && blocks == old(blocks) + [EmptyBlock(base, number)]
    {
      index := |blocks|;
      blocks := blocks + [Block(FreshName(base, number), [], None)];
    }

    method LowerOperator(op: E.BinaryOperator, left: Operand, right: Operand) returns (r: Operand)
      requires Valid()
      modifies this
      ensures Valid() && Lowered(Contents(), r) == EmitBinary(old(Contents()), op, left, right)
    {
      var name := TakeName(ResultBase(op));
      Append(Compute(name, OpcodeOf(op), left, right));
      r := Register(name);
      if op.Less? || op.Greater? {
        var extended := TakeName("comparison_i32");
        Append(ZeroExtend(extended, r));
        r := Register(extended);
      }
    }

    /** Tests the condition, makes the three blocks, branches, and enters the true block. */
    method StartConditional(condition: Operand) returns (onFalse: nat, merge: nat)
      requires Valid()
      modifies this
      ensures Valid() && Contents() == BeginIf(old(Contents()), condition)
      ensures onFalse == |old(blocks)| + 1 && merge == |old(blocks)| + 2
    {
      var name := TakeName("condition");
      Append(Compute(name, Ne, condition, Literal(0)));
      var id := nextBlock;
      nextBlock := nextBlock + 1;
      var onTrue := MakeBlock("if_true", id);
      onFalse := MakeBlock("if_false", id);
      merge := MakeBlock("if_merge", id);
      End(ConditionalBranch(Register(name), onTrue, onFalse));
      currentBlock := onTrue;
    }

    /** Emits the expression's blocks and yields its value, or reports the first error. */
    method LowerExpression(e: E.Expression) returns (r: Result<Operand, CompileError>)
      requires Valid()
      modifies this
      ensures match Lower(scope, old(Contents()), e)
              case Ok(lowered) => Valid() && r == Ok(lowered.operand) && Contents() == lowered.builder
              case Err(error) => r == Err(error)
      decreases e, 1
    {
      match e
      case Integer(v, _) =>
        if FitsI32(v) { return Ok(Literal(v)); } else { return Err(IntegerOutOfRange(v)); }
      case Name(n, _) =>
        if n in scope.parameters { return Ok(Argument(scope.parameters[n])); } else { return Err(UnknownName(n)); }
      case Unary(o, _) =>
        var operand :- LowerExpression(o);
        var name := TakeName("negated");
        Append(Negate(name, operand));
        return Ok(Register(name));
      case Binary(op, l, right, _) =>
        var x :- LowerExpression(l);
        var y :- LowerExpression(right);
        var z := LowerOperator(op, x, y);
        return Ok(z);
      case Call(callee, arguments, _) =>
        if callee !in scope.functions { return Err(UnknownFunction(callee)); }
        if scope.functions[callee] != |arguments| {
          return Err(WrongArity(callee, scope.functions[callee], |arguments|));
        }
        var values :- LowerArguments(arguments);
        var name := TakeName("called");
        Append(CallDirect(name, callee, values));
        return Ok(Register(name));
      case If(c, t, f, _) =>
        r := LowerConditional(e);
    }

    method LowerConditional(e: E.Expression) returns (r: Result<Operand, CompileError>)
      requires Valid() && e.If?
      modifies this
      ensures match Lower(scope, old(Contents()), e)
              case Ok(lowered) => Valid() && r == Ok(lowered.operand) && Contents() == lowered.builder
              case Err(error) => r == Err(error)
      decreases e, 0
    {
      hide Lower, FinishIf, BeginIf;
      LowerIfStages(scope, Contents(), e);
      ghost var before := Contents();
      var condition :- LowerExpression(e.condition);
      ghost var c := Lowered(Contents(), condition);
      var onFalseBlock, mergeBlock := StartConditional(condition);
      var onTrue :- LowerExpression(e.onTrue);
      ghost var t := Lowered(Contents(), onTrue);
      BetweenStaysOpen(scope, before, e, c, t);
      var onTruePredecessor := currentBlock;
      EnterAfter(mergeBlock, onFalseBlock);
      var onFalse :- LowerExpression(e.onFalse);
      ghost var f := Lowered(Contents(), onFalse);
      MergedStaysOpen(scope, before, e, c, t, f);
      var onFalsePredecessor := currentBlock;
      EnterAfter(mergeBlock, mergeBlock);
      var result := Join(Incoming(onTrue, onTruePredecessor), Incoming(onFalse, onFalsePredecessor));
      FinishIfJoins(|c.builder.blocks|, t, f);
      return Ok(result);
    }

    /** Ends the current block at the merge block and moves the insertion point. */
    method EnterAfter(merge: nat, next: nat)
      requires Valid() && Open(EndBranch(Contents(), merge, next))
      modifies this
      ensures Valid() && Contents() == EndBranch(old(Contents()), merge, next)
    {
      End(Branch(merge));
      currentBlock := next;
    }

    method Join(onTrue: Incoming, onFalse: Incoming) returns (r: Operand)
      requires Valid()
      modifies this
      ensures Valid() && Lowered(Contents(), r) == EndIf(old(Contents()), onTrue, onFalse)
    {
      var name := TakeName("if_result");
      Append(Phi(name, [onTrue, onFalse]));
      return Register(name);
    }

    method LowerArguments(es: seq<E.Expression>) returns (r: Result<seq<Operand>, CompileError>)
      requires Valid()
      modifies this
      ensures match LowerAll(scope, old(Contents()), es)
              case Ok(lowered) => Valid() && r == Ok(lowered.operands) && Contents() == lowered.builder
              case Err(error) => r == Err(error)
      decreases es, 0
    {
      if es == [] { return Ok([]); }
      var first :- LowerExpression(es[0]);
      var rest :- LowerArguments(es[1..]);
      return Ok([first] + rest);
    }
  }

  // ---------------------------------------------------------------------------
  // Whole programs
  // ---------------------------------------------------------------------------

  lemma {:induction false} LoweredFunctionsAreWellFormed(table: map<string, nat>, fs: seq<FunctionDefinition>, irs: seq<IrFunction>)
    requires LowerFunctions(table, fs) == Ok(irs)
    ensures forall f :: f in irs ==> WellFormed(f)
  {
    hide LowerFunction, WellFormed;
    if fs != [] {
      LoweredFunctionIsWellFormed(table, fs[0], irs[0]);
      LoweredFunctionsAreWellFormed(table, fs[1..], irs[1..]);
      assert irs == [irs[0]] + irs[1..];
    }
  }

  /** Steps enough for any one body. */
  ghost predicate AmpleSteps(p: Program, steps: nat) {
    forall f :: f in p.functions ==> Cost(f.body) < steps
  }

  ghost function Prepend(done: seq<IrFunction>, rest: Result<seq<IrFunction>, CompileError>): Result<seq<IrFunction>, CompileError> {
    if rest.Ok? then Ok(done + rest.value) else rest
  }

  lemma PrependNothing(rest: Result<seq<IrFunction>, CompileError>)
    ensures Prepend([], rest) == rest
  {
    if rest.Ok? { assert [] + rest.value == rest.value; }
  }

  lemma PrependNext(table: map<string, nat>, done: seq<IrFunction>, fs: seq<FunctionDefinition>)
    requires fs != []
    ensures match LowerFunction(table, fs[0])
            case Ok(ir) => Prepend(done, LowerFunctions(table, fs)) == Prepend(done + [ir], LowerFunctions(table, fs[1..]))
            case Err(error) => Prepend(done, LowerFunctions(table, fs)) == Err(error)
  {
    hide LowerFunction;
    if LowerFunction(table, fs[0]).Ok? && LowerFunctions(table, fs[1..]).Ok? {
      var ir, rest := LowerFunction(table, fs[0]).value, LowerFunctions(table, fs[1..]).value;
      assert done + ([ir] + rest) == (done + [ir]) + rest;
    }
  }

  method LowerBody(functions: map<string, nat>, f: FunctionDefinition) returns (r: Result<IrFunction, CompileError>)
    ensures r == LowerFunction(functions, f)
  {
    hide Lower;
    var context := new LoweringContext(Scope(functions, Positions(f.parameters)));
    var value :- context.LowerExpression(f.body);
    context.End(ReturnValue(value));
    return Ok(IrFunction(f.name, |f.parameters|, context.blocks));
  }

  /**
   Compiles a program. It is accepted exactly when well scoped; an accepted program's functions are
   well formed, and running them means what the source means.
   */
  method Build(p: Program) returns (r: Result<Module, CompileError>)
    ensures r == BuildProgram(p)
    ensures r.Ok? <==> Accepted(p)
    ensures r.Err? ==> ProgramHasProblem(p, r.error)
    ensures r.Ok? ==> forall f :: f in r.value.functions ==> WellFormed(f)
    ensures r.Ok? ==> forall calls, steps, name, args :: AmpleSteps(p, steps) ==>
      InvokeIr(r.value, calls, steps, name, args) == Invoke(p, calls, name, args)
  {
    hide WellFormed, LowerFunction, Accepted, ProgramHasProblem;
    BuildAcceptsExactly(p);
    var fs := p.functions;
    var seen: set<string> := {};
    for i := 0 to |fs|
      invariant FirstDuplicate(fs, {}) == FirstDuplicate(fs[i..], seen)
    {
      if fs[i].name in seen { return Err(DuplicateFunction(fs[i].name)); }
      seen := seen + {fs[i].name};
      assert fs[i..][1..] == fs[i + 1..];
    }
    var main := Find(fs, "main");
    if main.None? || main.value.parameters != [] { return Err(InvalidMain); }
    var table: map<string, nat> := map[];
    for i := 0 to |fs|
      invariant table == Arities(fs[..i])
    {
      table := table[fs[i].name := |fs[i].parameters|];
      assert fs[..i + 1][..i] == fs[..i];
    }
    assert fs[..|fs|] == fs;
    var functions: seq<IrFunction> := [];
    PrependNothing(LowerFunctions(table, fs[0..]));
    for i := 0 to |fs|
      invariant LowerFunctions(table, fs) == Prepend(functions, LowerFunctions(table, fs[i..]))
    {
      assert fs[i..][1..] == fs[i + 1..];
      PrependNext(table, functions, fs[i..]);
      var lowered :- LowerBody(table, fs[i]);
      functions := functions + [lowered];
    }
    assert LowerFunctions(table, fs[|fs|..]) == Ok([]) && functions + [] == functions;
    r := Ok(Module(functions));
    LoweredFunctionsAreWellFormed(table, fs, functions);
    forall calls, steps, name, args | AmpleSteps(p, steps)
      ensures InvokeIr(r.value, calls, steps, name, args) == Invoke(p, calls, name, args)
    {
      LoweringPreservesMeaning(p, r.value, calls, steps, name, args);
    }
  }
}
