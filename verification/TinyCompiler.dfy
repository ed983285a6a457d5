/**
 Lowering Tiny to blocks. The builder appends to its current block; a conditional makes three
 blocks and joins them with a phi whose predecessors are the blocks where the branches ended.
 */
module TinyCompiler {
  import opened Wrappers
  import opened Decimal
  import opened TinyProgram
  import opened TinyIr
  import E = TinyExpression

  datatype CompileError =
    | UnknownName(name: string)
    | UnknownFunction(callee: string)
    | WrongArity(function_: string, expected: nat, actual: nat)
    | IntegerOutOfRange(value: int)
    | DuplicateFunction(duplicate: string)
    | InvalidMain

  /** What an expression may refer to: the arity of each function, the position of each parameter. */
  datatype Scope = Scope(functions: map<string, nat>, parameters: map<string, nat>)

  /** The open function body and its insertion point. */
  datatype Builder = Builder(blocks: seq<Block>, current: nat, nextBlock: nat, nextValue: nat)

  datatype Lowered = Lowered(builder: Builder, operand: Operand)

  function FreshName(base: string, number: nat): string {
    base + "_" + Digits(number)
  }

  predicate Open(b: Builder) {
    b.current < |b.blocks| && b.blocks[b.current].terminator.None?
  }

  /**
   Appends an instruction with a fresh result name to the current block. Lowering only ever emits
   into an open block; the builder would refuse anything else, and here it changes nothing.
   */
  function Emit(b: Builder, i: Instruction): Builder {
    if !Open(b) then b
    else b.(blocks := b.blocks[b.current := b.blocks[b.current].(body := b.blocks[b.current].body + [i])],
            nextValue := b.nextValue + 1)
  }

  function Terminate(b: Builder, t: Terminator): Builder {
    if !Open(b) then b
    else b.(blocks := b.blocks[b.current := b.blocks[b.current].(terminator := Some(t))])
  }

  function EmptyBlock(base: string, number: nat): Block {
    Block(FreshName(base, number), [], None)
  }

  function OpcodeOf(op: E.BinaryOperator): Opcode {
    match op
    case Plus => Add
    case Minus => Sub
    case Star => Mul
    case Slash => SDiv
    case Percent => SRem
    case Less => Slt
    case Greater => Sgt
  }

  function ResultBase(op: E.BinaryOperator): string {
    match op
    case Plus => "added"
    case Minus => "subtracted"
    case Star => "multiplied"
    case Slash => "divided"
    case Percent => "remainder"
    case Less => "comparison"
    case Greater => "comparison"
  }

  /** Emits one instruction and returns its register. */
  function EmitNegate(b: Builder, o: Operand): Lowered {
    var name := FreshName("negated", b.nextValue);
    Lowered(Emit(b, Negate(name, o)), Register(name))
  }

  function EmitBinary(b: Builder, op: E.BinaryOperator, l: Operand, r: Operand): Lowered {
    var name := FreshName(ResultBase(op), b.nextValue);
    var computed := Emit(b, Compute(name, OpcodeOf(op), l, r));
    if op.Less? || op.Greater? then
      var extended := FreshName("comparison_i32", computed.nextValue);
      Lowered(Emit(computed, ZeroExtend(extended, Register(name))), Register(extended))
    else Lowered(computed, Register(name))
  }

  function EmitCall(b: Builder, callee: string, os: seq<Operand>): Lowered {
    var name := FreshName("called", b.nextValue);
    Lowered(Emit(b, CallDirect(name, callee, os)), Register(name))
  }

  /** Tests the condition, makes the three blocks, branches, and enters the true block. */
  function BeginIf(b: Builder, condition: Operand): Builder {
    var name := FreshName("condition", b.nextValue);
    var tested := Emit(b, Compute(name, Ne, condition, Literal(0)));
    var n := |tested.blocks|;
    var branched := Terminate(tested, ConditionalBranch(Register(name), n, n + 1));
    branched.(blocks := branched.blocks + [EmptyBlock("if_true", b.nextBlock), EmptyBlock("if_false", b.nextBlock),
                                           EmptyBlock("if_merge", b.nextBlock)],
              current := n, nextBlock := b.nextBlock + 1)
  }

  /** Ends a branch at the merge block and moves the insertion point. */
  function EndBranch(b: Builder, merge: nat, next: nat): Builder {
    Terminate(b, Branch(merge)).(current := next)
  }

  function EndIf(b: Builder, onTrue: Incoming, onFalse: Incoming): Lowered {
    var name := FreshName("if_result", b.nextValue);
    Lowered(Emit(b, Phi(name, [onTrue, onFalse])), Register(name))
  }

  /** Ends the false branch at the merge block and joins the two values there. */
  function FinishIf(n: nat, onTrue: Lowered, onFalse: Lowered): Lowered {
    EndIf(EndBranch(onFalse.builder, n + 2, n + 2),
          Incoming(onTrue.operand, onTrue.builder.current), Incoming(onFalse.operand, onFalse.builder.current))
  }

  function Lower(scope: Scope, b: Builder, e: E.Expression): Result<Lowered, CompileError>
    decreases e, 1
  {
    match e
    case Integer(v, _) => if FitsI32(v) then Ok(Lowered(b, Literal(v))) else Err(IntegerOutOfRange(v))
    case Name(n, _) =>
      if n in scope.parameters then Ok(Lowered(b, Argument(scope.parameters[n]))) else Err(UnknownName(n))
    case Unary(o, _) =>
      var operand :- Lower(scope, b, o);
      Ok(EmitNegate(operand.builder, operand.operand))
    case Binary(op, l, r, _) =>
      var left :- Lower(scope, b, l);
      var right :- Lower(scope, left.builder, r);
      Ok(EmitBinary(right.builder, op, left.operand, right.operand))
    case Call(callee, arguments, _) =>
      if callee !in scope.functions then Err(UnknownFunction(callee))
      else if scope.functions[callee] != |arguments| then Err(WrongArity(callee, scope.functions[callee], |arguments|))
      else
        var lowered :- LowerAll(scope, b, arguments);
        Ok(EmitCall(lowered.builder, callee, lowered.operands))
    case If(c, t, f, _) =>
      var condition :- Lower(scope, b, c);
      var n := |condition.builder.blocks|;
      var onTrue :- Lower(scope, BeginIf(condition.builder, condition.operand), t);
      var onFalse :- Lower(scope, EndBranch(onTrue.builder, n + 2, n + 1), f);
      Ok(FinishIf(n, onTrue, onFalse))
  }

  datatype LoweredAll = LoweredAll(builder: Builder, operands: seq<Operand>)

  function LowerAll(scope: Scope, b: Builder, es: seq<E.Expression>): Result<LoweredAll, CompileError>
    decreases es, 0
  {
    if es == [] then Ok(LoweredAll(b, []))
    else
      var first :- Lower(scope, b, es[0]);
      var rest :- LowerAll(scope, first.builder, es[1..]);
      Ok(LoweredAll(rest.builder, [first.operand] + rest.operands))
  }

  function EmptyBody(): Builder {
    Builder([Block("entry", [], None)], 0, 0, 0)
  }

  function LowerFunction(functions: map<string, nat>, f: FunctionDefinition): Result<IrFunction, CompileError> {
    var lowered :- Lower(Scope(functions, Positions(f.parameters)), EmptyBody(), f.body);
    Ok(IrFunction(f.name, |f.parameters|, Terminate(lowered.builder, ReturnValue(lowered.operand)).blocks))
  }

  function Arities(fs: seq<FunctionDefinition>): map<string, nat> {
    if fs == [] then map[] else Arities(fs[..|fs| - 1])[fs[|fs| - 1].name := |fs[|fs| - 1].parameters|]
  }

  function FirstDuplicate(fs: seq<FunctionDefinition>, seen: set<string>): Option<string> {
    if fs == [] then None
    else if fs[0].name in seen then Some(fs[0].name)
    else FirstDuplicate(fs[1..], seen + {fs[0].name})
  }

  function LowerFunctions(functions: map<string, nat>, fs: seq<FunctionDefinition>): Result<seq<IrFunction>, CompileError> {
    if fs == [] then Ok([])
    else
      var first :- LowerFunction(functions, fs[0]);
      var rest :- LowerFunctions(functions, fs[1..]);
      Ok([first] + rest)
  }

  function BuildProgram(p: Program): Result<Module, CompileError> {
    var duplicate := FirstDuplicate(p.functions, {});
    if duplicate.Some? then Err(DuplicateFunction(duplicate.value))
    else
      var main := Find(p.functions, "main");
      if main.None? || main.value.parameters != [] then Err(InvalidMain)
      else
        var functions :- LowerFunctions(Arities(p.functions), p.functions);
        Ok(Module(functions))
  }
}
