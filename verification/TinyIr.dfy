/**
 A block IR with phis and its step semantics: named registers, one terminator a block, and a phi
 that reads the value of the block control came from.
 */
module TinyIr {
  import opened Wrappers
  import opened TinyProgram
  import A = IntegerArithmetic

  datatype Operand = Literal(value: int) | Argument(index: nat) | Register(name: string)

  datatype Opcode = Add | Sub | Mul | SDiv | SRem | Slt | Sgt | Ne

  datatype Incoming = Incoming(value: Operand, predecessor: nat)

  datatype Instruction =
    | Negate(result: string, operand: Operand)
    | Compute(result: string, op: Opcode, left: Operand, right: Operand)
    | ZeroExtend(result: string, operand: Operand)
    | CallDirect(result: string, callee: string, arguments: seq<Operand>)
    | Phi(result: string, incoming: seq<Incoming>)

  datatype Terminator =
    | ReturnValue(value: Operand)
    | Branch(target: nat)
    | ConditionalBranch(condition: Operand, onTrue: nat, onFalse: nat)

  datatype Block = Block(tag: string, body: seq<Instruction>, terminator: Option<Terminator>)

  datatype IrFunction = IrFunction(name: string, arity: nat, blocks: seq<Block>)

  datatype Module = Module(functions: seq<IrFunction>)

  type Registers = map<string, int>

  /** A position in a function body: the block, the instruction, and the block control came from. */
  datatype Position = Position(block: nat, at: nat, from: nat)

  function ValueOf(o: Operand, regs: Registers, args: seq<int>): Option<int> {
    match o
    case Literal(v) => Some(v)
    case Argument(i) => if i < |args| then Some(args[i]) else None
    case Register(name) => if name in regs then Some(regs[name]) else None
  }

  function ValuesOf(os: seq<Operand>, regs: Registers, args: seq<int>): (r: Option<seq<int>>)
    ensures r.Some? ==> |r.value| == |os|
  {
    if os == [] then Some([])
    else
      var first := ValueOf(os[0], regs, args);
      var rest := ValuesOf(os[1..], regs, args);
      if first.None? || rest.None? then None else Some([first.value] + rest.value)
  }

  function OpcodeMeaning(op: Opcode, x: int, y: int): Option<int> {
    match op
    case Add => Some(WrapI32(x + y))
    case Sub => Some(WrapI32(x - y))
    case Mul => Some(WrapI32(x * y))
    case SDiv => if DivisionDefined(x, y) then Some(A.Quotient(x, y)) else None
    case SRem => if DivisionDefined(x, y) then Some(x - y * A.Quotient(x, y)) else None
    case Slt => Some(if x < y then 1 else 0)
    case Sgt => Some(if x > y then 1 else 0)
    case Ne => Some(if x != y then 1 else 0)
  }

  function IncomingFrom(incoming: seq<Incoming>, from: nat): Option<Operand> {
    if incoming == [] then None
    else if incoming[0].predecessor == from then Some(incoming[0].value)
    else IncomingFrom(incoming[1..], from)
  }

  function FindIr(fs: seq<IrFunction>, name: string): Option<IrFunction> {
    if fs == [] then None
    else if fs[0].name == name then Some(fs[0])
    else FindIr(fs[1..], name)
  }

  /** The value one instruction produces. A call runs the callee for up to `steps` steps. */
  function Execute(m: Module, calls: nat, steps: nat, i: Instruction, from: nat, regs: Registers, args: seq<int>): Option<int>
    decreases calls, 0
  {
    match i
    case Negate(_, o) =>
      var x := ValueOf(o, regs, args);
      if x.None? then None else Some(WrapI32(0 - x.value))
    case Compute(_, op, l, r) =>
      var x, y := ValueOf(l, regs, args), ValueOf(r, regs, args);
      if x.None? || y.None? then None else OpcodeMeaning(op, x.value, y.value)
    case ZeroExtend(_, o) => ValueOf(o, regs, args)
    case CallDirect(_, callee, os) =>
      var values := ValuesOf(os, regs, args);
      if values.None? || calls == 0 then None else InvokeIr(m, calls - 1, steps, callee, values.value)
    case Phi(_, incoming) =>
      var selected := IncomingFrom(incoming, from);
      if selected.None? then None else ValueOf(selected.value, regs, args)
  }

  /** Runs a function body from a position for at most `fuel` steps. */
  function Run(m: Module, calls: nat, steps: nat, blocks: seq<Block>, args: seq<int>, p: Position, regs: Registers, fuel: nat): Option<int>
    decreases calls, 1, fuel
  {
    if fuel == 0 || p.block >= |blocks| then None
    else
      var block := blocks[p.block];
      if p.at < |block.body| then
        var i := block.body[p.at];
        var value := Execute(m, calls, steps, i, p.from, regs, args);
        if value.None? then None
        else Run(m, calls, steps, blocks, args, p.(at := p.at + 1), regs[i.result := value.value], fuel - 1)
      else
        match block.terminator
        case None => None
        case Some(ReturnValue(o)) => ValueOf(o, regs, args)
        case Some(Branch(target)) => Run(m, calls, steps, blocks, args, Position(target, 0, p.block), regs, fuel - 1)
        case Some(ConditionalBranch(c, onTrue, onFalse)) =>
          var x := ValueOf(c, regs, args);
          if x.None? then None
          else
            var target := if x.value != 0 then onTrue else onFalse;
            Run(m, calls, steps, blocks, args, Position(target, 0, p.block), regs, fuel - 1)
  }

  /** Runs one IR function from its first block. */
  function InvokeIr(m: Module, calls: nat, steps: nat, name: string, args: seq<int>): Option<int>
    decreases calls, 2
  {
    var f := FindIr(m.functions, name);
    if f.None? || |args| != f.value.arity then None
    else Run(m, calls, steps, f.value.blocks, args, Position(0, 0, 0), map[], steps)
  }
}
