/** Tiny programs and what they mean: 32-bit wrapping arithmetic over plain recursive evaluation. */
module TinyProgram {
  import opened Wrappers
  import opened TinyExpression
  import A = IntegerArithmetic

  const MIN_I32: int := -0x8000_0000
  const MAX_I32: int := 0x7FFF_FFFF

  predicate FitsI32(x: int) {
    MIN_I32 <= x <= MAX_I32
  }

  function WrapI32(x: int): (r: int)
    ensures FitsI32(r)
  {
    (x - MIN_I32) % 0x1_0000_0000 + MIN_I32
  }

  /** The signed division instructions are undefined at a zero divisor and at MIN / -1. */
  predicate DivisionDefined(x: int, y: int) {
    y != 0 && !(x == MIN_I32 && y == -1)
  }

  function BinaryMeaning(op: BinaryOperator, x: int, y: int): Option<int> {
    match op
    case Plus => Some(WrapI32(x + y))
    case Minus => Some(WrapI32(x - y))
    case Star => Some(WrapI32(x * y))
    case Slash => if DivisionDefined(x, y) then Some(A.Quotient(x, y)) else None
    case Percent => if DivisionDefined(x, y) then Some(x - y * A.Quotient(x, y)) else None
    case Less => Some(if x < y then 1 else 0)
    case Greater => Some(if x > y then 1 else 0)
  }

  datatype FunctionDefinition = FunctionDefinition(name: string, parameters: seq<string>, body: Expression)

  datatype Program = Program(functions: seq<FunctionDefinition>)

  function Find(fs: seq<FunctionDefinition>, name: string): Option<FunctionDefinition> {
    if fs == [] then None
    else if fs[0].name == name then Some(fs[0])
    else Find(fs[1..], name)
  }

  /** The position of each parameter; a repeated name keeps its last position. */
  function Positions(parameters: seq<string>): (r: map<string, nat>)
    ensures forall x :: x in r ==> r[x] < |parameters|
  {
    if parameters == [] then map[]
    else Positions(parameters[..|parameters| - 1])[parameters[|parameters| - 1] := |parameters| - 1]
  }

  /** Evaluates an expression in a function whose parameters hold `args`; `calls` bounds nested calls. */
  function Evaluate(p: Program, calls: nat, where_: map<string, nat>, args: seq<int>, e: Expression): Option<int>
    decreases calls, 0, e, 1
  {
    match e
    case Integer(v, _) => if FitsI32(v) then Some(v) else None
    case Name(n, _) => if n in where_ && where_[n] < |args| then Some(args[where_[n]]) else None
    case Unary(o, _) =>
      var x := Evaluate(p, calls, where_, args, o);
      if x.None? then None else Some(WrapI32(0 - x.value))
    case Binary(op, l, r, _) =>
      var x := Evaluate(p, calls, where_, args, l);
      if x.None? then None
      else
        var y := Evaluate(p, calls, where_, args, r);
        if y.None? then None else BinaryMeaning(op, x.value, y.value)
    case Call(callee, arguments, _) =>
      var values := EvaluateAll(p, calls, where_, args, arguments);
      if values.None? || calls == 0 then None else Invoke(p, calls - 1, callee, values.value)
    case If(c, t, f, _) =>
      var x := Evaluate(p, calls, where_, args, c);
      if x.None? then None
      else if x.value != 0 then Evaluate(p, calls, where_, args, t)
      else Evaluate(p, calls, where_, args, f)
  }

  function EvaluateAll(p: Program, calls: nat, where_: map<string, nat>, args: seq<int>, es: seq<Expression>): (r: Option<seq<int>>)
    ensures r.Some? ==> |r.value| == |es|
    decreases calls, 0, es, 0
  {
    if es == [] then Some([])
    else
      var x := Evaluate(p, calls, where_, args, es[0]);
      if x.None? then None
      else
        var rest := EvaluateAll(p, calls, where_, args, es[1..]);
        if rest.None? then None else Some([x.value] + rest.value)
  }

  /** Runs one function on its arguments. */
  function Invoke(p: Program, calls: nat, name: string, args: seq<int>): Option<int>
    decreases calls, 1
  {
    var f := Find(p.functions, name);
    if f.None? || |args| != |f.value.parameters| then None
    else Evaluate(p, calls, Positions(f.value.parameters), args, f.value.body)
  }
}
