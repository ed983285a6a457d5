/**
 Lowering preserves meaning: running the emitted blocks from the entry computes exactly what
 evaluating the source does, value for value and undefined for undefined.
 */
module TinyLowering {
  import opened Wrappers
  import opened Decimal
  import opened TinyIr
  import opened TinyCompiler
  import E = TinyExpression

  // ---------------------------------------------------------------------------
  // Fresh names
  // ---------------------------------------------------------------------------

  function TrailingDigits(s: string): string {
    if s == "" || !IsDigit(s[|s| - 1]) then ""
    else TrailingDigits(s[..|s| - 1]) + [s[|s| - 1]]
  }

  lemma {:induction false} TrailingDigitsAre(front: string, d: string)
    requires AllDigits(d)
    ensures TrailingDigits(front + "_" + d) == d
  {
    if d == "" {
      assert front + "_" + d == front + "_";
    } else {
      var s, shorter := front + "_" + d, d[..|d| - 1];
      assert s[..|s| - 1] == front + "_" + shorter;
      TrailingDigitsAre(front, shorter);
    }
  }

  /** The number a fresh name was made with. */
  function NumberOf(name: string): nat {
    if AllDigits(TrailingDigits(name)) then Decimal.ValueOf(TrailingDigits(name)) else 0
  }

  /** The number can be read off the name, so no two fresh names clash. */
  lemma NumberOfFresh(base: string, i: nat)
    ensures NumberOf(FreshName(base, i)) == i
  {
    TrailingDigitsAre(base, Digits(i));
    ValueOfDigits(i);
  }

  // ---------------------------------------------------------------------------
  // The blocks only grow
  // ---------------------------------------------------------------------------

  /** How lowering may change the blocks: only the current block and blocks made since. */
  ghost predicate Grows(b: Builder, b': Builder) {
    && |b.blocks| <= |b'.blocks|
    && b.nextBlock <= b'.nextBlock && b.nextValue <= b'.nextValue
    && b.current < |b.blocks| && b'.current < |b'.blocks|
    && (b'.current == b.current || b'.current >= |b.blocks|)
    && (forall i :: 0 <= i < |b.blocks| && i != b.current ==> b'.blocks[i] == b.blocks[i])
    && b'.blocks[b.current].tag == b.blocks[b.current].tag
    && b.blocks[b.current].body <= b'.blocks[b.current].body
  }

  lemma GrowsReflexive(b: Builder)
    requires Open(b)
    ensures Grows(b, b)
  {
  }

  lemma GrowsTransitive(a: Builder, b: Builder, c: Builder)
    requires Grows(a, b) && Grows(b, c)
    ensures Grows(a, c)
  {
  }

  lemma EmitGrows(b: Builder, i: Instruction)
    requires Open(b)
    ensures Open(Emit(b, i)) && Grows(b, Emit(b, i))
  {
  }

  lemma EmitBinaryGrows(b: Builder, op: E.BinaryOperator, l: Operand, r: Operand)
    requires Open(b)
    ensures var b' := EmitBinary(b, op, l, r).builder; Open(b') && Grows(b, b')
  {
  }

  lemma BeginIfGrows(b: Builder, condition: Operand)
    requires Open(b)
    ensures var b' := BeginIf(b, condition);
            && Open(b') && Grows(b, b') && b.nextValue < b'.nextValue
            && b'.current == |b.blocks| && b'.blocks[b'.current] == EmptyBlock("if_true", b.nextBlock)
  {
  }

  /** The insertion point after the true branch: the false block, still open and empty. */
  function Between(c: Builder, onTrue: Builder): Builder {
    EndBranch(onTrue, |c.blocks| + 2, |c.blocks| + 1)
  }

  lemma BetweenGrows(c: Builder, condition: Operand, onTrue: Builder)
    requires Open(c) && Grows(BeginIf(c, condition), onTrue) && Open(onTrue)
    ensures var n, between := |c.blocks|, Between(c, onTrue);
            && Grows(c, between) && Open(between) && between.current == n + 1 && n + 2 < |between.blocks|
            && between.blocks[n + 1] == EmptyBlock("if_false", c.nextBlock)
            && between.blocks[n + 2] == EmptyBlock("if_merge", c.nextBlock)
            && (onTrue.current == n || onTrue.current > n + 2)
            && between.blocks[onTrue.current] == onTrue.blocks[onTrue.current].(terminator := Some(Branch(n + 2)))
  {
  }

  /** The merge block after the false branch, still open and empty. */
  lemma MergedGrows(c: Builder, between: Builder, onFalse: Builder)
    requires Open(c) && Grows(c, between) && Grows(between, onFalse) && Open(onFalse)
    requires between.current == |c.blocks| + 1 && |c.blocks| + 2 < |between.blocks|
    requires between.blocks[|c.blocks| + 2] == EmptyBlock("if_merge", c.nextBlock)
    ensures var n := |c.blocks|;
            var merged := EndBranch(onFalse, n + 2, n + 2);
            && Grows(c, merged) && Open(merged) && merged.blocks[n + 2] == EmptyBlock("if_merge", c.nextBlock)
            && onFalse.current != n + 2
            && merged.blocks[onFalse.current] == onFalse.blocks[onFalse.current].(terminator := Some(Branch(n + 2)))
  {
  }

  lemma FinishIfGrows(c: Builder, between: Builder, onTrue: Lowered, onFalse: Lowered)
    requires Open(c) && Grows(c, between) && Grows(between, onFalse.builder) && Open(onFalse.builder)
    requires between.current == |c.blocks| + 1 && |c.blocks| + 2 < |between.blocks|
    requires between.blocks[|c.blocks| + 2] == EmptyBlock("if_merge", c.nextBlock)
    ensures var b' := FinishIf(|c.blocks|, onTrue, onFalse).builder; Open(b') && Grows(c, b')
  {
  }

  /** The three parts of a conditional, each lowered from where the one before left off. */
  ghost predicate Staged(c: Lowered, onTrue: Lowered, onFalse: Lowered) {
    && Open(c.builder)
    && Grows(BeginIf(c.builder, c.operand), onTrue.builder) && Open(onTrue.builder)
    && Grows(Between(c.builder, onTrue.builder), onFalse.builder) && Open(onFalse.builder)
  }

  /** The branches end in different blocks, so the phi can tell them apart. */
  lemma ArmsEndApart(c: Lowered, onTrue: Lowered, onFalse: Lowered)
    requires Staged(c, onTrue, onFalse)
    ensures onTrue.builder.current != onFalse.builder.current
    ensures onTrue.builder.nextValue <= onFalse.builder.nextValue
  {
  }

  function Merged(c: Builder, onFalse: Builder): Builder {
    EndBranch(onFalse, |c.blocks| + 2, |c.blocks| + 2)
  }

  lemma {:induction false} LowerGrows(scope: Scope, b: Builder, e: E.Expression, lowered: Lowered)
    requires Open(b) && Lower(scope, b, e) == Ok(lowered)
    ensures Open(lowered.builder) && Grows(b, lowered.builder)
    decreases e, 1
  {
    hide Grows, Emit, EmitBinary, BeginIf, FinishIf, FreshName, Between;
    GrowsReflexive(b);
    match e
    case Integer(_, _) =>
    case Name(_, _) =>
    case Unary(o, _) =>
      var l := Lower(scope, b, o).value;
      LowerGrows(scope, b, o, l);
      EmitGrows(l.builder, Negate(FreshName("negated", l.builder.nextValue), l.operand));
      GrowsTransitive(b, l.builder, lowered.builder);
    case Binary(op, l, r, _) =>
      var left := Lower(scope, b, l).value;
      var right := Lower(scope, left.builder, r).value;
      LowerGrows(scope, b, l, left);
      LowerGrows(scope, left.builder, r, right);
      GrowsTransitive(b, left.builder, right.builder);
      EmitBinaryGrows(right.builder, op, left.operand, right.operand);
      GrowsTransitive(b, right.builder, EmitBinary(right.builder, op, left.operand, right.operand).builder);
    case Call(callee, arguments, _) =>
      LowerAllGrows(scope, b, arguments);
      var l := LowerAll(scope, b, arguments).value;
      EmitGrows(l.builder, CallDirect(FreshName("called", l.builder.nextValue), callee, l.operands));
      GrowsTransitive(b, l.builder, lowered.builder);
    case If(_, _, _, _) =>
      var c, onTrue, onFalse := LowerIfGrows(scope, b, e);
      BetweenGrows(c.builder, c.operand, onTrue.builder);
      FinishIfGrows(c.builder, Between(c.builder, onTrue.builder), onTrue, onFalse);
      GrowsTransitive(b, c.builder, FinishIf(|c.builder.blocks|, onTrue, onFalse).builder);
  }

  /** The three lowerings inside a conditional, each growing from the one before. */
  ghost predicate LowersIf(scope: Scope, b: Builder, e: E.Expression, c: Lowered, onTrue: Lowered, onFalse: Lowered)
    requires e.If?
  {
    var between := Between(c.builder, onTrue.builder);
    && Lower(scope, b, e.condition) == Ok(c)
    && Lower(scope, BeginIf(c.builder, c.operand), e.onTrue) == Ok(onTrue)
    && Lower(scope, between, e.onFalse) == Ok(onFalse)
    && Open(c.builder) && Grows(b, c.builder)
    && Open(onTrue.builder) && Grows(BeginIf(c.builder, c.operand), onTrue.builder)
    && Open(between) && Grows(c.builder, between)
    && Open(onFalse.builder) && Grows(between, onFalse.builder)
  }

  /** A conditional is lowered by lowering its three parts in turn. */
  lemma LowerIfUnfolds(scope: Scope, b: Builder, e: E.Expression) returns (c: Lowered, onTrue: Lowered, onFalse: Lowered)
    requires e.If? && Lower(scope, b, e).Ok?
    ensures Lower(scope, b, e.condition) == Ok(c)
    ensures Lower(scope, BeginIf(c.builder, c.operand), e.onTrue) == Ok(onTrue)
    ensures Lower(scope, EndBranch(onTrue.builder, |c.builder.blocks| + 2, |c.builder.blocks| + 1), e.onFalse) == Ok(onFalse)
    ensures Lower(scope, b, e) == Ok(FinishIf(|c.builder.blocks|, onTrue, onFalse))
  {
    c := Lower(scope, b, e.condition).value;
    onTrue := Lower(scope, BeginIf(c.builder, c.operand), e.onTrue).value;
    onFalse := Lower(scope, EndBranch(onTrue.builder, |c.builder.blocks| + 2, |c.builder.blocks| + 1), e.onFalse).value;
  }

  lemma {:induction false} LowerIfGrows(scope: Scope, b: Builder, e: E.Expression)
    returns (c: Lowered, onTrue: Lowered, onFalse: Lowered)
    requires Open(b) && e.If? && Lower(scope, b, e).Ok?
    ensures LowersIf(scope, b, e, c, onTrue, onFalse)
    ensures Lower(scope, b, e) == Ok(FinishIf(|c.builder.blocks|, onTrue, onFalse))
    decreases e, 0
  {
    hide Lower;
    c, onTrue, onFalse := LowerIfUnfolds(scope, b, e);
    LowerGrows(scope, b, e.condition, c);
    BeginIfGrows(c.builder, c.operand);
    LowerGrows(scope, BeginIf(c.builder, c.operand), e.onTrue, onTrue);
    BetweenGrows(c.builder, c.operand, onTrue.builder);
    LowerGrows(scope, Between(c.builder, onTrue.builder), e.onFalse, onFalse);
  }

  lemma {:induction false} LowerAllGrows(scope: Scope, b: Builder, es: seq<E.Expression>)
    requires Open(b) && LowerAll(scope, b, es).Ok?
    ensures var r := LowerAll(scope, b, es).value; Open(r.builder) && Grows(b, r.builder) && |r.operands| == |es|
    decreases es, 0
  {
    if es != [] {
      var first := Lower(scope, b, es[0]).value;
      LowerGrows(scope, b, es[0], first);
      LowerAllGrows(scope, first.builder, es[1..]);
      GrowsTransitive(b, first.builder, LowerAll(scope, first.builder, es[1..]).value.builder);
    }
  }

  // ---------------------------------------------------------------------------
  // What a binary operation emits
  // ---------------------------------------------------------------------------

  /** The instruction of each operator, and what its register is named after. */
  ghost predicate Operates(op: E.BinaryOperator, opcode: Opcode, base: string) {
    || (op.Plus? && opcode == Add && base == "added")
    || (op.Minus? && opcode == Sub && base == "subtracted")
    || (op.Star? && opcode == Mul && base == "multiplied")
    || (op.Slash? && opcode == SDiv && base == "divided")
    || (op.Percent? && opcode == SRem && base == "remainder")
    || (op.Less? && opcode == Slt && base == "comparison")
    || (op.Greater? && opcode == Sgt && base == "comparison")
  }

  /** A binary operation appends its instruction, on its operands in order; a comparison is then widened to 32 bits. */
  lemma BinaryEmits(b: Builder, op: E.BinaryOperator, l: Operand, r: Operand)
    requires Open(b)
    ensures exists opcode, base :: Operates(op, opcode, base) &&
              var name := FreshName(base, b.nextValue);
              var before, after := b.blocks[b.current].body, EmitBinary(b, op, l, r).builder.blocks[b.current].body;
              if op.Less? || op.Greater? then
                exists wide :: after == before + [Compute(name, opcode, l, r), ZeroExtend(wide, Register(name))]
                            && EmitBinary(b, op, l, r).operand == Register(wide)
              else after == before + [Compute(name, opcode, l, r)] && EmitBinary(b, op, l, r).operand == Register(name)
  {
    var name := FreshName(ResultBase(op), b.nextValue);
    assert Operates(op, OpcodeOf(op), ResultBase(op));
    if op.Less? || op.Greater? {
      var wide := FreshName("comparison_i32", b.nextValue + 1);
      var before := b.blocks[b.current].body;
      assert before + [Compute(name, OpcodeOf(op), l, r)] + [ZeroExtend(wide, Register(name))]
          == before + [Compute(name, OpcodeOf(op), l, r), ZeroExtend(wide, Register(name))];
    }
  }
}
