/**
 The emitted blocks are well formed: one terminator a block, every register and every tag defined
 once, and each phi at the head of its block listing exactly the blocks that branch to it.
 */
module TinyWellFormed {
  import opened Wrappers
  import opened TinyProgram
  import opened TinyIr
  import opened TinyCompiler
  import opened TinyLowering
  import E = TinyExpression

  // ---------------------------------------------------------------------------
  // What well formed means
  // ---------------------------------------------------------------------------

  predicate Jumps(blocks: seq<Block>, i: nat, target: nat)
    requires i < |blocks|
  {
    match blocks[i].terminator
    case Some(Branch(t)) => t == target
    case Some(ConditionalBranch(_, t, f)) => t == target || f == target
    case _ => false
  }

  /** The incoming list names each predecessor of the block once and nothing else. */
  ghost predicate ExactIncoming(blocks: seq<Block>, target: nat, incoming: seq<Incoming>) {
    && (forall i :: 0 <= i < |blocks| ==> (Jumps(blocks, i, target) <==> IncomingFrom(incoming, i).Some?))
    && (forall k :: 0 <= k < |incoming| ==> incoming[k].predecessor < |blocks|)
    && (forall k, k' :: 0 <= k < k' < |incoming| ==> incoming[k].predecessor != incoming[k'].predecessor)
  }

  ghost predicate PhisExact(blocks: seq<Block>) {
    forall t, j :: 0 <= t < |blocks| && 0 <= j < |blocks[t].body| && blocks[t].body[j].Phi? ==>
      j == 0 && ExactIncoming(blocks, t, blocks[t].body[j].incoming)
  }

  ghost predicate TargetsExist(blocks: seq<Block>) {
    forall i, t: nat :: 0 <= i < |blocks| && Jumps(blocks, i, t) ==> t < |blocks|
  }

  function NumberAt(blocks: seq<Block>, i: nat, j: nat): nat
    requires i < |blocks| && j < |blocks[i].body|
  {
    NumberOf(blocks[i].body[j].result)
  }

  /** Every register was numbered below `n`, no number was used twice. */
  ghost predicate Numbered(blocks: seq<Block>, n: nat) {
    && (forall i, j :: 0 <= i < |blocks| && 0 <= j < |blocks[i].body| ==> NumberAt(blocks, i, j) < n)
    && (forall i, j, i', j' ::
          0 <= i < |blocks| && 0 <= j < |blocks[i].body| && 0 <= i' < |blocks| && 0 <= j' < |blocks[i'].body| ==>
            NumberAt(blocks, i, j) == NumberAt(blocks, i', j') ==> i == i' && j == j')
  }

  /** No tag is used twice; all but the entry's were numbered below `n`. */
  ghost predicate Tagged(blocks: seq<Block>, n: nat) {
    && (forall i :: 0 <= i < |blocks| ==> blocks[i].tag == "entry" || NumberOf(blocks[i].tag) < n)
    && (forall i, j :: 0 <= i < j < |blocks| ==> blocks[i].tag != blocks[j].tag)
  }

  ghost predicate Sound(b: Builder) {
    PhisExact(b.blocks) && TargetsExist(b.blocks) && Numbered(b.blocks, b.nextValue) && Tagged(b.blocks, b.nextBlock)
  }

  /** No new jump reaches an older block. */
  ghost predicate KeepsPredecessors(b: Builder, b': Builder) {
    forall i, t :: 0 <= i < |b'.blocks| && 0 <= t < |b.blocks| ==>
      (Jumps(b'.blocks, i, t) <==> i < |b.blocks| && Jumps(b.blocks, i, t))
  }

  /** Everything lowering touched is terminated, except what is still pending. */
  ghost predicate Closes(b: Builder, b': Builder, pending: set<nat>) {
    forall i :: 0 <= i < |b'.blocks| && i !in pending && (i >= |b.blocks| || i == b.current) ==> b'.blocks[i].terminator.Some?
  }

  ghost predicate Extends(b: Builder, b': Builder) {
    Open(b') && Grows(b, b') && KeepsPredecessors(b, b') && Closes(b, b', {b'.current})
  }

  /** The blocks that jump to the target are exactly these. */
  ghost predicate ReachedFrom(blocks: seq<Block>, target: nat, sources: set<nat>) {
    forall i :: 0 <= i < |blocks| ==> (Jumps(blocks, i, target) <==> i in sources)
  }

  /** The same jumps, and one more. */
  ghost predicate AddsJump(blocks: seq<Block>, blocks': seq<Block>, source: nat, target: nat) {
    && |blocks'| == |blocks|
    && forall i, t :: 0 <= i < |blocks| && 0 <= t ==>
         (Jumps(blocks', i, t) <==> Jumps(blocks, i, t) || (i == source && t == target))
  }

  lemma ReachedStill(b: Builder, b': Builder, target: nat, sources: set<nat>)
    requires KeepsPredecessors(b, b') && target < |b.blocks| <= |b'.blocks|
    requires ReachedFrom(b.blocks, target, sources) && forall i :: i in sources ==> i < |b.blocks|
    ensures ReachedFrom(b'.blocks, target, sources)
  {
  }

  lemma KeepsPredecessorsTransitive(a: Builder, b: Builder, c: Builder)
    requires KeepsPredecessors(a, b) && KeepsPredecessors(b, c) && |a.blocks| <= |b.blocks| <= |c.blocks|
    ensures KeepsPredecessors(a, c)
  {
  }

  /** A jump to a newer block leaves the older blocks' predecessors alone. */
  lemma JumpToNewer(a: Builder, b: Builder, b': Builder, source: nat, target: nat)
    requires KeepsPredecessors(a, b) && AddsJump(b.blocks, b'.blocks, source, target) && |a.blocks| <= target
    ensures KeepsPredecessors(a, b')
  {
  }

  lemma ExtendsTransitive(a: Builder, b: Builder, c: Builder)
    requires Extends(a, b) && Extends(b, c)
    ensures Extends(a, c)
  {
  }

  // ---------------------------------------------------------------------------
  // One instruction
  // ---------------------------------------------------------------------------

  /** The same jumps everywhere. */
  lemma SameJumps(blocks: seq<Block>, blocks': seq<Block>)
    requires |blocks| == |blocks'|
    requires forall i :: 0 <= i < |blocks| ==> blocks'[i].terminator == blocks[i].terminator
    ensures forall i, t :: 0 <= i < |blocks| && 0 <= t ==> Jumps(blocks', i, t) == Jumps(blocks, i, t)
    ensures TargetsExist(blocks) ==> TargetsExist(blocks')
    ensures forall t: nat, incoming :: ExactIncoming(blocks, t, incoming) ==> ExactIncoming(blocks', t, incoming)
  {
  }

  lemma EmitNumbers(b: Builder, i: Instruction)
    requires Open(b) && Numbered(b.blocks, b.nextValue) && NumberOf(i.result) == b.nextValue
    ensures Numbered(Emit(b, i).blocks, b.nextValue + 1)
  {
    var b' := Emit(b, i);
    forall k, j | 0 <= k < |b'.blocks| && 0 <= j < |b'.blocks[k].body|
      ensures if k == b.current && j == |b.blocks[b.current].body| then NumberAt(b'.blocks, k, j) == b.nextValue
              else j < |b.blocks[k].body| && NumberAt(b'.blocks, k, j) == NumberAt(b.blocks, k, j) < b.nextValue
    {
    }
  }

  /** A phi may be emitted only first in its block, and only with exactly the block's predecessors. */
  ghost predicate MayEmit(b: Builder, i: Instruction)
    requires Open(b)
  {
    && NumberOf(i.result) == b.nextValue
    && (i.Phi? ==> b.blocks[b.current].body == [] && ExactIncoming(b.blocks, b.current, i.incoming))
  }

  lemma EmitSound(b: Builder, i: Instruction)
    requires Open(b) && Sound(b) && MayEmit(b, i)
    ensures Sound(Emit(b, i)) && Extends(b, Emit(b, i))
  {
    var b' := Emit(b, i);
    EmitGrows(b, i);
    EmitNumbers(b, i);
    SameJumps(b.blocks, b'.blocks);
    forall t, j | 0 <= t < |b'.blocks| && 0 <= j < |b'.blocks[t].body| && b'.blocks[t].body[j].Phi?
      ensures j == 0 && ExactIncoming(b'.blocks, t, b'.blocks[t].body[j].incoming)
    {
      if j < |b.blocks[t].body| { assert b'.blocks[t].body[j] == b.blocks[t].body[j]; }
    }
  }

  lemma EmitNegateSound(b: Builder, o: Operand)
    requires Open(b) && Sound(b)
    ensures var b' := EmitNegate(b, o).builder; Sound(b') && Extends(b, b')
  {
    NumberOfFresh("negated", b.nextValue);
    EmitSound(b, Negate(FreshName("negated", b.nextValue), o));
  }

  lemma EmitBinarySound(b: Builder, op: E.BinaryOperator, l: Operand, r: Operand)
    requires Open(b) && Sound(b)
    ensures var b' := EmitBinary(b, op, l, r).builder; Sound(b') && Extends(b, b')
  {
    hide Sound, Extends;
    var i := Compute(FreshName(ResultBase(op), b.nextValue), OpcodeOf(op), l, r);
    var computed := Emit(b, i);
    NumberOfFresh(ResultBase(op), b.nextValue);
    EmitSound(b, i);
    EmitGrows(b, i);
    if op.Less? || op.Greater? {
      var extended := FreshName("comparison_i32", computed.nextValue);
      NumberOfFresh("comparison_i32", computed.nextValue);
      EmitSound(computed, ZeroExtend(extended, Register(i.result)));
      ExtendsTransitive(b, computed, Emit(computed, ZeroExtend(extended, Register(i.result))));
    }
  }

  lemma EmitCallSound(b: Builder, callee: string, os: seq<Operand>)
    requires Open(b) && Sound(b)
    ensures var b' := EmitCall(b, callee, os).builder; Sound(b') && Extends(b, b')
  {
    NumberOfFresh("called", b.nextValue);
    EmitSound(b, CallDirect(FreshName("called", b.nextValue), callee, os));
  }

  // ---------------------------------------------------------------------------
  // Conditionals
  // ---------------------------------------------------------------------------

  lemma {:induction false} IncomingIsListed(incoming: seq<Incoming>, i: nat)
    requires IncomingFrom(incoming, i).Some?
    ensures exists k :: 0 <= k < |incoming| && incoming[k].predecessor == i
  {
    if incoming[0].predecessor != i {
      IncomingIsListed(incoming[1..], i);
      var k :| 0 <= k < |incoming[1..]| && incoming[1..][k].predecessor == i;
      assert incoming[k + 1].predecessor == i;
    }
  }

  /** What starting a conditional leaves: three empty blocks, the merge block with no predecessor yet. */
  ghost predicate Begun(b: Builder, b': Builder) {
    var n := |b.blocks|;
    && Open(b') && Sound(b') && Grows(b, b') && KeepsPredecessors(b, b')
    && |b'.blocks| == n + 3 && b'.current == n && b.current < n && b'.blocks[b.current].terminator.Some?
    && b'.blocks[n + 1].body == [] && b'.blocks[n + 2].body == []
    && ReachedFrom(b'.blocks, n + 2, {})
  }

  /** Branching away to two new blocks and adding three empty ones. */
  ghost predicate BranchesAway(b: Builder, name: string, b': Builder)
    requires Open(b)
  {
    var n := |b.blocks|;
    && b'.blocks == b.blocks[b.current := b.blocks[b.current].(terminator := Some(ConditionalBranch(Register(name), n, n + 1)))]
                    + [EmptyBlock("if_true", b.nextBlock), EmptyBlock("if_false", b.nextBlock), EmptyBlock("if_merge", b.nextBlock)]
    && b'.current == n && b'.nextBlock == b.nextBlock + 1 && b'.nextValue == b.nextValue
  }

  lemma BranchJumps(b: Builder, name: string, b': Builder)
    requires Open(b) && TargetsExist(b.blocks) && BranchesAway(b, name, b')
    ensures forall i, t :: 0 <= i < |b'.blocks| && 0 <= t ==>
      (Jumps(b'.blocks, i, t) <==>
       if i == b.current then t == |b.blocks| || t == |b.blocks| + 1 else i < |b.blocks| && Jumps(b.blocks, i, t))
  {
  }

  /** The three tags of one conditional: numbered alike, distinct, and none the entry's. */
  lemma ConditionalTags(k: nat)
    ensures NumberOf(FreshName("if_true", k)) == NumberOf(FreshName("if_false", k)) == NumberOf(FreshName("if_merge", k)) == k
    ensures FreshName("if_true", k) != FreshName("if_false", k) && FreshName("if_true", k) != FreshName("if_merge", k)
    ensures FreshName("if_false", k) != FreshName("if_merge", k)
    ensures "entry" !in {FreshName("if_true", k), FreshName("if_false", k), FreshName("if_merge", k)}
  {
    NumberOfFresh("if_true", k);
    NumberOfFresh("if_false", k);
    NumberOfFresh("if_merge", k);
    assert FreshName("if_true", k)[3] == 't' && FreshName("if_false", k)[3] == 'f' && FreshName("if_merge", k)[3] == 'm';
    assert "entry"[3] == 'r';
  }

  lemma BranchTags(b: Builder, name: string, b': Builder)
    requires Open(b) && Tagged(b.blocks, b.nextBlock) && BranchesAway(b, name, b')
    ensures Tagged(b'.blocks, b'.nextBlock)
  {
    hide FreshName, NumberOf;
    var n := |b.blocks|;
    ConditionalTags(b.nextBlock);
    forall i | 0 <= i < n ensures b'.blocks[i].tag == b.blocks[i].tag {}
    forall i, j | 0 <= i < j < |b'.blocks| ensures b'.blocks[i].tag != b'.blocks[j].tag {
      if j < n { assert b.blocks[i].tag != b.blocks[j].tag; }
    }
  }

  lemma BranchPhis(b: Builder, name: string, b': Builder)
    requires Open(b) && TargetsExist(b.blocks) && PhisExact(b.blocks) && BranchesAway(b, name, b')
    ensures PhisExact(b'.blocks)
  {
    BranchJumps(b, name, b');
    forall t, j | 0 <= t < |b'.blocks| && 0 <= j < |b'.blocks[t].body| && b'.blocks[t].body[j].Phi?
      ensures j == 0 && ExactIncoming(b'.blocks, t, b'.blocks[t].body[j].incoming)
    {
      var incoming := b'.blocks[t].body[j].incoming;
      assert t < |b.blocks| && b.blocks[t].body[j] == b'.blocks[t].body[j];
      assert ExactIncoming(b.blocks, t, incoming);
      forall i | 0 <= i < |b'.blocks| ensures Jumps(b'.blocks, i, t) <==> IncomingFrom(incoming, i).Some? {
        if i < |b.blocks| {
          assert Jumps(b.blocks, i, t) <==> IncomingFrom(incoming, i).Some?;
        } else if IncomingFrom(incoming, i).Some? {
          IncomingIsListed(incoming, i);
        }
      }
    }
  }

  lemma BranchNumbers(b: Builder, name: string, b': Builder)
    requires Open(b) && Numbered(b.blocks, b.nextValue) && BranchesAway(b, name, b')
    ensures Numbered(b'.blocks, b'.nextValue)
  {
    forall i, j | 0 <= i < |b'.blocks| && 0 <= j < |b'.blocks[i].body|
      ensures i < |b.blocks| && j < |b.blocks[i].body| && NumberAt(b'.blocks, i, j) == NumberAt(b.blocks, i, j)
    {
    }
  }

  lemma BeginIfSound(b: Builder, o: Operand)
    requires Open(b) && Sound(b)
    ensures Begun(b, BeginIf(b, o))
  {
    var name := FreshName("condition", b.nextValue);
    var i := Compute(name, Ne, o, Literal(0));
    NumberOfFresh("condition", b.nextValue);
    EmitGrows(b, i);
    EmitSound(b, i);
    BeginIfGrows(b, o);
    var tested, b' := Emit(b, i), BeginIf(b, o);
    BranchJumps(tested, name, b');
    BranchTags(tested, name, b');
    BranchPhis(tested, name, b');
    BranchNumbers(tested, name, b');
  }

  /** Ending a branch at an empty block adds that one jump. */
  lemma EndBranchSound(b: Builder, merge: nat, next: nat)
    requires Open(b) && Sound(b) && merge < |b.blocks| && b.blocks[merge].body == []
    ensures var b' := EndBranch(b, merge, next); Sound(b') && AddsJump(b.blocks, b'.blocks, b.current, merge)
  {
    var b' := EndBranch(b, merge, next);
    forall i, t | 0 <= i < |b.blocks| && 0 <= t
      ensures Jumps(b'.blocks, i, t) <==> Jumps(b.blocks, i, t) || (i == b.current && t == merge)
    {
    }
    forall t, j | 0 <= t < |b'.blocks| && 0 <= j < |b'.blocks[t].body| && b'.blocks[t].body[j].Phi?
      ensures j == 0 && ExactIncoming(b'.blocks, t, b'.blocks[t].body[j].incoming)
    {
      var incoming := b'.blocks[t].body[j].incoming;
      assert b.blocks[t].body[j] == b'.blocks[t].body[j];
      forall i | 0 <= i < |b'.blocks| ensures Jumps(b'.blocks, i, t) <==> IncomingFrom(incoming, i).Some? {
        assert Jumps(b.blocks, i, t) <==> IncomingFrom(incoming, i).Some?;
      }
    }
    forall i, j | 0 <= i < |b'.blocks| && 0 <= j < |b'.blocks[i].body|
      ensures j < |b.blocks[i].body| && NumberAt(b'.blocks, i, j) == NumberAt(b.blocks, i, j)
    {
    }
  }

  /** Between the branches: only the end of the true branch jumps to the merge block. */
  ghost predicate Halfway(c: Builder, onTrue: Builder, between: Builder) {
    var n := |c.blocks|;
    && Sound(between) && KeepsPredecessors(c, between) && n + 2 < |between.blocks|
    && onTrue.current < |between.blocks| && ReachedFrom(between.blocks, n + 2, {onTrue.current})
    && Closes(c, between, {n + 1, n + 2})
  }

  lemma HalfwayCloses(c: Builder, condition: Operand, onTrue: Builder)
    requires Open(c) && Begun(c, BeginIf(c, condition)) && Extends(BeginIf(c, condition), onTrue)
    ensures Closes(c, Between(c, onTrue), {|c.blocks| + 1, |c.blocks| + 2})
  {
    hide Sound, KeepsPredecessors, BeginIf, ReachedFrom;
    var n, begun, between := |c.blocks|, BeginIf(c, condition), Between(c, onTrue);
    forall i | 0 <= i < |between.blocks| && i !in {n + 1, n + 2} && (i >= n || i == c.current)
      ensures between.blocks[i].terminator.Some?
    {
      if i == c.current { assert onTrue.blocks[i] == begun.blocks[i]; }
    }
  }

  lemma BetweenSound(c: Builder, condition: Operand, onTrue: Builder)
    requires Open(c) && Begun(c, BeginIf(c, condition)) && Extends(BeginIf(c, condition), onTrue) && Sound(onTrue)
    ensures Halfway(c, onTrue, Between(c, onTrue))
  {
    hide BeginIf, Sound, KeepsPredecessors;
    var n, begun, between := |c.blocks|, BeginIf(c, condition), Between(c, onTrue);
    HalfwayCloses(c, condition, onTrue);
    assert onTrue.blocks[n + 2] == begun.blocks[n + 2];
    ReachedStill(begun, onTrue, n + 2, {});
    KeepsPredecessorsTransitive(c, begun, onTrue);
    EndBranchSound(onTrue, n + 2, n + 1);
    JumpToNewer(c, onTrue, between, onTrue.current, n + 2);
  }

  lemma ExactPair(blocks: seq<Block>, target: nat, x: Incoming, y: Incoming)
    requires ReachedFrom(blocks, target, {x.predecessor, y.predecessor})
    requires x.predecessor != y.predecessor && x.predecessor < |blocks| && y.predecessor < |blocks|
    ensures ExactIncoming(blocks, target, [x, y])
  {
    assert [x, y][1..] == [y] && [y][1..] == [];
    forall i | 0 <= i < |blocks| ensures Jumps(blocks, i, target) <==> IncomingFrom([x, y], i).Some? {
      assert IncomingFrom([y][1..], i) == None;
      assert IncomingFrom([x, y][1..], i).Some? <==> i == y.predecessor;
    }
  }

  lemma MergedCloses(c: Builder, onTrue: Builder, between: Builder, onFalse: Builder)
    requires Open(c) && Halfway(c, onTrue, between) && Grows(c, between) && Extends(between, onFalse)
    requires between.current == |c.blocks| + 1
    ensures Closes(c, Merged(c, onFalse), {|c.blocks| + 2})
  {
    hide Sound, KeepsPredecessors, ReachedFrom;
    var n, merged := |c.blocks|, Merged(c, onFalse);
    forall i | 0 <= i < |merged.blocks| && i != n + 2 && (i >= n || i == c.current) ensures merged.blocks[i].terminator.Some? {
      if i < |between.blocks| && i != n + 1 { assert onFalse.blocks[i] == between.blocks[i]; }
    }
  }

  /** After the false branch the merge block is reached from the two ends, and from nowhere else. */
  lemma MergedSound(c: Builder, onTrue: Builder, between: Builder, onFalse: Builder)
    requires Open(c) && Halfway(c, onTrue, between) && Grows(c, between) && Extends(between, onFalse) && Sound(onFalse)
    requires between.current == |c.blocks| + 1 && between.blocks[|c.blocks| + 2].body == []
    ensures var merged := Merged(c, onFalse);
            && Sound(merged) && KeepsPredecessors(c, merged)
            && ReachedFrom(merged.blocks, |c.blocks| + 2, {onTrue.current, onFalse.current})
  {
    hide Sound, KeepsPredecessors, Closes;
    var n, merged := |c.blocks|, Merged(c, onFalse);
    EndBranchSound(onFalse, n + 2, n + 2);
    ReachedStill(between, onFalse, n + 2, {onTrue.current});
    KeepsPredecessorsTransitive(c, between, onFalse);
    JumpToNewer(c, onFalse, merged, onFalse.current, n + 2);
  }

  /** The phi that joins the two arms. */
  function JoiningPhi(merged: Builder, onTrue: Lowered, onFalse: Lowered): Instruction {
    Phi(FreshName("if_result", merged.nextValue),
        [Incoming(onTrue.operand, onTrue.builder.current), Incoming(onFalse.operand, onFalse.builder.current)])
  }

  lemma MergedExtends(c: Lowered, onTrue: Lowered, onFalse: Lowered)
    requires Staged(c, onTrue, onFalse)
    requires var between := Between(c.builder, onTrue.builder);
             Halfway(c.builder, onTrue.builder, between) && Extends(between, onFalse.builder) && Sound(onFalse.builder)
    ensures var merged := Merged(c.builder, onFalse.builder);
            && Open(merged) && Sound(merged) && Extends(c.builder, merged) && MayEmit(merged, JoiningPhi(merged, onTrue, onFalse))
            && FinishIf(|c.builder.blocks|, onTrue, onFalse).builder == Emit(merged, JoiningPhi(merged, onTrue, onFalse))
  {
    hide BeginIf, KeepsPredecessors, Sound;
    var n, between, merged := |c.builder.blocks|, Between(c.builder, onTrue.builder), Merged(c.builder, onFalse.builder);
    BetweenGrows(c.builder, c.operand, onTrue.builder);
    MergedGrows(c.builder, between, onFalse.builder);
    ArmsEndApart(c, onTrue, onFalse);
    MergedSound(c.builder, onTrue.builder, between, onFalse.builder);
    MergedCloses(c.builder, onTrue.builder, between, onFalse.builder);
    ExactPair(merged.blocks, n + 2, Incoming(onTrue.operand, onTrue.builder.current), Incoming(onFalse.operand, onFalse.builder.current));
    NumberOfFresh("if_result", merged.nextValue);
  }

  lemma FinishIfSound(c: Lowered, onTrue: Lowered, onFalse: Lowered)
    requires Staged(c, onTrue, onFalse)
    requires var between := Between(c.builder, onTrue.builder);
             Halfway(c.builder, onTrue.builder, between) && Extends(between, onFalse.builder) && Sound(onFalse.builder)
    ensures var b' := FinishIf(|c.builder.blocks|, onTrue, onFalse).builder; Sound(b') && Extends(c.builder, b')
  {
    hide *;
    var merged := Merged(c.builder, onFalse.builder);
    MergedExtends(c, onTrue, onFalse);
    EmitSound(merged, JoiningPhi(merged, onTrue, onFalse));
    ExtendsTransitive(c.builder, merged, Emit(merged, JoiningPhi(merged, onTrue, onFalse)));
  }

  // ---------------------------------------------------------------------------
  // Expressions and functions
  // ---------------------------------------------------------------------------

  lemma {:induction false} LowerSound(scope: Scope, b: Builder, e: E.Expression, lowered: Lowered)
    requires Open(b) && Sound(b) && Lower(scope, b, e) == Ok(lowered)
    ensures Sound(lowered.builder) && Extends(b, lowered.builder)
    decreases e, 1
  {
    hide Sound, KeepsPredecessors, Grows;
    assert Grows(b, b) by { GrowsReflexive(b); }
    assert KeepsPredecessors(b, b) by { KeepsReflexive(b); }
    match e
    case Integer(_, _) =>
    case Name(_, _) =>
    case Unary(o, _) =>
      var l := Lower(scope, b, o).value;
      LowerSound(scope, b, o, l);
      EmitNegateSound(l.builder, l.operand);
      ExtendsTransitive(b, l.builder, lowered.builder);
    case Binary(op, l, r, _) =>
      var left := Lower(scope, b, l).value;
      var right := Lower(scope, left.builder, r).value;
      LowerSound(scope, b, l, left);
      LowerSound(scope, left.builder, r, right);
      ExtendsTransitive(b, left.builder, right.builder);
      EmitBinarySound(right.builder, op, left.operand, right.operand);
      ExtendsTransitive(b, right.builder, lowered.builder);
    case Call(callee, arguments, _) =>
      var l := LowerAll(scope, b, arguments).value;
      LowerAllSound(scope, b, arguments, l);
      EmitCallSound(l.builder, callee, l.operands);
      ExtendsTransitive(b, l.builder, lowered.builder);
    case If(_, _, _, _) =>
      var c, onTrue, onFalse := LowerIfGrows(scope, b, e);
      LowerIfSound(scope, b, e, c, onTrue, onFalse);
  }

  lemma KeepsReflexive(b: Builder)
    ensures KeepsPredecessors(b, b)
  {
  }

  lemma {:induction false} LowerIfSound(scope: Scope, b: Builder, e: E.Expression, c: Lowered, onTrue: Lowered, onFalse: Lowered)
    requires e.If? && Open(b) && Sound(b) && LowersIf(scope, b, e, c, onTrue, onFalse)
    ensures var b' := FinishIf(|c.builder.blocks|, onTrue, onFalse).builder; Sound(b') && Extends(b, b')
    decreases e, 0
  {
    hide Lower, Sound, KeepsPredecessors, Grows, FinishIf, BeginIf;
    var between := Between(c.builder, onTrue.builder);
    LowerSound(scope, b, e.condition, c);
    BeginIfSound(c.builder, c.operand);
    LowerSound(scope, BeginIf(c.builder, c.operand), e.onTrue, onTrue);
    BetweenSound(c.builder, c.operand, onTrue.builder);
    LowerSound(scope, between, e.onFalse, onFalse);
    FinishIfSound(c, onTrue, onFalse);
    ExtendsTransitive(b, c.builder, FinishIf(|c.builder.blocks|, onTrue, onFalse).builder);
  }

  lemma {:induction false} LowerAllSound(scope: Scope, b: Builder, es: seq<E.Expression>, lowered: LoweredAll)
    requires Open(b) && Sound(b) && LowerAll(scope, b, es) == Ok(lowered)
    ensures Sound(lowered.builder) && Extends(b, lowered.builder)
    decreases es, 0
  {
    hide Sound, KeepsPredecessors, Grows, Lower;
    if es == [] {
      GrowsReflexive(b);
      KeepsReflexive(b);
    } else {
      var first := Lower(scope, b, es[0]).value;
      var rest := LowerAll(scope, first.builder, es[1..]).value;
      LowerSound(scope, b, es[0], first);
      LowerAllSound(scope, first.builder, es[1..], rest);
      ExtendsTransitive(b, first.builder, rest.builder);
    }
  }

  // ---------------------------------------------------------------------------
  // Registers and tags
  // ---------------------------------------------------------------------------

  /** Tags of blocks are "entry" or begin with "if_" but not with "if_r", and no register's name does so. */
  predicate BlockName(name: string) {
    |name| > 3 && (name[0] == 'e' || (name[0] == 'i' && name[3] != 'r'))
  }

  ghost predicate NamesApart(blocks: seq<Block>) {
    && (forall i :: 0 <= i < |blocks| ==> BlockName(blocks[i].tag))
    && forall i, j :: 0 <= i < |blocks| && 0 <= j < |blocks[i].body| ==> !BlockName(blocks[i].body[j].result)
  }

  lemma EmitNames(b: Builder, i: Instruction)
    requires NamesApart(b.blocks) && !BlockName(i.result)
    ensures NamesApart(Emit(b, i).blocks)
  {
  }

  lemma TerminateNames(b: Builder, t: Terminator)
    requires NamesApart(b.blocks)
    ensures NamesApart(Terminate(b, t).blocks)
  {
  }

  lemma FreshNameBegins(base: string, number: nat)
    requires |base| > 3
    ensures BlockName(FreshName(base, number)) == BlockName(base)
  {
  }

  lemma EmitBinaryNames(b: Builder, op: E.BinaryOperator, l: Operand, r: Operand)
    requires NamesApart(b.blocks)
    ensures NamesApart(EmitBinary(b, op, l, r).builder.blocks)
  {
    hide Emit, FreshName, NamesApart;
    var name := FreshName(ResultBase(op), b.nextValue);
    FreshNameBegins(ResultBase(op), b.nextValue);
    EmitNames(b, Compute(name, OpcodeOf(op), l, r));
    var computed := Emit(b, Compute(name, OpcodeOf(op), l, r));
    FreshNameBegins("comparison_i32", computed.nextValue);
    EmitNames(computed, ZeroExtend(FreshName("comparison_i32", computed.nextValue), Register(name)));
  }

  lemma BeginIfNames(b: Builder, condition: Operand)
    requires NamesApart(b.blocks)
    ensures NamesApart(BeginIf(b, condition).blocks)
  {
    hide Emit, Terminate, FreshName;
    FreshNameBegins("condition", b.nextValue);
    var name := FreshName("condition", b.nextValue);
    EmitNames(b, Compute(name, Ne, condition, Literal(0)));
    var tested := Emit(b, Compute(name, Ne, condition, Literal(0)));
    TerminateNames(tested, ConditionalBranch(Register(name), |tested.blocks|, |tested.blocks| + 1));
    FreshNameBegins("if_true", b.nextBlock);
    FreshNameBegins("if_false", b.nextBlock);
    FreshNameBegins("if_merge", b.nextBlock);
  }

  lemma FinishIfNames(n: nat, onTrue: Lowered, onFalse: Lowered)
    requires NamesApart(onFalse.builder.blocks)
    ensures NamesApart(FinishIf(n, onTrue, onFalse).builder.blocks)
  {
    TerminateNames(onFalse.builder, Branch(n + 2));
    var merged := EndBranch(onFalse.builder, n + 2, n + 2);
    FreshNameBegins("if_result", merged.nextValue);
    var incoming := [Incoming(onTrue.operand, onTrue.builder.current), Incoming(onFalse.operand, onFalse.builder.current)];
    EmitNames(merged, Phi(FreshName("if_result", merged.nextValue), incoming));
  }

  lemma {:induction false} LowerNames(scope: Scope, b: Builder, e: E.Expression, lowered: Lowered)
    requires NamesApart(b.blocks) && Lower(scope, b, e) == Ok(lowered)
    ensures NamesApart(lowered.builder.blocks)
    decreases e, 1
  {
    hide NamesApart, Emit, BeginIf, EmitBinary, FinishIf, Terminate, FreshName;
    match e
    case Integer(_, _) =>
    case Name(_, _) =>
    case Unary(o, _) =>
      var l := Lower(scope, b, o).value;
      LowerNames(scope, b, o, l);
      FreshNameBegins("negated", l.builder.nextValue);
      EmitNames(l.builder, Negate(FreshName("negated", l.builder.nextValue), l.operand));
    case Binary(op, l, r, _) =>
      var left := Lower(scope, b, l).value;
      var right := Lower(scope, left.builder, r).value;
      LowerNames(scope, b, l, left);
      LowerNames(scope, left.builder, r, right);
      EmitBinaryNames(right.builder, op, left.operand, right.operand);
    case Call(callee, arguments, _) =>
      var l := LowerAll(scope, b, arguments).value;
      LowerAllNames(scope, b, arguments, l);
      FreshNameBegins("called", l.builder.nextValue);
      EmitNames(l.builder, CallDirect(FreshName("called", l.builder.nextValue), callee, l.operands));
    case If(c, t, f, _) =>
      var condition := Lower(scope, b, c).value;
      var n, begun := |condition.builder.blocks|, BeginIf(condition.builder, condition.operand);
      var onTrue := Lower(scope, begun, t).value;
      var onFalse := Lower(scope, EndBranch(onTrue.builder, n + 2, n + 1), f).value;
      LowerNames(scope, b, c, condition);
      BeginIfNames(condition.builder, condition.operand);
      LowerNames(scope, begun, t, onTrue);
      TerminateNames(onTrue.builder, Branch(n + 2));
      LowerNames(scope, EndBranch(onTrue.builder, n + 2, n + 1), f, onFalse);
      FinishIfNames(n, onTrue, onFalse);
  }

  lemma {:induction false} LowerAllNames(scope: Scope, b: Builder, es: seq<E.Expression>, lowered: LoweredAll)
    requires NamesApart(b.blocks) && LowerAll(scope, b, es) == Ok(lowered)
    ensures NamesApart(lowered.builder.blocks)
    decreases es, 0
  {
    hide NamesApart, Lower;
    if es != [] {
      var first := Lower(scope, b, es[0]).value;
      LowerNames(scope, b, es[0], first);
      LowerAllNames(scope, first.builder, es[1..], LowerAll(scope, first.builder, es[1..]).value);
    }
  }

  /** Every block ends, every register and tag is defined once and none is both, every phi lists exactly its predecessors. */
  ghost predicate WellFormed(f: IrFunction) {
    && f.blocks != [] && f.blocks[0].tag == "entry"
    && (forall i :: 0 <= i < |f.blocks| ==> f.blocks[i].terminator.Some?)
    && TargetsExist(f.blocks)
    && (forall i, j, i', j' ::
          0 <= i < |f.blocks| && 0 <= j < |f.blocks[i].body| && 0 <= i' < |f.blocks| && 0 <= j' < |f.blocks[i'].body| ==>
            f.blocks[i].body[j].result == f.blocks[i'].body[j'].result ==> i == i' && j == j')
    && (forall i, j :: 0 <= i < j < |f.blocks| ==> f.blocks[i].tag != f.blocks[j].tag)
    && (forall i, j, k :: 0 <= i < |f.blocks| && 0 <= j < |f.blocks[i].body| && 0 <= k < |f.blocks| ==>
          f.blocks[i].body[j].result != f.blocks[k].tag)
    && PhisExact(f.blocks)
  }

  /** Returning terminates the last open block and adds no jump. */
  lemma ReturnSound(b: Builder, o: Operand)
    requires Open(b) && Sound(b)
    ensures var b' := Terminate(b, ReturnValue(o)); Sound(b') && |b'.blocks| == |b.blocks|
  {
    var b' := Terminate(b, ReturnValue(o));
    forall i, t | 0 <= i < |b.blocks| && 0 <= t ensures Jumps(b'.blocks, i, t) == Jumps(b.blocks, i, t) {}
    forall t, j | 0 <= t < |b'.blocks| && 0 <= j < |b'.blocks[t].body| && b'.blocks[t].body[j].Phi?
      ensures j == 0 && ExactIncoming(b'.blocks, t, b'.blocks[t].body[j].incoming)
    {
      var incoming := b'.blocks[t].body[j].incoming;
      assert b.blocks[t].body[j] == b'.blocks[t].body[j];
      forall i | 0 <= i < |b'.blocks| ensures Jumps(b'.blocks, i, t) <==> IncomingFrom(incoming, i).Some? {
        assert Jumps(b.blocks, i, t) <==> IncomingFrom(incoming, i).Some?;
      }
    }
    forall i, j | 0 <= i < |b'.blocks| && 0 <= j < |b'.blocks[i].body|
      ensures j < |b.blocks[i].body| && NumberAt(b'.blocks, i, j) == NumberAt(b.blocks, i, j)
    {
    }
  }

  lemma SoundNamesDiffer(b: Builder)
    requires Sound(b)
    ensures forall i, j, i', j' ::
      0 <= i < |b.blocks| && 0 <= j < |b.blocks[i].body| && 0 <= i' < |b.blocks| && 0 <= j' < |b.blocks[i'].body| ==>
        b.blocks[i].body[j].result == b.blocks[i'].body[j'].result ==> i == i' && j == j'
  {
    forall i, j, i', j' |
      0 <= i < |b.blocks| && 0 <= j < |b.blocks[i].body| && 0 <= i' < |b.blocks| && 0 <= j' < |b.blocks[i'].body|
      && b.blocks[i].body[j].result == b.blocks[i'].body[j'].result
      ensures i == i' && j == j'
    {
      assert NumberAt(b.blocks, i, j) == NumberAt(b.blocks, i', j');
    }
  }

  lemma LoweredFunctionIsWellFormed(functions: map<string, nat>, f: FunctionDefinition, ir: IrFunction)
    requires LowerFunction(functions, f) == Ok(ir)
    ensures WellFormed(ir)
  {
    hide Lower;
    var scope := Scope(functions, Positions(f.parameters));
    var lowered := Lower(scope, EmptyBody(), f.body).value;
    assert Sound(EmptyBody());
    LowerSound(scope, EmptyBody(), f.body, lowered);
    LowerNames(scope, EmptyBody(), f.body, lowered);
    TerminateNames(lowered.builder, ReturnValue(lowered.operand));
    assert NamesApart(ir.blocks);
    ReturnSound(lowered.builder, lowered.operand);
    SoundNamesDiffer(Terminate(lowered.builder, ReturnValue(lowered.operand)));
  }
}
