/**
 The whole compiler on source text: any text of a program is accepted exactly when the program is well
 scoped, and the emitted module then computes what the program means.
 */
module TinyCompile {
  import opened Wrappers
  import opened TinyProgram
  import opened TinyIr
  import opened TinyProgramText
  import opened TinySimulation
  import opened TinyAcceptance
  import opened TinyBuilder
  import TinyCompiler
  import TinyParser
  import E = TinyExpression

  // ---------------------------------------------------------------------------
  // Meaning does not depend on spans
  // ---------------------------------------------------------------------------

  lemma {:induction false} AllWithoutSpansAt(es: seq<E.Expression>)
    ensures |E.AllWithoutSpans(es)| == |es|
    ensures forall i :: 0 <= i < |es| ==> E.AllWithoutSpans(es)[i] == E.WithoutSpans(es[i])
  {
    if es != [] { AllWithoutSpansAt(es[1..]); }
  }

  lemma {:induction false} FindSame(fs: seq<FunctionDefinition>, gs: seq<FunctionDefinition>, name: string)
    requires SameFunctions(fs, gs)
    ensures Find(fs, name).Some? == Find(gs, name).Some?
    ensures Find(fs, name).Some? ==> SameFunction(Find(fs, name).value, Find(gs, name).value)
    decreases |fs|
  {
    if fs != [] {
      assert SameFunction(fs[0], gs[0]);
      assert SameFunctions(fs[1..], gs[1..]) by {
        forall i | 0 <= i < |fs[1..]| ensures SameFunction(fs[1..][i], gs[1..][i]) { assert SameFunction(fs[i + 1], gs[i + 1]); }
      }
      FindSame(fs[1..], gs[1..], name);
    }
  }

  /** Two programs equal up to spans evaluate equal expressions alike. */
  lemma {:induction false} EvaluateSame(p: Program, q: Program, calls: nat, where_: map<string, nat>, args: seq<int>, e: E.Expression, d: E.Expression)
    requires SameFunctions(p.functions, q.functions) && E.WithoutSpans(e) == E.WithoutSpans(d)
    ensures Evaluate(p, calls, where_, args, e) == Evaluate(q, calls, where_, args, d)
    decreases calls, 0, e, 1
  {
    match e
    case Integer(_, _) =>
    case Name(_, _) =>
    case Unary(o, _) => EvaluateSame(p, q, calls, where_, args, o, d.operand);
    case Binary(_, l, r, _) =>
      EvaluateSame(p, q, calls, where_, args, l, d.left);
      EvaluateSame(p, q, calls, where_, args, r, d.right);
    case Call(callee, arguments, _) =>
      EvaluateAllSame(p, q, calls, where_, args, arguments, d.arguments);
      var values := EvaluateAll(p, calls, where_, args, arguments);
      if values.Some? && calls > 0 { InvokeSame(p, q, calls - 1, callee, values.value); }
    case If(c, t, f, _) =>
      EvaluateSame(p, q, calls, where_, args, c, d.condition);
      EvaluateSame(p, q, calls, where_, args, t, d.onTrue);
      EvaluateSame(p, q, calls, where_, args, f, d.onFalse);
  }

  lemma {:induction false} EvaluateAllSame(p: Program, q: Program, calls: nat, where_: map<string, nat>, args: seq<int>, es: seq<E.Expression>, ds: seq<E.Expression>)
    requires SameFunctions(p.functions, q.functions) && E.AllWithoutSpans(es) == E.AllWithoutSpans(ds)
    ensures EvaluateAll(p, calls, where_, args, es) == EvaluateAll(q, calls, where_, args, ds)
    decreases calls, 0, es, 0
  {
    AllWithoutSpansAt(es);
    AllWithoutSpansAt(ds);
    if es != [] {
      EvaluateSame(p, q, calls, where_, args, es[0], ds[0]);
      assert E.AllWithoutSpans(es)[1..] == E.AllWithoutSpans(es[1..]) && E.AllWithoutSpans(ds)[1..] == E.AllWithoutSpans(ds[1..]);
      EvaluateAllSame(p, q, calls, where_, args, es[1..], ds[1..]);
    }
  }

  lemma {:induction false} InvokeSame(p: Program, q: Program, calls: nat, name: string, args: seq<int>)
    requires SameFunctions(p.functions, q.functions)
    ensures Invoke(p, calls, name, args) == Invoke(q, calls, name, args)
    decreases calls, 1
  {
    FindSame(p.functions, q.functions, name);
    var f, g := Find(p.functions, name), Find(q.functions, name);
    if f.Some? { EvaluateSame(p, q, calls, Positions(f.value.parameters), args, f.value.body, g.value.body); }
  }

  lemma {:induction false} CostSame(e: E.Expression, d: E.Expression)
    requires E.WithoutSpans(e) == E.WithoutSpans(d)
    ensures Cost(e) == Cost(d)
    decreases e, 1
  {
    match e
    case Integer(_, _) =>
    case Name(_, _) =>
    case Unary(o, _) => CostSame(o, d.operand);
    case Binary(_, l, r, _) => CostSame(l, d.left); CostSame(r, d.right);
    case Call(_, arguments, _) => CostAllSame(arguments, d.arguments);
    case If(c, t, f, _) => CostSame(c, d.condition); CostSame(t, d.onTrue); CostSame(f, d.onFalse);
  }

  lemma {:induction false} CostAllSame(es: seq<E.Expression>, ds: seq<E.Expression>)
    requires E.AllWithoutSpans(es) == E.AllWithoutSpans(ds)
    ensures CostAll(es) == CostAll(ds)
    decreases es, 0
  {
    AllWithoutSpansAt(es);
    AllWithoutSpansAt(ds);
    if es != [] {
      CostSame(es[0], ds[0]);
      assert E.AllWithoutSpans(es)[1..] == E.AllWithoutSpans(es[1..]) && E.AllWithoutSpans(ds)[1..] == E.AllWithoutSpans(ds[1..]);
      CostAllSame(es[1..], ds[1..]);
    }
  }

  lemma TakesSame(p: Program, q: Program, name: string, n: nat)
    requires SameFunctions(p.functions, q.functions)
    ensures Takes(p.functions, name, n) == Takes(q.functions, name, n)
  {
    if f :| f in p.functions && f.name == name && |f.parameters| == n {
      var i :| 0 <= i < |p.functions| && p.functions[i] == f;
      assert SameFunction(p.functions[i], q.functions[i]) && q.functions[i] in q.functions;
    }
    if g :| g in q.functions && g.name == name && |g.parameters| == n {
      var i :| 0 <= i < |q.functions| && q.functions[i] == g;
      assert SameFunction(p.functions[i], q.functions[i]) && p.functions[i] in p.functions;
    }
  }

  lemma {:induction false} InScopeSame(p: Program, q: Program, ps: seq<string>, e: E.Expression, d: E.Expression)
    requires SameFunctions(p.functions, q.functions) && E.WithoutSpans(e) == E.WithoutSpans(d)
    ensures InScope(p.functions, ps, e) == InScope(q.functions, ps, d)
    decreases e
  {
    hide Takes;
    match e
    case Integer(_, _) =>
    case Name(_, _) =>
    case Unary(o, _) => InScopeSame(p, q, ps, o, d.operand);
    case Binary(_, l, r, _) => InScopeSame(p, q, ps, l, d.left); InScopeSame(p, q, ps, r, d.right);
    case Call(callee, arguments, _) =>
      TakesSame(p, q, callee, |arguments|);
      AllWithoutSpansAt(arguments);
      AllWithoutSpansAt(d.arguments);
      forall k | 0 <= k < |arguments| ensures InScope(p.functions, ps, arguments[k]) == InScope(q.functions, ps, d.arguments[k]) {
        assert E.AllWithoutSpans(arguments)[k] == E.AllWithoutSpans(d.arguments)[k];
        InScopeSame(p, q, ps, arguments[k], d.arguments[k]);
      }
    case If(c, t, f, _) =>
      InScopeSame(p, q, ps, c, d.condition);
      InScopeSame(p, q, ps, t, d.onTrue);
      InScopeSame(p, q, ps, f, d.onFalse);
  }

  lemma AcceptedSame(p: Program, q: Program)
    requires SameFunctions(p.functions, q.functions) && Accepted(p)
    ensures Accepted(q)
  {
    hide InScope, Takes;
    forall i, j | 0 <= i < j < |q.functions| ensures q.functions[i].name != q.functions[j].name {
      assert SameFunction(p.functions[i], q.functions[i]) && SameFunction(p.functions[j], q.functions[j]);
    }
    TakesSame(p, q, "main", 0);
    forall g | g in q.functions ensures BodyInScope(q.functions, g) {
      var i :| 0 <= i < |q.functions| && q.functions[i] == g;
      assert SameFunction(p.functions[i], g) && BodyInScope(p.functions, p.functions[i]);
      InScopeSame(p, q, g.parameters, p.functions[i].body, g.body);
    }
  }

  lemma SameSymmetric(p: Program, q: Program)
    requires SameFunctions(p.functions, q.functions)
    ensures SameFunctions(q.functions, p.functions)
  {
  }

  lemma AmpleSame(p: Program, q: Program, steps: nat)
    requires SameFunctions(p.functions, q.functions) && AmpleSteps(p, steps)
    ensures AmpleSteps(q, steps)
  {
    forall g | g in q.functions ensures Cost(g.body) < steps {
      var i :| 0 <= i < |q.functions| && q.functions[i] == g;
      assert SameFunction(p.functions[i], g) && p.functions[i] in p.functions;
      CostSame(p.functions[i].body, g.body);
    }
  }

  // ---------------------------------------------------------------------------
  // From text to meaning
  // ---------------------------------------------------------------------------

  datatype Failure = Unreadable(reading: TinyParser.TinyError) | Rejected(rejection: TinyCompiler.CompileError)

  /** The module computes what the program means, for any bound on nested calls and enough steps. */
  ghost predicate Implements(m: Module, p: Program) {
    forall calls, steps, name, args :: AmpleSteps(p, steps) ==>
      InvokeIr(m, calls, steps, name, args) == Invoke(p, calls, name, args)
  }

  lemma ImplementsSame(m: Module, p: Program, q: Program)
    requires SameFunctions(p.functions, q.functions) && Implements(m, p)
    ensures Implements(m, q)
  {
    SameSymmetric(p, q);
    forall calls, steps, name, args | AmpleSteps(q, steps)
      ensures InvokeIr(m, calls, steps, name, args) == Invoke(q, calls, name, args)
    {
      AmpleSame(q, p, steps);
      InvokeSame(p, q, calls, name, args);
    }
  }

  /**
   Compiles source text: it is accepted exactly when it reads as a well scoped program, and the module it becomes
   computes that program's meaning, which is the meaning of every program the text writes.
   */
  method Compile(source: string) returns (r: Result<Module, Failure>)
    ensures var read := TinyParser.ProgramOf(source);
            && (read.Err? ==> r == Err(Unreadable(read.error)))
            && (read.Ok? ==> (r.Ok? <==> Accepted(read.value)))
            && (r.Ok? ==> Implements(r.value, read.value))
            && (read.Ok? && r.Err? ==> r.error.Rejected? && ProgramHasProblem(read.value, r.error.rejection))
    ensures forall p, lead, gaps :: WritesProgram(source, p, lead, gaps) ==>
      (r.Ok? <==> Accepted(p)) && (r.Ok? ==> Implements(r.value, p))
  {
    hide Accepted, ProgramHasProblem, Implements, WritesProgram, SameFunctions, TinyParser.ProgramOf;
    var read := TinyParser.ReadProgram(source);
    if read.Err? { return Err(Unreadable(read.error)); }
    var q := read.value;
    var built := Build(q);
    r := if built.Ok? then Ok(built.value) else Err(Rejected(built.error));
    if built.Ok? { BuiltImplements(q, built.value); }
    forall p, lead, gaps | WritesProgram(source, p, lead, gaps)
      ensures (r.Ok? <==> Accepted(p)) && (r.Ok? ==> Implements(r.value, p))
    {
      SameSymmetric(q, p);
      if Accepted(q) { AcceptedSame(q, p); }
      if Accepted(p) { AcceptedSame(p, q); }
      if built.Ok? { ImplementsSame(built.value, q, p); }
    }
  }

  lemma BuiltImplements(p: Program, m: Module)
    requires forall calls, steps, name, args :: AmpleSteps(p, steps) ==>
      InvokeIr(m, calls, steps, name, args) == Invoke(p, calls, name, args)
    ensures Implements(m, p)
  {
  }
}
