/** Exactly which programs the compiler accepts, and what it says of the others. */
module TinyAcceptance {
  import opened Wrappers
  import opened TinyProgram
  import opened TinyCompiler
  import E = TinyExpression

  // ---------------------------------------------------------------------------
  // Scopes
  // ---------------------------------------------------------------------------

  ghost predicate NamesDiffer(fs: seq<FunctionDefinition>) {
    forall i, j :: 0 <= i < j < |fs| ==> fs[i].name != fs[j].name
  }

  ghost predicate IsNamed(fs: seq<FunctionDefinition>, name: string) {
    exists f :: f in fs && f.name == name
  }

  /** Some function of that name takes so many arguments. */
  ghost predicate Takes(fs: seq<FunctionDefinition>, name: string, n: nat) {
    exists f :: f in fs && f.name == name && |f.parameters| == n
  }

  /** Every name is a parameter, every call names a function of that arity, every literal is a 32-bit number. */
  ghost predicate InScope(fs: seq<FunctionDefinition>, ps: seq<string>, e: E.Expression) {
    match e
    case Integer(v, _) => v <= 0x7FFF_FFFF
    case Name(n, _) => n in ps
    case Unary(o, _) => InScope(fs, ps, o)
    case Binary(_, l, r, _) => InScope(fs, ps, l) && InScope(fs, ps, r)
    case Call(callee, arguments, _) =>
      Takes(fs, callee, |arguments|) && forall k :: 0 <= k < |arguments| ==> InScope(fs, ps, arguments[k])
    case If(c, t, f, _) => InScope(fs, ps, c) && InScope(fs, ps, t) && InScope(fs, ps, f)
  }

  ghost predicate BodyInScope(fs: seq<FunctionDefinition>, f: FunctionDefinition) {
    InScope(fs, f.parameters, f.body)
  }

  /** Distinct function names, a main without parameters, and every body in scope. */
  ghost predicate Accepted(p: Program) {
    && NamesDiffer(p.functions)
    && Takes(p.functions, "main", 0)
    && (forall f :: f in p.functions ==> BodyInScope(p.functions, f))
  }

  // ---------------------------------------------------------------------------
  // What is wrong with the others
  // ---------------------------------------------------------------------------

  /** The first thing wrong with an expression, in the order its parts are lowered; a call's name and arity come first. */
  ghost predicate HasProblem(fs: seq<FunctionDefinition>, ps: seq<string>, e: E.Expression, error: CompileError) {
    match e
    case Integer(v, _) => v > 0x7FFF_FFFF && error == IntegerOutOfRange(v)
    case Name(n, _) => n !in ps && error == UnknownName(n)
    case Unary(o, _) => HasProblem(fs, ps, o, error)
    case Binary(_, l, r, _) => HasProblem(fs, ps, l, error) || (InScope(fs, ps, l) && HasProblem(fs, ps, r, error))
    case Call(callee, arguments, _) =>
      if !IsNamed(fs, callee) then error == UnknownFunction(callee)
      else if !Takes(fs, callee, |arguments|) then
        exists n: nat :: Takes(fs, callee, n) && error == WrongArity(callee, n, |arguments|)
      else
        exists k :: 0 <= k < |arguments| && HasProblem(fs, ps, arguments[k], error)
          && forall j :: 0 <= j < k ==> InScope(fs, ps, arguments[j])
    case If(c, t, f, _) =>
      || HasProblem(fs, ps, c, error)
      || (InScope(fs, ps, c) && HasProblem(fs, ps, t, error))
      || (InScope(fs, ps, c) && InScope(fs, ps, t) && HasProblem(fs, ps, f, error))
  }

  /** The function at the position repeats an earlier name, and none before it does. */
  ghost predicate FirstToRepeat(fs: seq<FunctionDefinition>, j: int) {
    && 0 <= j < |fs| && NamesDiffer(fs[..j]) && IsNamed(fs[..j], fs[j].name)
  }

  /** The first thing wrong with a program: a repeated name, then main, then the first body with a problem. */
  ghost predicate ProgramHasProblem(p: Program, error: CompileError) {
    var fs := p.functions;
    if !NamesDiffer(fs) then exists j :: FirstToRepeat(fs, j) && error == DuplicateFunction(fs[j].name)
    else if !Takes(fs, "main", 0) then error == InvalidMain
    else exists j :: FirstBodyWithProblem(fs, j, error)
  }

  ghost predicate FirstBodyWithProblem(fs: seq<FunctionDefinition>, j: int, error: CompileError) {
    && 0 <= j < |fs| && HasProblem(fs, fs[j].parameters, fs[j].body, error)
    && forall i :: 0 <= i < j ==> BodyInScope(fs, fs[i])
  }

  // ---------------------------------------------------------------------------
  // The tables of the compiler
  // ---------------------------------------------------------------------------

  /** The table of arities says of every name what the functions do. */
  lemma {:induction false} AritiesMean(fs: seq<FunctionDefinition>, name: string, n: nat)
    requires NamesDiffer(fs)
    ensures name in Arities(fs) <==> IsNamed(fs, name)
    ensures name in Arities(fs) && Arities(fs)[name] == n <==> Takes(fs, name, n)
    decreases |fs|
  {
    if fs != [] {
      var front, last := fs[..|fs| - 1], fs[|fs| - 1];
      AritiesMean(front, name, n);
      assert forall f :: f in fs <==> f in front || f == last;
      if name == last.name {
        forall f | f in front ensures f.name != name {
          var i :| 0 <= i < |front| && front[i] == f;
          assert fs[i] == f;
        }
      }
    }
  }

  /** A parameter's position is where its name stands last. */
  lemma {:induction false} PositionsMean(ps: seq<string>, name: string)
    ensures name in Positions(ps) <==> name in ps
    ensures name in Positions(ps) ==>
              var i := Positions(ps)[name]; ps[i] == name && forall j :: i < j < |ps| ==> ps[j] != name
    decreases |ps|
  {
    if ps != [] {
      var front := ps[..|ps| - 1];
      PositionsMean(front, name);
      assert forall x :: x in ps <==> x in front || x == ps[|ps| - 1];
    }
  }


  function ScopeOf(fs: seq<FunctionDefinition>, ps: seq<string>): Scope {
    Scope(Arities(fs), Positions(ps))
  }

  lemma {:induction false} LowerAccepts(fs: seq<FunctionDefinition>, ps: seq<string>, b: Builder, e: E.Expression)
    requires NamesDiffer(fs)
    ensures var r := Lower(ScopeOf(fs, ps), b, e);
            (r.Ok? <==> InScope(fs, ps, e)) && (r.Err? ==> HasProblem(fs, ps, e, r.error))
    decreases e, 1
  {
    var scope := ScopeOf(fs, ps);
    match e
    case Integer(_, _) =>
    case Name(n, _) => PositionsMean(ps, n);
    case Unary(o, _) => LowerAccepts(fs, ps, b, o);
    case Binary(_, l, r, _) =>
      LowerAccepts(fs, ps, b, l);
      if Lower(scope, b, l).Ok? { LowerAccepts(fs, ps, Lower(scope, b, l).value.builder, r); }
    case Call(_, _, _) => LowerCallAccepts(fs, ps, b, e);
    case If(_, _, _, _) => LowerIfAccepts(fs, ps, b, e);
  }

  lemma {:induction false} LowerCallAccepts(fs: seq<FunctionDefinition>, ps: seq<string>, b: Builder, e: E.Expression)
    requires NamesDiffer(fs) && e.Call?
    ensures var r := Lower(ScopeOf(fs, ps), b, e);
            (r.Ok? <==> InScope(fs, ps, e)) && (r.Err? ==> HasProblem(fs, ps, e, r.error))
    decreases e, 0
  {
    hide Arities;
    var callee, arguments := e.callee, e.arguments;
    AritiesMean(fs, callee, |arguments|);
    if IsNamed(fs, callee) { AritiesMean(fs, callee, Arities(fs)[callee]); }
    LowerAllAccepts(fs, ps, b, arguments);
  }

  lemma {:induction false} LowerIfAccepts(fs: seq<FunctionDefinition>, ps: seq<string>, b: Builder, e: E.Expression)
    requires NamesDiffer(fs) && e.If?
    ensures var r := Lower(ScopeOf(fs, ps), b, e);
            (r.Ok? <==> InScope(fs, ps, e)) && (r.Err? ==> HasProblem(fs, ps, e, r.error))
    decreases e, 0
  {
    hide Lower, BeginIf, EndBranch, FinishIf, Arities, Positions, ScopeOf, NamesDiffer;
    var scope := ScopeOf(fs, ps);
    LowerIfStages(scope, b, e);
    LowerAccepts(fs, ps, b, e.condition);
    if Lower(scope, b, e.condition).Ok? {
      var c := Lower(scope, b, e.condition).value;
      LowerAccepts(fs, ps, BeginIf(c.builder, c.operand), e.onTrue);
      if Lower(scope, BeginIf(c.builder, c.operand), e.onTrue).Ok? {
        var t := Lower(scope, BeginIf(c.builder, c.operand), e.onTrue).value;
        LowerAccepts(fs, ps, EndBranch(t.builder, |c.builder.blocks| + 2, |c.builder.blocks| + 1), e.onFalse);
      }
    }
  }

  /** A conditional fails with the first part that fails, and otherwise joins the two branches. */
  lemma LowerIfStages(scope: Scope, b: Builder, e: E.Expression)
    requires e.If?
    ensures match Lower(scope, b, e.condition)
            case Err(error) => Lower(scope, b, e) == Err(error)
            case Ok(c) =>
              match Lower(scope, BeginIf(c.builder, c.operand), e.onTrue)
              case Err(error) => Lower(scope, b, e) == Err(error)
              case Ok(t) =>
                match Lower(scope, EndBranch(t.builder, |c.builder.blocks| + 2, |c.builder.blocks| + 1), e.onFalse)
                case Err(error) => Lower(scope, b, e) == Err(error)
                case Ok(f) => Lower(scope, b, e) == Ok(FinishIf(|c.builder.blocks|, t, f))
  {
    hide BeginIf, EndBranch, FinishIf, EmitBinary, EmitCall, EmitNegate, LowerAll;
  }

  lemma {:induction false} LowerAllAccepts(fs: seq<FunctionDefinition>, ps: seq<string>, b: Builder, es: seq<E.Expression>)
    requires NamesDiffer(fs)
    ensures var r := LowerAll(ScopeOf(fs, ps), b, es);
            && (r.Ok? <==> forall k :: 0 <= k < |es| ==> InScope(fs, ps, es[k]))
            && (r.Err? ==> exists k :: 0 <= k < |es| && HasProblem(fs, ps, es[k], r.error) && forall j :: 0 <= j < k ==> InScope(fs, ps, es[j]))
    decreases es, 0
  {
    hide InScope, HasProblem;
    if es != [] {
      var scope := ScopeOf(fs, ps);
      LowerAccepts(fs, ps, b, es[0]);
      if Lower(scope, b, es[0]).Ok? {
        var rest := LowerAll(scope, Lower(scope, b, es[0]).value.builder, es[1..]);
        LowerAllAccepts(fs, ps, Lower(scope, b, es[0]).value.builder, es[1..]);
        assert forall k :: 0 < k < |es| ==> es[k] == es[1..][k - 1];
        if rest.Err? {
          var k :| 0 <= k < |es[1..]| && HasProblem(fs, ps, es[1..][k], rest.error) && forall j :: 0 <= j < k ==> InScope(fs, ps, es[1..][j]);
          assert HasProblem(fs, ps, es[k + 1], rest.error);
        }
      }
    }
  }

  // ---------------------------------------------------------------------------
  // Programs
  // ---------------------------------------------------------------------------

  lemma NoNamesClash()
    ensures NamesDiffer([])
  {
  }

  lemma {:induction false} FirstDuplicateMeans(fs: seq<FunctionDefinition>, i: nat, seen: set<string>)
    requires i <= |fs| && NamesDiffer(fs[..i]) && (forall name :: name in seen <==> IsNamed(fs[..i], name))
    ensures match FirstDuplicate(fs[i..], seen)
            case None => NamesDiffer(fs)
            case Some(name) => exists j :: FirstToRepeat(fs, j) && fs[j].name == name
    decreases |fs| - i
  {
    if i == |fs| {
      assert fs[..i] == fs;
    } else {
      var rest := fs[i..];
      assert rest[0] == fs[i] && rest[1..] == fs[i + 1..] && fs[..i + 1] == fs[..i] + [fs[i]];
      if fs[i].name in seen {
        assert FirstToRepeat(fs, i);
      } else {
        NamesDifferMore(fs[..i], fs[i]);
        FirstDuplicateMeans(fs, i + 1, seen + {fs[i].name});
      }
    }
  }

  lemma NamesDifferMore(fs: seq<FunctionDefinition>, f: FunctionDefinition)
    requires NamesDiffer(fs) && !IsNamed(fs, f.name)
    ensures NamesDiffer(fs + [f])
    ensures forall name :: IsNamed(fs + [f], name) <==> IsNamed(fs, name) || name == f.name
  {
    assert forall g :: g in fs + [f] <==> g in fs || g == f;
    assert f in fs + [f];
  }

  lemma RepeatClashes(fs: seq<FunctionDefinition>, j: int)
    requires FirstToRepeat(fs, j)
    ensures !NamesDiffer(fs)
  {
    var f :| f in fs[..j] && f.name == fs[j].name;
    var i :| 0 <= i < |fs[..j]| && fs[..j][i] == f;
    assert fs[i] == f;
  }

  lemma {:induction false} FindMeans(fs: seq<FunctionDefinition>, name: string)
    ensures Find(fs, name).Some? ==> Find(fs, name).value in fs && Find(fs, name).value.name == name
    ensures Find(fs, name).None? ==> forall f :: f in fs ==> f.name != name
  {
    if fs != [] { FindMeans(fs[1..], name); }
  }

  lemma {:induction false} LowerFunctionsAccept(all: seq<FunctionDefinition>, fs: seq<FunctionDefinition>)
    requires NamesDiffer(all)
    ensures var r := LowerFunctions(Arities(all), fs);
            && (r.Ok? <==> forall k :: 0 <= k < |fs| ==> BodyInScope(all, fs[k]))
            && (r.Err? ==> exists k :: 0 <= k < |fs| && HasProblem(all, fs[k].parameters, fs[k].body, r.error)
                             && forall j :: 0 <= j < k ==> BodyInScope(all, fs[j]))
    decreases |fs|
  {
    hide Lower, InScope, HasProblem, Arities;
    if fs != [] {
      LowerAccepts(all, fs[0].parameters, EmptyBody(), fs[0].body);
      LowerFunctionsAccept(all, fs[1..]);
      var rest := LowerFunctions(Arities(all), fs[1..]);
      assert forall k :: 0 < k < |fs| ==> fs[k] == fs[1..][k - 1];
      if BodyInScope(all, fs[0]) && rest.Err? {
        var k :| 0 <= k < |fs[1..]| && HasProblem(all, fs[1..][k].parameters, fs[1..][k].body, rest.error)
          && forall j :: 0 <= j < k ==> BodyInScope(all, fs[1..][j]);
        assert HasProblem(all, fs[k + 1].parameters, fs[k + 1].body, rest.error);
      }
    }
  }

  lemma MainIsFound(fs: seq<FunctionDefinition>)
    requires NamesDiffer(fs)
    ensures var main := Find(fs, "main"); main.Some? && main.value.parameters == [] <==> Takes(fs, "main", 0)
  {
    FindMeans(fs, "main");
    forall f | f in fs && f.name == "main" ensures Find(fs, "main") == Some(f) {
      var i :| 0 <= i < |fs| && fs[i] == Find(fs, "main").value;
      var j :| 0 <= j < |fs| && fs[j] == f;
    }
  }

  /** The compiler accepts exactly the well-scoped programs, and says of any other what is wrong with it first. */
  lemma BuildAcceptsExactly(p: Program)
    ensures BuildProgram(p).Ok? <==> Accepted(p)
    ensures BuildProgram(p).Err? ==> ProgramHasProblem(p, BuildProgram(p).error)
  {
    hide LowerFunctions, InScope, HasProblem, Arities;
    var fs := p.functions;
    NoNamesClash();
    assert fs[0..] == fs && fs[..0] == [];
    FirstDuplicateMeans(fs, 0, {});
    var duplicate := FirstDuplicate(fs, {});
    if duplicate.Some? {
      var j :| FirstToRepeat(fs, j) && fs[j].name == duplicate.value;
      RepeatClashes(fs, j);
    } else {
      MainIsFound(fs);
      LowerFunctionsAccept(fs, fs);
      forall f | f in fs ensures exists k :: 0 <= k < |fs| && fs[k] == f {}
      if BuildProgram(p).Err? && Takes(fs, "main", 0) {
        var error := BuildProgram(p).error;
        var k :| 0 <= k < |fs| && HasProblem(fs, fs[k].parameters, fs[k].body, error) && forall j :: 0 <= j < k ==> BodyInScope(fs, fs[j]);
        assert FirstBodyWithProblem(fs, k, error);
      }
    }
  }
}
