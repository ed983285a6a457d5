/**
 Triangular bindings: the insertion-ordered map a unification builds, where every bound term was
 resolved against the bindings made before it. Solving a term against them all is defined by
 eliminating one binding after another.
 */
module TriangularBindings {
  import opened Types

  datatype Binding = Binding(parameter: Parameter, term: Type)

  /** No bound term mentions a parameter bound at or before it, and no parameter is bound twice. */
  ghost predicate Triangular(bs: seq<Binding>) {
    && (forall i, j :: 0 <= j <= i < |bs| ==> bs[j].parameter !in Parameters(bs[i].term))
    && (forall i, j :: 0 <= j < i < |bs| ==> bs[j].parameter != bs[i].parameter)
  }

  ghost function Bound(bs: seq<Binding>): (r: set<Parameter>)
    ensures forall i :: 0 <= i < |bs| ==> bs[i].parameter in r
  {
    if bs == [] then {} else {bs[0].parameter} + Bound(bs[1..])
  }

  /** The bindings as one simultaneous substitution; the first binding of a parameter counts. */
  function Simultaneous(bs: seq<Binding>): Substitution {
    if bs == [] then map[] else Simultaneous(bs[1..])[bs[0].parameter := bs[0].term]
  }

  /** Eliminates every binding in order. */
  function Solve(t: Type, bs: seq<Binding>): Type
    decreases |bs|
  {
    if bs == [] then t
    else Solve(Substitute(t, map[bs[0].parameter := bs[0].term]), bs[1..])
  }

  function SolveAll(ts: seq<Type>, bs: seq<Binding>): (r: seq<Type>)
    ensures |r| == |ts|
    ensures forall i :: 0 <= i < |ts| ==> r[i] == Solve(ts[i], bs)
  {
    if ts == [] then [] else [Solve(ts[0], bs)] + SolveAll(ts[1..], bs)
  }

  /** An instantiation that respects every binding. */
  ghost predicate Satisfies(s: Substitution, bs: seq<Binding>) {
    forall i :: 0 <= i < |bs| ==> Substitute(Variable(bs[i].parameter), s) == Substitute(bs[i].term, s)
  }

  // ---------------------------------------------------------------------------
  // Basic facts
  // ---------------------------------------------------------------------------

  lemma {:induction false} BoundAt(bs: seq<Binding>, p: Parameter) returns (i: nat)
    requires p in Bound(bs)
    ensures i < |bs| && bs[i].parameter == p
  {
    if bs[0].parameter == p { i := 0; } else { i := BoundAt(bs[1..], p); i := i + 1; }
  }

  lemma {:induction false} NotBound(bs: seq<Binding>, p: Parameter)
    requires forall i :: 0 <= i < |bs| ==> bs[i].parameter != p
    ensures p !in Bound(bs)
  {
    if bs != [] { NotBound(bs[1..], p); }
  }

  lemma {:induction false} BoundSize(bs: seq<Binding>)
    requires Triangular(bs)
    ensures |Bound(bs)| == |bs|
  {
    if bs != [] {
      TriangularTail(bs);
      BoundSize(bs[1..]);
      NotBound(bs[1..], bs[0].parameter);
    }
  }

  lemma TriangularTail(bs: seq<Binding>)
    requires Triangular(bs) && bs != []
    ensures Triangular(bs[1..])
  {
    var rest := bs[1..];
    assert forall i :: 0 <= i < |rest| ==> rest[i] == bs[i + 1];
  }

  lemma {:induction false} SimultaneousAt(bs: seq<Binding>)
    requires Triangular(bs)
    ensures Simultaneous(bs).Keys == Bound(bs)
    ensures forall i :: 0 <= i < |bs| ==> Simultaneous(bs)[bs[i].parameter] == bs[i].term
  {
    if bs != [] {
      TriangularTail(bs);
      SimultaneousAt(bs[1..]);
      assert forall i :: 1 <= i < |bs| ==> bs[i] == bs[1..][i - 1];
    }
  }

  lemma {:induction false} SolveApply(f: Former, arguments: seq<Type>, bs: seq<Binding>)
    ensures Solve(Apply(f, arguments), bs) == Apply(f, SolveAll(arguments, bs))
    decreases |bs|
  {
    if bs == [] {
      assert SolveAll(arguments, bs) == arguments;
    } else {
      var s := map[bs[0].parameter := bs[0].term];
      SolveApply(f, SubstituteAll(arguments, s), bs[1..]);
      assert SolveAll(SubstituteAll(arguments, s), bs[1..]) == SolveAll(arguments, bs);
    }
  }

  lemma {:induction false} SolveUnbound(t: Type, bs: seq<Binding>)
    requires Parameters(t) !! Bound(bs)
    ensures Solve(t, bs) == t
    decreases |bs|
  {
    if bs != [] {
      SubstituteNothing(t, map[bs[0].parameter := bs[0].term]);
      SolveUnbound(t, bs[1..]);
    }
  }

  /** A bound parameter and the term bound to it solve to the same term. */
  lemma {:induction false} SolveBinding(bs: seq<Binding>, i: nat)
    requires Triangular(bs) && i < |bs|
    ensures Solve(Variable(bs[i].parameter), bs) == Solve(bs[i].term, bs)
  {
    var s := map[bs[0].parameter := bs[0].term];
    SubstituteNothing(bs[i].term, s);
    if i > 0 {
      TriangularTail(bs);
      SolveBinding(bs[1..], i - 1);
      assert Substitute(Variable(bs[i].parameter), s) == Variable(bs[i].parameter);
    }
  }

  /** One simultaneous pass does not change what a term solves to. */
  lemma {:induction false} SolveAfterPass(t: Type, bs: seq<Binding>)
    requires Triangular(bs)
    ensures Solve(Substitute(t, Simultaneous(bs)), bs) == Solve(t, bs)
    decreases t
  {
    var m := Simultaneous(bs);
    SimultaneousAt(bs);
    match t
    case Variable(p) =>
      if p in m {
        var i := BoundAt(bs, p);
        SolveBinding(bs, i);
      }
    case Apply(f, arguments) =>
      forall i | 0 <= i < |arguments|
        ensures SolveAll(SubstituteAll(arguments, m), bs)[i] == SolveAll(arguments, bs)[i]
      {
        SolveAfterPass(arguments[i], bs);
      }
      SolveApply(f, arguments, bs);
      SolveApply(f, SubstituteAll(arguments, m), bs);
      assert SolveAll(SubstituteAll(arguments, m), bs) == SolveAll(arguments, bs);
  }

  // ---------------------------------------------------------------------------
  // Passes reach the fixed point
  // ---------------------------------------------------------------------------

  /** None of the first `k` bound parameters is left in the term. */
  ghost predicate FreeOfFirst(t: Type, bs: seq<Binding>, k: nat) {
    forall i :: 0 <= i < k && i < |bs| ==> bs[i].parameter !in Parameters(t)
  }

  lemma PassFreesOneMore(t: Type, bs: seq<Binding>, k: nat)
    requires Triangular(bs) && FreeOfFirst(t, bs, k)
    ensures FreeOfFirst(Substitute(t, Simultaneous(bs)), bs, k + 1)
  {
    var m := Simultaneous(bs);
    SimultaneousAt(bs);
    forall i | 0 <= i < k + 1 && i < |bs| ensures bs[i].parameter !in Parameters(Substitute(t, m)) {
      ParametersOfSubstitute(t, m, bs[i].parameter);
      forall p | p in Parameters(t) ensures bs[i].parameter !in Parameters(Substitute(Variable(p), m)) {
        if p in m { var j := BoundAt(bs, p); }
      }
    }
  }

  lemma FreeOfAll(t: Type, bs: seq<Binding>)
    requires Triangular(bs) && FreeOfFirst(t, bs, |bs|)
    ensures Parameters(t) !! Bound(bs)
    ensures Substitute(t, Simultaneous(bs)) == t && Solve(t, bs) == t
  {
    forall p | p in Bound(bs) ensures p !in Parameters(t) {
      var i := BoundAt(bs, p);
    }
    SimultaneousAt(bs);
    SubstituteNothing(t, Simultaneous(bs));
    SolveUnbound(t, bs);
  }

  // ---------------------------------------------------------------------------
  // Solving and instantiating
  // ---------------------------------------------------------------------------

  /** Solving loses no instance: a satisfying instantiation cannot tell a term from its solution. */
  lemma {:induction false} SolveUnderSatisfying(t: Type, bs: seq<Binding>, s: Substitution)
    requires Satisfies(s, bs)
    ensures Substitute(Solve(t, bs), s) == Substitute(t, s)
    decreases |bs|
  {
    if bs != [] {
      var one := map[bs[0].parameter := bs[0].term];
      assert forall i :: 0 <= i < |bs[1..]| ==> bs[1..][i] == bs[i + 1];
      SolveUnderSatisfying(Substitute(t, one), bs[1..], s);
      SubstituteOneUnder(t, bs[0].parameter, bs[0].term, s);
    }
  }

  lemma {:induction false} SubstituteOneUnder(t: Type, p: Parameter, u: Type, s: Substitution)
    requires Substitute(Variable(p), s) == Substitute(u, s)
    ensures Substitute(Substitute(t, map[p := u]), s) == Substitute(t, s)
  {
    match t
    case Variable(_) =>
    case Apply(_, arguments) =>
      forall i | 0 <= i < |arguments|
        ensures SubstituteAll(SubstituteAll(arguments, map[p := u]), s)[i] == SubstituteAll(arguments, s)[i]
      {
        SubstituteOneUnder(arguments[i], p, u, s);
      }
  }

  /** The bindings' own solution, as an instantiation of finitely many parameters. */
  ghost function Solution(bs: seq<Binding>, over: set<Parameter>): Substitution {
    map p | p in over :: Solve(Variable(p), bs)
  }

  lemma {:induction false} SolutionSolves(t: Type, bs: seq<Binding>, over: set<Parameter>)
    requires Parameters(t) <= over
    ensures Substitute(t, Solution(bs, over)) == Solve(t, bs)
  {
    match t
    case Variable(_) =>
    case Apply(f, arguments) =>
      forall i | 0 <= i < |arguments|
        ensures SubstituteAll(arguments, Solution(bs, over))[i] == SolveAll(arguments, bs)[i]
      {
        SolutionSolves(arguments[i], bs, over);
      }
      SolveApply(f, arguments, bs);
      assert SubstituteAll(arguments, Solution(bs, over)) == SolveAll(arguments, bs);
  }

  lemma {:induction false} SolveAppend(t: Type, bs: seq<Binding>, more: seq<Binding>)
    ensures Solve(t, bs + more) == Solve(Solve(t, bs), more)
    decreases |bs|
  {
    if bs == [] {
      assert bs + more == more;
    } else {
      SolveAppend(Substitute(t, map[bs[0].parameter := bs[0].term]), bs[1..], more);
      assert (bs + more)[1..] == bs[1..] + more;
    }
  }

  /** Terms that solve alike keep solving alike when bindings are added. */
  lemma SolvedStaysSolved(t: Type, u: Type, bs: seq<Binding>, longer: seq<Binding>)
    requires bs <= longer && Solve(t, bs) == Solve(u, bs)
    ensures Solve(t, longer) == Solve(u, longer)
  {
    assert longer == bs + longer[|bs|..];
    SolveAppend(t, bs, longer[|bs|..]);
    SolveAppend(u, bs, longer[|bs|..]);
  }

  /** A term that a simultaneous pass leaves alone mentions no bound parameter. */
  lemma {:induction false} FixedPointIsFree(t: Type, s: Substitution, p: Parameter)
    requires Substitute(t, s) == t && p in Parameters(t)
    ensures Substitute(Variable(p), s) == Variable(p)
  {
    match t
    case Variable(_) =>
    case Apply(_, arguments) =>
      var i := InParametersAll(arguments, p);
      assert SubstituteAll(arguments, s)[i] == arguments[i];
      FixedPointIsFree(arguments[i], s, p);
  }

  lemma FixedPointIsSolved(t: Type, bs: seq<Binding>)
    requires Triangular(bs) && Substitute(t, Simultaneous(bs)) == t
    ensures Parameters(t) !! Bound(bs) && Solve(t, bs) == t
  {
    SimultaneousAt(bs);
    forall p | p in Bound(bs) ensures p !in Parameters(t) {
      var i := BoundAt(bs, p);
      if p in Parameters(t) { FixedPointIsFree(t, Simultaneous(bs), p); }
    }
    SolveUnbound(t, bs);
  }

  /** Binding an unbound parameter to a solved term it does not occur in keeps the bindings triangular. */
  lemma TriangularBind(bs: seq<Binding>, p: Parameter, t: Type)
    requires Triangular(bs) && p !in Bound(bs) && p !in Parameters(t) && Parameters(t) !! Bound(bs)
    ensures Triangular(bs + [Binding(p, t)])
    ensures Solve(Variable(p), bs + [Binding(p, t)]) == t
    ensures Solve(t, bs + [Binding(p, t)]) == t
  {
    SolveUnbound(Variable(p), bs);
    SolveUnbound(t, bs);
    SolveAppend(Variable(p), bs, [Binding(p, t)]);
    SolveAppend(t, bs, [Binding(p, t)]);
    SubstituteNothing(t, map[p := t]);
  }
}
