/**
 First-order semantic types: parameters, and formers applied to type arguments. A nominal
 type, a fixed array, a slice and a reference differ only in their former.
 */
module Types {

  datatype Owner = Owner(path: string, name: string)

  datatype Parameter = Parameter(owner: Owner, position: nat)

  datatype Access = Shared | Exclusive

  datatype Former =
    | Nominal(path: string, name: string)
    | FixedArray(length: nat)
    | Slice(access: Access)
    | Reference(access: Access)

  datatype Type =
    | Variable(parameter: Parameter)
    | Apply(former: Former, arguments: seq<Type>)

  type Substitution = map<Parameter, Type>

  predicate IsNominal(t: Type) {
    t.Apply? && t.former.Nominal?
  }

  /** Replaces every mapped parameter at once. */
  function Substitute(t: Type, s: Substitution): Type {
    match t
    case Variable(p) => if p in s then s[p] else t
    case Apply(c, arguments) => Apply(c, SubstituteAll(arguments, s))
  }

  function SubstituteAll(ts: seq<Type>, s: Substitution): (r: seq<Type>)
    ensures |r| == |ts|
    ensures forall i :: 0 <= i < |ts| ==> r[i] == Substitute(ts[i], s)
  {
    if ts == [] then [] else [Substitute(ts[0], s)] + SubstituteAll(ts[1..], s)
  }

  /** The parameters a term mentions. */
  function Parameters(t: Type): set<Parameter> {
    match t
    case Variable(p) => {p}
    case Apply(_, arguments) => ParametersAll(arguments)
  }

  function ParametersAll(ts: seq<Type>): (r: set<Parameter>)
    ensures forall i :: 0 <= i < |ts| ==> Parameters(ts[i]) <= r
  {
    if ts == [] then {} else Parameters(ts[0]) + ParametersAll(ts[1..])
  }

  /** The number of formers and parameters in a term. */
  function Size(t: Type): (n: nat)
    ensures n >= 1
  {
    match t
    case Variable(_) => 1
    case Apply(_, arguments) => 1 + SizeAll(arguments)
  }

  function SizeAll(ts: seq<Type>): (n: nat)
    ensures forall i :: 0 <= i < |ts| ==> Size(ts[i]) <= n
  {
    if ts == [] then 0 else Size(ts[0]) + SizeAll(ts[1..])
  }

  /** The nesting depth of a term. */
  function Depth(t: Type): (n: nat)
    ensures n >= 1
  {
    match t
    case Variable(_) => 1
    case Apply(_, arguments) => 1 + DepthAll(arguments)
  }

  function DepthAll(ts: seq<Type>): (n: nat)
    ensures forall i :: 0 <= i < |ts| ==> Depth(ts[i]) <= n
  {
    if ts == [] then 0
    else
      var first, rest := Depth(ts[0]), DepthAll(ts[1..]);
      if first > rest then first else rest
  }

  /** `part` occurs somewhere in `whole`, possibly as the whole. */
  predicate IsSubterm(part: Type, whole: Type) {
    part == whole || (whole.Apply? && IsSubtermOfAny(part, whole.arguments))
  }

  predicate IsSubtermOfAny(part: Type, wholes: seq<Type>) {
    wholes != [] && (IsSubterm(part, wholes[0]) || IsSubtermOfAny(part, wholes[1..]))
  }

  predicate IsStrictSubterm(part: Type, whole: Type) {
    part != whole && IsSubterm(part, whole)
  }

  // ---------------------------------------------------------------------------
  // Laws
  // ---------------------------------------------------------------------------

  /** Two substitutions that agree on a term's parameters agree on the term. */
  lemma {:induction false} SubstituteAgree(t: Type, a: Substitution, b: Substitution)
    requires forall p :: p in Parameters(t) ==> Substitute(Variable(p), a) == Substitute(Variable(p), b)
    ensures Substitute(t, a) == Substitute(t, b)
  {
    match t
    case Variable(_) =>
    case Apply(_, arguments) =>
      forall i | 0 <= i < |arguments| ensures SubstituteAll(arguments, a)[i] == SubstituteAll(arguments, b)[i] {
        SubstituteAgree(arguments[i], a, b);
      }
  }

  lemma SubstituteNothing(t: Type, s: Substitution)
    requires Parameters(t) !! s.Keys
    ensures Substitute(t, s) == t
  {
  }

  lemma {:induction false} SubstituteEmpty(t: Type)
    ensures Substitute(t, map[]) == t
  {
    match t
    case Variable(_) =>
    case Apply(_, arguments) =>
      forall i | 0 <= i < |arguments| ensures SubstituteAll(arguments, map[])[i] == arguments[i] {
        SubstituteEmpty(arguments[i]);
      }
  }

  /** Where the parameters of a substituted term come from. */
  lemma {:induction false} ParametersOfSubstitute(t: Type, s: Substitution, q: Parameter)
    ensures q in Parameters(Substitute(t, s))
       <==> exists p :: p in Parameters(t) && q in Parameters(Substitute(Variable(p), s))
  {
    match t
    case Variable(p) =>
      assert p in Parameters(t);
    case Apply(_, arguments) =>
      ParametersOfSubstituteAll(arguments, s, q);
  }

  lemma {:induction false} ParametersOfSubstituteAll(ts: seq<Type>, s: Substitution, q: Parameter)
    ensures q in ParametersAll(SubstituteAll(ts, s))
       <==> exists p :: p in ParametersAll(ts) && q in Parameters(Substitute(Variable(p), s))
  {
    if ts != [] {
      ParametersOfSubstitute(ts[0], s, q);
      ParametersOfSubstituteAll(ts[1..], s, q);
      assert SubstituteAll(ts, s)[1..] == SubstituteAll(ts[1..], s);
    }
  }

  lemma {:induction false} InParametersAll(ts: seq<Type>, p: Parameter) returns (i: nat)
    requires p in ParametersAll(ts)
    ensures i < |ts| && p in Parameters(ts[i])
  {
    if p in Parameters(ts[0]) { i := 0; } else { i := InParametersAll(ts[1..], p); i := i + 1; }
  }

  /** A term that properly contains a parameter is bigger than the parameter under every instantiation. */
  lemma {:induction false} OccursIsBigger(t: Type, p: Parameter, s: Substitution)
    requires p in Parameters(t)
    ensures Size(Substitute(t, s)) >= Size(Substitute(Variable(p), s))
    ensures t.Apply? ==> Size(Substitute(t, s)) > Size(Substitute(Variable(p), s))
  {
    match t
    case Variable(_) =>
    case Apply(_, arguments) =>
      var i := InParametersAll(arguments, p);
      OccursIsBigger(arguments[i], p, s);
      assert SubstituteAll(arguments, s)[i] == Substitute(arguments[i], s);
  }

  lemma {:induction false} SubtermSmaller(part: Type, whole: Type)
    requires IsSubterm(part, whole)
    ensures part != whole ==> Size(part) < Size(whole) && Depth(part) < Depth(whole)
    ensures Parameters(part) <= Parameters(whole)
  {
    if part != whole { SubtermOfAnySmaller(part, whole.arguments); }
  }

  lemma {:induction false} SubtermOfAnySmaller(part: Type, wholes: seq<Type>)
    requires IsSubtermOfAny(part, wholes)
    ensures Size(part) <= SizeAll(wholes) && Depth(part) <= DepthAll(wholes)
    ensures Parameters(part) <= ParametersAll(wholes)
  {
    if IsSubterm(part, wholes[0]) { SubtermSmaller(part, wholes[0]); } else { SubtermOfAnySmaller(part, wholes[1..]); }
  }

  /** Instantiation keeps strict containment, because it cannot merge a term with its own part. */
  lemma {:induction false} SubtermSubstitute(part: Type, whole: Type, s: Substitution)
    requires IsSubterm(part, whole)
    ensures IsSubterm(Substitute(part, s), Substitute(whole, s))
    ensures part != whole ==> IsStrictSubterm(Substitute(part, s), Substitute(whole, s))
  {
    if part != whole {
      SubtermOfAnySubstitute(part, whole.arguments, s);
      SubtermOfAnySmaller(Substitute(part, s), SubstituteAll(whole.arguments, s));
    }
  }

  lemma {:induction false} SubtermOfAnySubstitute(part: Type, wholes: seq<Type>, s: Substitution)
    requires IsSubtermOfAny(part, wholes)
    ensures IsSubtermOfAny(Substitute(part, s), SubstituteAll(wholes, s))
  {
    assert SubstituteAll(wholes, s)[1..] == SubstituteAll(wholes[1..], s);
    if IsSubterm(part, wholes[0]) { SubtermSubstitute(part, wholes[0], s); } else { SubtermOfAnySubstitute(part, wholes[1..], s); }
  }
}
