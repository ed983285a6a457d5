/**
 Admission of declared conformances and the search for a proof of one concrete goal. The search
 is stated first without its memo; no fuel bounds it, because every requirement of a terminating
 conformance names a strict part of the provider.
 */
module ConformanceProof {
  import opened Wrappers
  import opened Types
  import opened ConformanceHead
  import opened ConformanceTermination

  const COPY_CAPABILITY := Apply(Nominal("silk/core", "Copy"), [])

  /** `damaged` marks a declaration one of whose requirements did not resolve, and so is missing from its head. */
  datatype Conformance = Conformance(
    path: string, ordinal: nat, typeParameters: seq<Parameter>, head: Head, damaged: bool,
    valid: bool, coherent: bool, terminating: bool)

  /** `copyable` is the compiler's separate authority on Copy. */
  datatype Index = Index(conformances: seq<Conformance>, copyable: Type -> bool)

  datatype Goal = Goal(capability: Type, provider: Type)

  datatype Selection = IdentitySelection | IntrinsicSelection | SourceSelection(path: string, ordinal: nat)

  datatype Failure = MissingWitness | AmbiguousWitness(candidates: nat) | UnavailableWitness | ActiveCycle

  datatype Proof =
    | Proved(goal: Goal, selection: Selection, typeArguments: seq<Type>, requirements: seq<Proof>)
    | Unproved(goal: Goal, failure: Failure, trace: seq<Goal>)

  datatype Candidate = Candidate(conformance: Conformance, substitution: Substitution)

  // ---------------------------------------------------------------------------
  // One-sided matching
  // ---------------------------------------------------------------------------

  function Infer(pattern: Type, actual: Type, inferred: Substitution): Option<Substitution> {
    match pattern
    case Variable(p) =>
      if p !in inferred then Some(inferred[p := actual])
      else if inferred[p] == actual then Some(inferred)
      else None
    case Apply(f, arguments) =>
      if actual.Apply? && actual.former == f && |actual.arguments| == |arguments|
      then InferAll(arguments, actual.arguments, inferred)
      else None
  }

  function InferAll(patterns: seq<Type>, actuals: seq<Type>, inferred: Substitution): Option<Substitution>
    requires |patterns| == |actuals|
  {
    if patterns == [] then Some(inferred)
    else
      var first := Infer(patterns[0], actuals[0], inferred);
      if first.None? then None else InferAll(patterns[1..], actuals[1..], first.value)
  }

  /** The substitution under which an admitted conformance covers the goal. */
  function Covers(c: Conformance, goal: Goal): Option<Substitution> {
    if !c.valid || !c.coherent || !c.terminating then None
    else
      var provider := Infer(c.head.provider, goal.provider, map[]);
      if provider.None? then None else Infer(c.head.capability, goal.capability, provider.value)
  }

  function Candidates(cs: seq<Conformance>, goal: Goal): seq<Candidate> {
    if cs == [] then []
    else
      var covered := Covers(cs[0], goal);
      (if covered.Some? then [Candidate(cs[0], covered.value)] else []) + Candidates(cs[1..], goal)
  }

  // ---------------------------------------------------------------------------
  // The search
  // ---------------------------------------------------------------------------

  ghost predicate WellFounded(index: Index) {
    forall i :: 0 <= i < |index.conformances| && index.conformances[i].terminating ==>
      Descends(index.conformances[i].head)
  }

  function SourceOf(c: Conformance): Selection {
    SourceSelection(c.path, c.ordinal)
  }

  function TypeArguments(candidate: Candidate): seq<Type> {
    SubstituteAll(Variables(candidate.conformance.typeParameters), candidate.substitution)
  }

  function Variables(ps: seq<Parameter>): (r: seq<Type>)
    ensures |r| == |ps|
  {
    seq(|ps|, i requires 0 <= i < |ps| => Variable(ps[i]))
  }

  function SearchCopy(index: Index, goal: Goal, active: seq<Goal>): Proof {
    if !index.copyable(goal.provider) then Unproved(goal, UnavailableWitness, active)
    else
      var matching := Candidates(index.conformances, goal);
      if matching == [] then Proved(goal, IntrinsicSelection, [], [])
      else Proved(goal, SourceOf(matching[0].conformance), TypeArguments(matching[0]), [])
  }

  ghost predicate IsCandidate(index: Index, goal: Goal, candidate: Candidate) {
    && candidate.conformance in index.conformances
    && Covers(candidate.conformance, goal) == Some(candidate.substitution)
  }

  function RequiredGoal(candidate: Candidate, i: nat): Goal
    requires i < |candidate.conformance.head.requirements|
  {
    var r := candidate.conformance.head.requirements[i];
    Goal(Substitute(r.capability, candidate.substitution), Substitute(r.provider, candidate.substitution))
  }

  /** Searches one concrete goal below the goals already active. */
  function Search(index: Index, goal: Goal, active: seq<Goal>): Proof
    requires WellFounded(index)
    decreases Size(goal.provider), 1, 0
  {
    if goal in active then Unproved(goal, ActiveCycle, active)
    else if goal.capability == COPY_CAPABILITY then SearchCopy(index, goal, active)
    else if IsNominal(goal.provider) && goal.provider == goal.capability then Proved(goal, IdentitySelection, [], [])
    else
      var matching := Candidates(index.conformances, goal);
      if matching == [] then Unproved(goal, MissingWitness, active)
      else if |matching| > 1 then Unproved(goal, AmbiguousWitness(|matching|), active)
      else
        CandidatesAreCandidates(index, index.conformances, goal, 0);
        var required := SearchRequirements(index, goal, matching[0], 0, active);
        if required.Err? then required.error
        else Proved(goal, SourceOf(matching[0].conformance), TypeArguments(matching[0]), required.value)
  }

  /** Searches the requirements of a selected conformance in order, stopping at the first failure. */
  function SearchRequirements(index: Index, goal: Goal, candidate: Candidate, i: nat, active: seq<Goal>): Result<seq<Proof>, Proof>
    requires WellFounded(index) && IsCandidate(index, goal, candidate)
    decreases Size(goal.provider), 0, |candidate.conformance.head.requirements| - i
  {
    if i >= |candidate.conformance.head.requirements| then Ok([])
    else
      var required := RequiredGoal(candidate, i);
      if !IsNominal(required.capability) then Err(Unproved(goal, UnavailableWitness, active))
      else
        RequirementDescends(index, goal, candidate, i);
        var proof := Search(index, required, active + [goal]);
        if proof.Unproved? then Err(proof)
        else
          var rest := SearchRequirements(index, goal, candidate, i + 1, active);
          if rest.Err? then rest else Ok([proof] + rest.value)
  }

  // ---------------------------------------------------------------------------
  // Matching is sound and complete
  // ---------------------------------------------------------------------------

  /** `s` instantiates every already inferred parameter as inferred. */
  ghost predicate Agrees(s: Substitution, inferred: Substitution) {
    forall p :: p in inferred ==> Substitute(Variable(p), s) == inferred[p]
  }

  lemma {:induction false} InferSound(pattern: Type, actual: Type, inferred: Substitution)
    ensures var r := Infer(pattern, actual, inferred);
            r.Some? ==>
              && (forall p :: p in inferred ==> p in r.value && r.value[p] == inferred[p])
              && r.value.Keys == inferred.Keys + Parameters(pattern)
              && Substitute(pattern, r.value) == actual
  {
    match pattern
    case Variable(_) =>
    case Apply(_, arguments) =>
      if actual.Apply? && |actual.arguments| == |arguments| { InferAllSound(arguments, actual.arguments, inferred); }
  }

  lemma {:induction false} InferAllSound(patterns: seq<Type>, actuals: seq<Type>, inferred: Substitution)
    requires |patterns| == |actuals|
    ensures var r := InferAll(patterns, actuals, inferred);
            r.Some? ==>
              && (forall p :: p in inferred ==> p in r.value && r.value[p] == inferred[p])
              && r.value.Keys == inferred.Keys + ParametersAll(patterns)
              && SubstituteAll(patterns, r.value) == actuals
  {
    if patterns != [] {
      InferSound(patterns[0], actuals[0], inferred);
      var first := Infer(patterns[0], actuals[0], inferred);
      if first.Some? {
        InferAllSound(patterns[1..], actuals[1..], first.value);
        var r := InferAll(patterns, actuals, inferred);
        if r.Some? { SubstituteAgree(patterns[0], first.value, r.value); }
      }
    }
  }

  lemma {:induction false} InferComplete(pattern: Type, actual: Type, inferred: Substitution, s: Substitution)
    requires Agrees(s, inferred) && Substitute(pattern, s) == actual
    ensures Infer(pattern, actual, inferred).Some? && Agrees(s, Infer(pattern, actual, inferred).value)
  {
    match pattern
    case Variable(_) =>
    case Apply(_, arguments) => InferAllComplete(arguments, actual.arguments, inferred, s);
  }

  lemma {:induction false} InferAllComplete(patterns: seq<Type>, actuals: seq<Type>, inferred: Substitution, s: Substitution)
    requires Agrees(s, inferred) && SubstituteAll(patterns, s) == actuals
    ensures InferAll(patterns, actuals, inferred).Some? && Agrees(s, InferAll(patterns, actuals, inferred).value)
  {
    if patterns != [] {
      InferComplete(patterns[0], actuals[0], inferred, s);
      assert SubstituteAll(patterns[1..], s) == actuals[1..];
      InferAllComplete(patterns[1..], actuals[1..], Infer(patterns[0], actuals[0], inferred).value, s);
    }
  }

  /** A covering conformance instantiates to exactly the goal. */
  lemma CoversInstantiates(c: Conformance, goal: Goal)
    requires Covers(c, goal).Some?
    ensures var s := Covers(c, goal).value;
            && Substitute(c.head.provider, s) == goal.provider
            && Substitute(c.head.capability, s) == goal.capability
            && s.Keys == Parameters(c.head.provider) + Parameters(c.head.capability)
  {
    var provider := Infer(c.head.provider, goal.provider, map[]);
    InferSound(c.head.provider, goal.provider, map[]);
    InferSound(c.head.capability, goal.capability, provider.value);
    SubstituteAgree(c.head.provider, provider.value, Covers(c, goal).value);
  }

  /** An admitted conformance covers exactly the goals its head can be instantiated to. */
  lemma CoversExactly(c: Conformance, goal: Goal)
    requires c.valid && c.coherent && c.terminating
    ensures Covers(c, goal).Some? <==>
              exists s: Substitution :: Key(SubstituteHead(c.head, s)) == (goal.capability, goal.provider)
  {
    if Covers(c, goal).Some? {
      CoversInstantiates(c, goal);
      assert Key(SubstituteHead(c.head, Covers(c, goal).value)) == (goal.capability, goal.provider);
    }
    if s: Substitution :| Key(SubstituteHead(c.head, s)) == (goal.capability, goal.provider) {
      InferComplete(c.head.provider, goal.provider, map[], s);
      InferComplete(c.head.capability, goal.capability, Infer(c.head.provider, goal.provider, map[]).value, s);
    }
  }

  lemma {:induction false} CandidatesAreCandidates(index: Index, cs: seq<Conformance>, goal: Goal, from: nat)
    requires from <= |index.conformances| && cs == index.conformances[from..]
    ensures forall i :: 0 <= i < |Candidates(cs, goal)| ==> IsCandidate(index, goal, Candidates(cs, goal)[i])
    decreases |cs|
  {
    if cs != [] {
      CandidatesAreCandidates(index, cs[1..], goal, from + 1);
      assert cs[0] == index.conformances[from];
    }
  }

  /** The measure of the search: a requirement names a strict part of the goal's own provider. */
  lemma RequirementDescends(index: Index, goal: Goal, candidate: Candidate, i: nat)
    requires WellFounded(index) && IsCandidate(index, goal, candidate)
    requires i < |candidate.conformance.head.requirements|
    ensures var required := RequiredGoal(candidate, i);
            && IsStrictSubterm(required.provider, goal.provider)
            && Size(required.provider) < Size(goal.provider)
            && Depth(required.provider) < Depth(goal.provider)
  {
    var k :| 0 <= k < |index.conformances| && index.conformances[k] == candidate.conformance;
    CoversInstantiates(candidate.conformance, goal);
    SubtermSubstitute(candidate.conformance.head.requirements[i].provider, candidate.conformance.head.provider, candidate.substitution);
    SubtermSmaller(RequiredGoal(candidate, i).provider, goal.provider);
  }

  /** Closed goals ask only closed questions. */
  lemma RequirementStaysClosed(index: Index, goal: Goal, candidate: Candidate, i: nat)
    requires WellFounded(index) && IsCandidate(index, goal, candidate)
    requires i < |candidate.conformance.head.requirements|
    requires Parameters(goal.capability) == {} && Parameters(goal.provider) == {}
    ensures Parameters(RequiredGoal(candidate, i).capability) == {}
    ensures Parameters(RequiredGoal(candidate, i).provider) == {}
  {
    var k :| 0 <= k < |index.conformances| && index.conformances[k] == candidate.conformance;
    var head, s := candidate.conformance.head, candidate.substitution;
    var r := head.requirements[i];
    CoversInstantiates(candidate.conformance, goal);
    SubtermSmaller(r.provider, head.provider);
    ClosedInstance(r.capability, head, s);
    ClosedInstance(r.provider, head, s);
  }

  lemma ClosedInstance(t: Type, h: Head, s: Substitution)
    requires Parameters(t) <= Parameters(h.capability) + Parameters(h.provider)
    requires Parameters(Substitute(h.capability, s)) == {} && Parameters(Substitute(h.provider, s)) == {}
    ensures Parameters(Substitute(t, s)) == {}
  {
    forall q ensures q !in Parameters(Substitute(t, s)) {
      ParametersOfSubstitute(t, s, q);
      ParametersOfSubstitute(h.capability, s, q);
      ParametersOfSubstitute(h.provider, s, q);
    }
  }
}
