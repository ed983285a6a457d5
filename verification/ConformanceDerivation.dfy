/**
 What counts as a proof of a goal, and as a reason there is none, said over the declarations alone: instances of the
 declared pairs, never the functions the search computes them with.
 */
module ConformanceDerivation {
  import opened Wrappers
  import opened Types
  import opened TypeTerms
  import opened ConformanceProof

  ghost predicate NamesInterface(t: Type) {
    t.Apply? && t.former.Nominal?
  }

  ghost predicate AsksForCopy(goal: Goal) {
    goal.capability == Apply(Nominal("silk/core", "Copy"), [])
  }

  /** A nominal provider is its own witness for the capability it names. */
  ghost predicate IsIdentity(goal: Goal) {
    NamesInterface(goal.provider) && goal.provider == goal.capability
  }

  /** The admitted declaration is for this very goal once its parameters are replaced. */
  ghost predicate IsFor(c: Conformance, goal: Goal, s: Substitution) {
    && c.valid && c.coherent && c.terminating
    && IsInstance(c.head.provider, s, goal.provider)
    && IsInstance(c.head.capability, s, goal.capability)
    && (forall p :: p in s <==> p in Mentions(c.head.provider) || p in Mentions(c.head.capability))
  }

  ghost predicate HasInstance(c: Conformance, goal: Goal) {
    exists s :: IsFor(c, goal, s)
  }

  /** The node names the declaration and what each of its type parameters stands for. */
  ghost predicate Selects(c: Conformance, s: Substitution, proof: Proof)
    requires proof.Proved?
  {
    && proof.selection == SourceSelection(c.path, c.ordinal)
    && |proof.typeArguments| == |c.typeParameters|
    && forall k :: 0 <= k < |c.typeParameters| ==> IsInstance(Variable(c.typeParameters[k]), s, proof.typeArguments[k])
  }

  /** The first declaration for the goal, in the order of the index. */
  ghost predicate IsFirstFor(index: Index, goal: Goal, i: int, s: Substitution) {
    && 0 <= i < |index.conformances| && IsFor(index.conformances[i], goal, s)
    && forall j :: 0 <= j < i ==> !HasInstance(index.conformances[j], goal)
  }

  /** Copy is answered by its own authority; the first declaration for it, if any, is named. */
  ghost predicate DerivesCopy(index: Index, proof: Proof)
    requires proof.Proved?
  {
    && index.copyable(proof.goal.provider) && proof.requirements == []
    && if exists c :: c in index.conformances && HasInstance(c, proof.goal)
       then exists i, s :: IsFirstFor(index, proof.goal, i, s) && Selects(index.conformances[i], s, proof)
       else proof.selection == IntrinsicSelection && proof.typeArguments == []
  }

  /** A proof tree in which every node is justified by the declarations alone. */
  ghost predicate Derives(index: Index, proof: Proof)
    decreases proof, 1
  {
    && proof.Proved?
    && if AsksForCopy(proof.goal) then DerivesCopy(index, proof)
       else if IsIdentity(proof.goal) then
         proof.selection == IdentitySelection && proof.typeArguments == [] && proof.requirements == []
       else exists candidate :: Justifies(index, candidate, proof)
  }

  /** The candidate selects this node and every requirement of it is derived in turn. */
  ghost predicate Justifies(index: Index, candidate: Candidate, proof: Proof)
    requires proof.Proved?
    decreases proof, 0
  {
    var c, s := candidate.conformance, candidate.substitution;
    && c in index.conformances && IsFor(c, proof.goal, s) && Selects(c, s, proof)
    && |proof.requirements| == |c.head.requirements|
    && (forall i :: 0 <= i < |c.head.requirements| ==> ProvesRequirement(index, candidate, i, proof.requirements[i]))
  }

  /** The goal is the declared requirement at a position, its parameters replaced. */
  ghost predicate Asks(candidate: Candidate, i: nat, goal: Goal)
    requires i < |candidate.conformance.head.requirements|
  {
    var r, s := candidate.conformance.head.requirements[i], candidate.substitution;
    IsInstance(r.capability, s, goal.capability) && IsInstance(r.provider, s, goal.provider)
  }

  /** The node derives the candidate's requirement at a position. */
  ghost predicate ProvesRequirement(index: Index, candidate: Candidate, i: nat, proof: Proof)
    requires i < |candidate.conformance.head.requirements|
    decreases proof, 2
  {
    Derives(index, proof) && Asks(candidate, i, proof.goal) && NamesInterface(proof.goal.capability)
  }

  // ---------------------------------------------------------------------------
  // Why there is no proof
  // ---------------------------------------------------------------------------

  /** How many of the declarations are for a goal. */
  ghost function HowMany(cs: seq<Conformance>, goal: Goal): nat {
    if cs == [] then 0 else (if HasInstance(cs[0], goal) then 1 else 0) + HowMany(cs[1..], goal)
  }

  /** The goal itself has no witness, or more than one. */
  ghost predicate IsStuck(index: Index, goal: Goal, failure: Failure) {
    if AsksForCopy(goal) then failure == UnavailableWitness && !index.copyable(goal.provider)
    else
      && !IsIdentity(goal)
      && var n := HowMany(index.conformances, goal);
         if n == 0 then failure == MissingWitness else n > 1 && failure == AmbiguousWitness(n)
  }

  /** The earlier requirements of the candidate are derived. */
  ghost predicate ProvedBefore(index: Index, candidate: Candidate, i: nat) {
    && i <= |candidate.conformance.head.requirements|
    && forall k :: 0 <= k < i ==> IsProved(index, candidate, k)
  }

  ghost predicate IsProved(index: Index, candidate: Candidate, i: nat)
    requires i < |candidate.conformance.head.requirements|
  {
    exists proof :: ProvesRequirement(index, candidate, i, proof)
  }

  /**
   The failure is reported of the goal that has no witness, with the chain of goals that asked for it: the goal is
   stuck itself, or the first requirement of its one declaration that is not derived is no interface, or fails in turn.
   */
  ghost predicate Fails(index: Index, goal: Goal, active: seq<Goal>, proof: Proof)
    decreases if proof.Unproved? then |proof.trace| - |active| else 0
  {
    && proof.Unproved?
    && (|| (proof.goal == goal && proof.trace == active && IsStuck(index, goal, proof.failure))
        || (exists candidate, i, asked :: FailsAt(index, goal, candidate, i, asked)
              && if NamesInterface(asked.capability) then |active| < |proof.trace| && Fails(index, asked, active + [goal], proof)
                 else proof == Unproved(goal, UnavailableWitness, active)))
  }

  ghost predicate FailsAt(index: Index, goal: Goal, candidate: Candidate, i: nat, asked: Goal) {
    && !AsksForCopy(goal) && !IsIdentity(goal)
    && HowMany(index.conformances, goal) == 1
    && candidate.conformance in index.conformances && IsFor(candidate.conformance, goal, candidate.substitution)
    && i < |candidate.conformance.head.requirements|
    && ProvedBefore(index, candidate, i) && Asks(candidate, i, asked)
  }

  // ---------------------------------------------------------------------------
  // What the search computes
  // ---------------------------------------------------------------------------

  lemma AsksRequired(candidate: Candidate, i: nat, goal: Goal)
    requires i < |candidate.conformance.head.requirements|
    ensures Asks(candidate, i, goal) <==> goal == RequiredGoal(candidate, i)
  {
    var r := candidate.conformance.head.requirements[i];
    InstanceIsSubstitute(r.capability, candidate.substitution, goal.capability);
    InstanceIsSubstitute(r.provider, candidate.substitution, goal.provider);
  }

  /** Matching finds exactly the instances of a declared pair. */
  lemma CoversIsFor(c: Conformance, goal: Goal, s: Substitution)
    ensures Covers(c, goal) == Some(s) <==> IsFor(c, goal, s)
  {
    InstanceIsSubstitute(c.head.provider, s, goal.provider);
    InstanceIsSubstitute(c.head.capability, s, goal.capability);
    MentionsAreParameters(c.head.provider);
    MentionsAreParameters(c.head.capability);
    if Covers(c, goal).Some? { CoversInstantiates(c, goal); }
    if IsFor(c, goal, s) {
      InferComplete(c.head.provider, goal.provider, map[], s);
      InferComplete(c.head.capability, goal.capability, Infer(c.head.provider, goal.provider, map[]).value, s);
      var found := Covers(c, goal).value;
      assert forall p :: p in found ==> Substitute(Variable(p), s) == found[p];
      assert found == s;
    }
  }

  lemma CoversHasInstance(c: Conformance, goal: Goal)
    ensures Covers(c, goal).Some? <==> HasInstance(c, goal)
  {
    if Covers(c, goal).Some? { CoversIsFor(c, goal, Covers(c, goal).value); }
    if s :| IsFor(c, goal, s) { CoversIsFor(c, goal, s); }
  }

  lemma SelectsCandidate(candidate: Candidate, proof: Proof)
    requires proof.Proved?
    ensures Selects(candidate.conformance, candidate.substitution, proof)
       <==> proof.selection == SourceOf(candidate.conformance) && proof.typeArguments == TypeArguments(candidate)
  {
    var ps, s := candidate.conformance.typeParameters, candidate.substitution;
    forall k | 0 <= k < |ps| && k < |proof.typeArguments|
      ensures IsInstance(Variable(ps[k]), s, proof.typeArguments[k]) <==> proof.typeArguments[k] == TypeArguments(candidate)[k]
    {
      InstanceIsSubstitute(Variable(ps[k]), s, proof.typeArguments[k]);
    }
  }

  /** There are as many candidates as declarations for the goal, in their order. */
  lemma {:induction false} CandidatesAreInOrder(cs: seq<Conformance>, goal: Goal)
    ensures |Candidates(cs, goal)| == HowMany(cs, goal)
    ensures Candidates(cs, goal) != [] ==>
              exists i, s :: 0 <= i < |cs| && Candidates(cs, goal)[0] == Candidate(cs[i], s) && IsFor(cs[i], goal, s)
                && forall j :: 0 <= j < i ==> !HasInstance(cs[j], goal)
    decreases |cs|
  {
    if cs != [] {
      var rest := cs[1..];
      CandidatesAreInOrder(rest, goal);
      CoversHasInstance(cs[0], goal);
      if Covers(cs[0], goal).Some? {
        CoversIsFor(cs[0], goal, Covers(cs[0], goal).value);
      } else if Candidates(rest, goal) != [] {
        var i, s :| 0 <= i < |rest| && Candidates(rest, goal)[0] == Candidate(rest[i], s) && IsFor(rest[i], goal, s)
          && forall j :: 0 <= j < i ==> !HasInstance(rest[j], goal);
        assert cs[i + 1] == rest[i];
        forall j | 0 <= j < i + 1 ensures !HasInstance(cs[j], goal) {
          if j > 0 { assert cs[j] == rest[j - 1]; }
        }
      }
    }
  }

  lemma CandidateIsFor(index: Index, goal: Goal, candidate: Candidate)
    ensures IsCandidate(index, goal, candidate)
       <==> candidate.conformance in index.conformances && IsFor(candidate.conformance, goal, candidate.substitution)
  {
    CoversIsFor(candidate.conformance, goal, candidate.substitution);
  }

  lemma {:induction false} NoneIsNone(cs: seq<Conformance>, goal: Goal)
    ensures HowMany(cs, goal) == 0 <==> forall c :: c in cs ==> !HasInstance(c, goal)
    decreases |cs|
  {
    if cs != [] {
      NoneIsNone(cs[1..], goal);
      assert forall c :: c in cs <==> c == cs[0] || c in cs[1..];
    }
  }

  /** Copy is derived exactly by the answer of the search. */
  lemma CopyIsDerived(index: Index, goal: Goal, active: seq<Goal>, proof: Proof)
    requires proof.Proved? && proof.goal == goal
    ensures DerivesCopy(index, proof) <==> proof == SearchCopy(index, goal, active)
  {
    hide Selects, HasInstance, IsFor, TypeArguments, SourceOf, Candidates;
    var matching := Candidates(index.conformances, goal);
    CandidatesAreInOrder(index.conformances, goal);
    NoneIsNone(index.conformances, goal);
    if matching != [] {
      var i, s :| 0 <= i < |index.conformances| && matching[0] == Candidate(index.conformances[i], s)
        && IsFor(index.conformances[i], goal, s) && forall j :: 0 <= j < i ==> !HasInstance(index.conformances[j], goal);
      assert IsFirstFor(index, goal, i, s);
      SelectsCandidate(matching[0], proof);
      forall j, t | IsFirstFor(index, goal, j, t) ensures j == i && t == s {
        OnlyFirst(index, goal, i, s, j, t);
      }
    }
  }

  lemma OnlyFirst(index: Index, goal: Goal, i: int, s: Substitution, j: int, t: Substitution)
    requires IsFirstFor(index, goal, i, s) && IsFirstFor(index, goal, j, t)
    ensures j == i && t == s
  {
    assert HasInstance(index.conformances[i], goal) && HasInstance(index.conformances[j], goal);
    CoversIsFor(index.conformances[i], goal, s);
    CoversIsFor(index.conformances[i], goal, t);
  }
}
