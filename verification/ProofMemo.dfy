/** The memo of finished proofs, and the search that reads and extends it. */
module ProofMemo {
  import opened Wrappers
  import opened Types
  import opened ConformanceProof
  import opened ProofSearch

  /** A proof found below some active goals is found below any others that cannot recur. */
  lemma {:induction false} ProofIgnoresActive(index: Index, goal: Goal, a: seq<Goal>, b: seq<Goal>)
    requires WellFounded(index) && Above(a, goal) && Above(b, goal)
    requires Search(index, goal, a).Proved?
    ensures Search(index, goal, b) == Search(index, goal, a)
    decreases Size(goal.provider), 1, 0
  {
    assert goal !in a && goal !in b;
    if goal.capability != COPY_CAPABILITY && !(IsNominal(goal.provider) && goal.provider == goal.capability) {
      var matching := Candidates(index.conformances, goal);
      CandidateIsOnly(index, goal);
      RequirementsAnswer(index, goal, matching[0], 0, a);
      RequirementsIgnoreActive(index, goal, matching[0], 0, a, b);
    }
  }

  lemma {:induction false} RequirementsIgnoreActive(
    index: Index, goal: Goal, candidate: Candidate, i: nat, a: seq<Goal>, b: seq<Goal>)
    requires WellFounded(index) && IsCandidate(index, goal, candidate) && Above(a, goal) && Above(b, goal)
    requires SearchRequirements(index, goal, candidate, i, a).Ok?
    ensures SearchRequirements(index, goal, candidate, i, b) == SearchRequirements(index, goal, candidate, i, a)
    decreases Size(goal.provider), 0, |candidate.conformance.head.requirements| - i
  {
    if i < |candidate.conformance.head.requirements| {
      RequirementDescends(index, goal, candidate, i);
      ProofIgnoresActive(index, RequiredGoal(candidate, i), a + [goal], b + [goal]);
      RequirementsIgnoreActive(index, goal, candidate, i + 1, a, b);
    }
  }

  /** Every remembered proof is the proof the memo-free search finds. */
  ghost predicate Genuine(index: Index, memo: map<Goal, Proof>)
    requires WellFounded(index)
  {
    forall goal :: goal in memo ==> memo[goal].Proved? && Search(index, goal, []) == memo[goal]
  }

  ghost function Prefixed(proofs: seq<Proof>, r: Result<seq<Proof>, Proof>): Result<seq<Proof>, Proof> {
    if r.Err? then r else Ok(proofs + r.value)
  }

  lemma OneRequirementMore(index: Index, goal: Goal, candidate: Candidate, i: nat, active: seq<Goal>, proofs: seq<Proof>)
    requires WellFounded(index) && IsCandidate(index, goal, candidate)
    requires i < |candidate.conformance.head.requirements| && IsNominal(RequiredGoal(candidate, i).capability)
    requires Search(index, RequiredGoal(candidate, i), active + [goal]).Proved?
    ensures Prefixed(proofs, SearchRequirements(index, goal, candidate, i, active))
         == Prefixed(proofs + [Search(index, RequiredGoal(candidate, i), active + [goal])],
                     SearchRequirements(index, goal, candidate, i + 1, active))
  {
    var proof := Search(index, RequiredGoal(candidate, i), active + [goal]);
    var rest := SearchRequirements(index, goal, candidate, i + 1, active);
    if rest.Ok? { assert proofs + ([proof] + rest.value) == proofs + [proof] + rest.value; }
  }

  class Memo {
    var entries: map<Goal, Proof>

    constructor ()
      ensures entries == map[]
    {
      entries := map[];
    }

    /** Proves one goal, answering from the memo when it can and remembering what it proves. */
    method ProveGoal(index: Index, goal: Goal, active: seq<Goal>) returns (proof: Proof)
      requires WellFounded(index) && Genuine(index, entries) && Above(active, goal)
      modifies this
      ensures proof == Search(index, goal, active)
      ensures Genuine(index, entries)
      ensures forall g :: g in old(entries) ==> g in entries && entries[g] == old(entries)[g]
      ensures proof.Proved? ==> goal in entries && entries[goal] == proof
      decreases Size(goal.provider), 1, 0
    {
      if goal in entries {
        ProofIgnoresActive(index, goal, [], active);
        return entries[goal];
      }
      assert goal !in active;
      if goal.capability == COPY_CAPABILITY {
        proof := SearchCopy(index, goal, active);
      } else if IsNominal(goal.provider) && goal.provider == goal.capability {
        proof := Proved(goal, IdentitySelection, [], []);
      } else {
        var matching := Candidates(index.conformances, goal);
        if matching == [] {
          proof := Unproved(goal, MissingWitness, active);
        } else if |matching| > 1 {
          proof := Unproved(goal, AmbiguousWitness(|matching|), active);
        } else {
          CandidateIsOnly(index, goal);
          var required := ProveRequirements(index, goal, matching[0], active);
          proof := if required.Err? then required.error
          else Proved(goal, SourceOf(matching[0].conformance), TypeArguments(matching[0]), required.value);
          RequirementsAnswer(index, goal, matching[0], 0, active);
        }
      }
      if proof.Proved? {
        ProofIgnoresActive(index, goal, active, []);
        entries := entries[goal := proof];
      }
    }

    /** Proves the requirements of a selected conformance in order, stopping at the first failure. */
    method ProveRequirements(index: Index, goal: Goal, candidate: Candidate, active: seq<Goal>)
      returns (r: Result<seq<Proof>, Proof>)
      requires WellFounded(index) && Genuine(index, entries) && Above(active, goal)
      requires IsCandidate(index, goal, candidate)
      modifies this
      ensures r == SearchRequirements(index, goal, candidate, 0, active)
      ensures Genuine(index, entries)
      ensures forall g :: g in old(entries) ==> g in entries && entries[g] == old(entries)[g]
      decreases Size(goal.provider), 0, 0
    {
      var proofs: seq<Proof> := [];
      ghost var whole := SearchRequirements(index, goal, candidate, 0, active);
      if whole.Ok? { assert [] + whole.value == whole.value; }
      var i := 0;
      while i < |candidate.conformance.head.requirements|
        invariant 0 <= i <= |candidate.conformance.head.requirements|
        invariant Genuine(index, entries)
        invariant forall g :: g in old(entries) ==> g in entries && entries[g] == old(entries)[g]
        invariant whole == Prefixed(proofs, SearchRequirements(index, goal, candidate, i, active))
      {
        var required := RequiredGoal(candidate, i);
        if !IsNominal(required.capability) { return Err(Unproved(goal, UnavailableWitness, active)); }
        RequirementDescends(index, goal, candidate, i);
        var proof := ProveGoal(index, required, active + [goal]);
        if proof.Unproved? { return Err(proof); }
        OneRequirementMore(index, goal, candidate, i, active, proofs);
        proofs := proofs + [proof];
        i := i + 1;
      }
      assert proofs + [] == proofs;
      return Ok(proofs);
    }
  }

  /** Proves one concrete goal from any memo of genuine proofs. */
  method Prove(index: Index, provider: Type, capability: Type, memo: Memo) returns (proof: Proof)
    requires WellFounded(index) && Genuine(index, memo.entries)
    modifies memo
    ensures proof == Search(index, Goal(capability, provider), [])
    ensures Genuine(index, memo.entries)
    ensures Answers(index, Goal(capability, provider), [], proof)
  {
    SearchAnswers(index, Goal(capability, provider), []);
    proof := memo.ProveGoal(index, Goal(capability, provider), []);
  }
}
