/**
 What the proof search guarantees: at most one candidate under coherence, no cycle, bounded
 depth, answers that are exactly the derivable goals, and a memo nobody can observe.
 */
module ProofSearch {
  import opened Wrappers
  import opened Types
  import opened ConformanceHead
  import opened ConformanceTermination
  import opened Overlap
  import opened ConformanceProof
  import opened ConformanceDerivation

  // ---------------------------------------------------------------------------
  // Admission
  // ---------------------------------------------------------------------------

  /** No two coherent conformances overlap. */
  ghost predicate Coherent(cs: seq<Conformance>) {
    forall i, j :: 0 <= i < j < |cs| && cs[i].coherent && cs[j].coherent ==> !Overlaps(cs[i].head, cs[j].head)
  }

  /**
   Admission judges only whole declarations of nominal capabilities, and an interface or service only where the
   module that owns a nominal provider implements it; `contracts` are the interfaces and services.
   */
  predicate Judged(c: Conformance, contracts: set<Former>) {
    var capability, provider := c.head.capability, c.head.provider;
    IsNominal(capability) && !c.damaged
    && (capability.former in contracts && IsNominal(provider) ==> provider.former.path == c.path)
  }

  /** A whole declaration of an interface, by the module that must make it where the interface or service says so. */
  ghost predicate IsOwnDeclaration(c: Conformance, contracts: set<Former>) {
    && NamesInterface(c.head.capability) && !c.damaged
    && !(NamesInterface(c.head.provider) && c.head.capability.former in contracts && c.head.provider.former.path != c.path)
  }

  /** The admission flags say what they claim about the declared heads; what is not judged is neither. */
  ghost predicate Admitted(cs: seq<Conformance>, declared: seq<Conformance>, contracts: set<Former>) {
    && |cs| == |declared|
    && (forall i :: 0 <= i < |cs| ==> cs[i] == declared[i].(coherent := cs[i].coherent, terminating := cs[i].terminating))
    && (forall i :: 0 <= i < |cs| ==>
          (cs[i].terminating <==> IsOwnDeclaration(cs[i], contracts) && AllDecrease(cs[i].head)))
    && (forall i :: 0 <= i < |cs| ==>
          (cs[i].coherent <==> IsOwnDeclaration(cs[i], contracts) && forall j :: 0 <= j < i && cs[j].coherent ==> !Overlaps(cs[j].head, cs[i].head)))
  }

  /** Some accepted head before overlaps the declared one. */
  ghost predicate OverlapsEarlier(cs: seq<Conformance>, h: Head) {
    exists j :: 0 <= j < |cs| && cs[j].coherent && Overlaps(cs[j].head, h)
  }

  /** Looks for an accepted head that overlaps the new one. */
  method FindOverlapping(cs: seq<Conformance>, h: Head) returns (overlapping: bool)
    ensures overlapping <==> OverlapsEarlier(cs, h)
  {
    var head := Make(h);
    for k := 0 to |cs|
      invariant forall j :: 0 <= j < k && cs[j].coherent ==> !Overlaps(cs[j].head, h)
    {
      if cs[k].coherent {
        MadeIsOwned(cs[k].head, NORMAL_OWNER);
        OverlapIsAlphaInvariant(cs[k].head, h);
        overlapping := MayOverlap(Make(cs[k].head), head);
        if overlapping { return true; }
      }
    }
    return false;
  }

  /** Flags declared conformances in order, comparing each judged head with the heads accepted before it. */
  method AdmitConformances(declared: seq<Conformance>, contracts: set<Former>) returns (cs: seq<Conformance>)
    ensures Admitted(cs, declared, contracts)
    ensures Coherent(cs)
    ensures forall i :: 0 <= i < |cs| && cs[i].terminating ==> Descends(cs[i].head)
  {
    cs := [];
    for n := 0 to |declared|
      invariant |cs| == n && Admitted(cs, declared[..n], contracts)
    {
      var c := declared[n].(coherent := false, terminating := false);
      if Judged(declared[n], contracts) {
        var failures := TerminationFailures(Make(declared[n].head));
        TerminatesExactly(Make(declared[n].head));
        NormalDecreases(declared[n].head);
        var overlapping := FindOverlapping(cs, declared[n].head);
        c := declared[n].(coherent := !overlapping, terminating := failures == []);
      }
      AdmittedAppend(cs, declared[..n], contracts, declared[n], c);
      assert declared[..n + 1] == declared[..n] + [declared[n]];
      cs := cs + [c];
    }
    assert declared[..|declared|] == declared;
    forall i | 0 <= i < |cs| && cs[i].terminating ensures Descends(cs[i].head) {
      DecreasingDescends(cs[i].head);
    }
  }

  lemma AdmittedAppend(cs: seq<Conformance>, declared: seq<Conformance>, contracts: set<Former>, d: Conformance, c: Conformance)
    requires Admitted(cs, declared, contracts)
    requires c == d.(coherent := IsOwnDeclaration(d, contracts) && !OverlapsEarlier(cs, d.head),
                     terminating := IsOwnDeclaration(d, contracts) && AllDecrease(d.head))
    ensures Admitted(cs + [c], declared + [d], contracts)
  {
    var all := cs + [c];
    assert forall i :: 0 <= i < |cs| ==> all[i] == cs[i];
    assert all[|cs|] == c;
  }

  // ---------------------------------------------------------------------------
  // Uniqueness of candidates
  // ---------------------------------------------------------------------------

  lemma CoveringHeadsOverlap(c: Conformance, d: Conformance, goal: Goal)
    requires Covers(c, goal).Some? && Covers(d, goal).Some?
    ensures Overlaps(c.head, d.head)
  {
    CoversInstantiates(c, goal);
    CoversInstantiates(d, goal);
    assert SameInstance(c.head, Covers(c, goal).value, d.head, Covers(d, goal).value);
  }

  lemma {:induction false} NoneCovers(cs: seq<Conformance>, goal: Goal)
    requires forall i :: 0 <= i < |cs| ==> Covers(cs[i], goal).None?
    ensures Candidates(cs, goal) == []
  {
    if cs != [] { NoneCovers(cs[1..], goal); }
  }

  /** Coherence gives uniqueness: no goal has two candidates. */
  lemma {:induction false} AtMostOneCandidate(cs: seq<Conformance>, goal: Goal)
    requires Coherent(cs)
    ensures |Candidates(cs, goal)| <= 1
  {
    if cs != [] {
      var rest := cs[1..];
      assert forall i :: 0 <= i < |rest| ==> rest[i] == cs[i + 1];
      if Covers(cs[0], goal).Some? {
        forall i | 0 <= i < |rest| ensures Covers(rest[i], goal).None? {
          if Covers(rest[i], goal).Some? { CoveringHeadsOverlap(cs[0], rest[i], goal); }
        }
        NoneCovers(rest, goal);
      } else {
        AtMostOneCandidate(rest, goal);
      }
    }
  }

  // ---------------------------------------------------------------------------
  // Depth, cycles, ambiguity
  // ---------------------------------------------------------------------------

  /** Every active goal asks about a bigger provider, so none of them is asked again below. */
  ghost predicate Above(active: seq<Goal>, goal: Goal) {
    forall i :: 0 <= i < |active| ==> Size(active[i].provider) > Size(goal.provider)
  }

  ghost function Height(proof: Proof): nat {
    match proof
    case Unproved(_, _, _) => 0
    case Proved(_, _, _, requirements) => 1 + HeightAll(requirements)
  }

  ghost function HeightAll(proofs: seq<Proof>): nat {
    if proofs == [] then 0
    else
      var first, rest := Height(proofs[0]), HeightAll(proofs[1..]);
      if first > rest then first else rest
  }

  /** What every answer of the search satisfies. */
  ghost predicate Answers(index: Index, goal: Goal, active: seq<Goal>, proof: Proof) {
    match proof
    case Proved(g, _, _, _) => g == goal && Height(proof) <= Depth(goal.provider) && Derives(index, proof)
    case Unproved(_, failure, trace) =>
      && Fails(index, goal, active, proof) && |active| <= |trace|
      && !failure.ActiveCycle? && (Coherent(index.conformances) ==> !failure.AmbiguousWitness?)
  }

  ghost predicate ProvesFrom(index: Index, candidate: Candidate, i: nat, proofs: seq<Proof>) {
    && i + |proofs| == |candidate.conformance.head.requirements|
    && forall k :: 0 <= k < |proofs| ==> ProvesRequirement(index, candidate, i + k, proofs[k])
  }

  lemma ProvesOneMore(index: Index, candidate: Candidate, i: nat, proof: Proof, rest: seq<Proof>)
    requires ProvesFrom(index, candidate, i + 1, rest) && ProvesRequirement(index, candidate, i, proof)
    ensures ProvesFrom(index, candidate, i, [proof] + rest)
  {
  }

  lemma {:induction false} SearchAnswers(index: Index, goal: Goal, active: seq<Goal>)
    requires WellFounded(index) && Above(active, goal)
    ensures Answers(index, goal, active, Search(index, goal, active))
    decreases Size(goal.provider), 1, 0
  {
    assert goal !in active;
    var proof := Search(index, goal, active);
    if AsksForCopy(goal) {
      if proof.Proved? { CopyIsDerived(index, goal, active, proof); } else { assert IsStuck(index, goal, proof.failure); }
    } else if !IsIdentity(goal) {
      var matching := Candidates(index.conformances, goal);
      CandidatesAreInOrder(index.conformances, goal);
      if Coherent(index.conformances) { AtMostOneCandidate(index.conformances, goal); }
      if |matching| == 1 {
        CandidateIsOnly(index, goal);
        CandidateIsFor(index, goal, matching[0]);
        RequirementsAnswer(index, goal, matching[0], 0, active);
        if proof.Proved? {
          SelectsCandidate(matching[0], proof);
          assert Justifies(index, matching[0], proof);
        }
      } else {
        assert IsStuck(index, goal, proof.failure);
      }
    }
  }

  /** The candidate is the one declaration of a goal that is neither of Copy nor its own witness. */
  ghost predicate IsOnlyCandidate(index: Index, goal: Goal, candidate: Candidate) {
    && !AsksForCopy(goal) && !IsIdentity(goal)
    && HowMany(index.conformances, goal) == 1 && IsCandidate(index, goal, candidate)
  }

  lemma CandidateIsOnly(index: Index, goal: Goal)
    requires goal.capability != COPY_CAPABILITY && !(IsNominal(goal.provider) && goal.provider == goal.capability)
    requires |Candidates(index.conformances, goal)| == 1
    ensures IsOnlyCandidate(index, goal, Candidates(index.conformances, goal)[0])
  {
    CandidatesAreInOrder(index.conformances, goal);
    CandidatesAreCandidates(index, index.conformances, goal, 0);
  }

  lemma {:induction false} RequirementsAnswer(index: Index, goal: Goal, candidate: Candidate, i: nat, active: seq<Goal>)
    requires WellFounded(index) && IsOnlyCandidate(index, goal, candidate) && Above(active, goal)
    requires ProvedBefore(index, candidate, i)
    ensures match SearchRequirements(index, goal, candidate, i, active)
            case Err(proof) => proof.Unproved? && Answers(index, goal, active, proof)
            case Ok(proofs) =>
              && HeightAll(proofs) < Depth(goal.provider)
              && ProvesFrom(index, candidate, i, proofs)
    decreases Size(goal.provider), 0, |candidate.conformance.head.requirements| - i
  {
    if i < |candidate.conformance.head.requirements| {
      var required := RequiredGoal(candidate, i);
      AsksRequired(candidate, i, required);
      CandidateIsFor(index, goal, candidate);
      assert FailsAt(index, goal, candidate, i, required);
      if IsNominal(required.capability) {
        RequirementDescends(index, goal, candidate, i);
        SearchAnswers(index, required, active + [goal]);
        var proof := Search(index, required, active + [goal]);
        if proof.Proved? {
          assert ProvesRequirement(index, candidate, i, proof);
          RequirementsAnswer(index, goal, candidate, i + 1, active);
          var rest := SearchRequirements(index, goal, candidate, i + 1, active);
          if rest.Ok? {
            var proofs := [proof] + rest.value;
            assert proofs[1..] == rest.value;
            assert SearchRequirements(index, goal, candidate, i, active) == Ok(proofs);
            ProvesOneMore(index, candidate, i, proof, rest.value);
          } else {
            assert SearchRequirements(index, goal, candidate, i, active) == rest;
          }
        } else {
          assert SearchRequirements(index, goal, candidate, i, active) == Err(proof);
        }
      }
    }
  }

  /** The cycle guard never fires: a goal asked at top level never meets itself. */
  lemma NoActiveCycle(index: Index, goal: Goal)
    requires WellFounded(index)
    ensures var proof := Search(index, goal, []);
            && (proof.Unproved? ==> !proof.failure.ActiveCycle?)
            && (proof.Proved? ==> Height(proof) <= Depth(goal.provider))
            && (Coherent(index.conformances) && proof.Unproved? ==> !proof.failure.AmbiguousWitness?)
  {
    SearchAnswers(index, goal, []);
  }

  // ---------------------------------------------------------------------------
  // The search finds every derivation
  // ---------------------------------------------------------------------------

  lemma {:induction false} CandidateIsListed(cs: seq<Conformance>, goal: Goal, c: Conformance, s: Substitution) returns (i: nat)
    requires c in cs && Covers(c, goal) == Some(s)
    ensures i < |Candidates(cs, goal)| && Candidates(cs, goal)[i] == Candidate(c, s)
  {
    if cs[0] == c { i := 0; }
    else {
      i := CandidateIsListed(cs[1..], goal, c, s);
      if Covers(cs[0], goal).Some? { i := i + 1; }
    }
  }

  lemma {:induction false} DerivationIsFound(index: Index, proof: Proof, active: seq<Goal>)
    requires WellFounded(index) && Coherent(index.conformances) && Derives(index, proof) && Above(active, proof.goal)
    ensures Search(index, proof.goal, active) == proof
    decreases Size(proof.goal.provider), 1, 0
  {
    var goal := proof.goal;
    assert goal !in active;
    if AsksForCopy(goal) {
      CopyIsDerived(index, goal, active, proof);
    } else if !IsIdentity(goal) {
      hide Search, SearchRequirements, Derives, Justifies, Selects, IsFor, Coherent, Candidates;
      var candidate := DerivedByCandidate(index, proof);
      AtMostOneCandidate(index.conformances, goal);
      RequirementsAreFound(index, candidate, proof, 0, active);
      assert proof.requirements[0..] == proof.requirements;
      OnlyCandidateIsSearched(index, goal, candidate, active);
    }
  }

  lemma DerivedByCandidate(index: Index, proof: Proof) returns (candidate: Candidate)
    requires Derives(index, proof) && !AsksForCopy(proof.goal) && !IsIdentity(proof.goal)
    ensures Justifies(index, candidate, proof) && IsCandidate(index, proof.goal, candidate)
    ensures candidate in Candidates(index.conformances, proof.goal)
    ensures proof == Proved(proof.goal, SourceOf(candidate.conformance), TypeArguments(candidate), proof.requirements)
  {
    candidate :| Justifies(index, candidate, proof);
    CandidateIsFor(index, proof.goal, candidate);
    SelectsCandidate(candidate, proof);
    var i := CandidateIsListed(index.conformances, proof.goal, candidate.conformance, candidate.substitution);
  }

  lemma OnlyCandidateIsSearched(index: Index, goal: Goal, candidate: Candidate, active: seq<Goal>)
    requires WellFounded(index) && goal !in active && !AsksForCopy(goal) && !IsIdentity(goal)
    requires IsCandidate(index, goal, candidate) && Candidates(index.conformances, goal) == [candidate]
    requires SearchRequirements(index, goal, candidate, 0, active).Ok?
    ensures Search(index, goal, active)
         == Proved(goal, SourceOf(candidate.conformance), TypeArguments(candidate), SearchRequirements(index, goal, candidate, 0, active).value)
  {
    hide SearchRequirements, Candidates, SourceOf, TypeArguments;
  }

  lemma {:induction false} RequirementsAreFound(index: Index, candidate: Candidate, proof: Proof, i: nat, active: seq<Goal>)
    requires WellFounded(index) && Coherent(index.conformances) && proof.Proved?
    requires IsCandidate(index, proof.goal, candidate) && Justifies(index, candidate, proof) && Above(active, proof.goal)
    requires i <= |proof.requirements|
    ensures SearchRequirements(index, proof.goal, candidate, i, active) == Ok(proof.requirements[i..])
    decreases Size(proof.goal.provider), 0, |proof.requirements| - i
  {
    if i < |proof.requirements| {
      RequirementDescends(index, proof.goal, candidate, i);
      var required := proof.requirements[i];
      assert ProvesRequirement(index, candidate, i, required);
      AsksRequired(candidate, i, required.goal);
      DerivationIsFound(index, required, active + [proof.goal]);
      RequirementsAreFound(index, candidate, proof, i + 1, active);
      assert proof.requirements[i..] == [required] + proof.requirements[i + 1..];
    } else {
      assert proof.requirements[i..] == [];
    }
  }

  /** Under coherence the search proves exactly the derivable goals, by their one derivation. */
  lemma SearchIsExact(index: Index, goal: Goal, proof: Proof)
    requires WellFounded(index) && Coherent(index.conformances)
    ensures proof.Proved? ==>
              (Search(index, goal, []) == proof <==> Derives(index, proof) && proof.goal == goal)
  {
    SearchAnswers(index, goal, []);
    if proof.Proved? && Derives(index, proof) && proof.goal == goal { DerivationIsFound(index, proof, []); }
  }
}
