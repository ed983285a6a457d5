/** The structural conditions under which a head's requirements can only descend. */
module ConformanceTermination {
  import opened Types
  import opened TypeTerms
  import opened ConformanceHead

  datatype TerminationFailure =
    | ProviderNotStrictSubterm(requirement: Requirement)
    | IncreasingVariableOccurrences(requirement: Requirement, variable: Parameter, declared: nat, required: nat)
    | ChangedGroundArgument(requirement: Requirement, ordinal: nat)

  function Count(p: Parameter, t: Type): nat {
    match t
    case Variable(q) => if p == q then 1 else 0
    case Apply(_, arguments) => CountAll(p, arguments)
  }

  function CountAll(p: Parameter, ts: seq<Type>): nat {
    if ts == [] then 0 else Count(p, ts[0]) + CountAll(p, ts[1..])
  }

  /** One failure for every listed parameter the requirement repeats more often than the head. */
  function OccurrenceFailures(h: Head, r: Requirement, ps: seq<Parameter>): seq<TerminationFailure> {
    if ps == [] then []
    else
      var declared := CountAll(ps[0], [h.capability, h.provider]);
      var required := CountAll(ps[0], [r.capability, r.provider]);
      (if required > declared then [IncreasingVariableOccurrences(r, ps[0], declared, required)] else [])
      + OccurrenceFailures(h, r, ps[1..])
  }

  /** One failure for every closed argument of the same interface that the requirement rewrites. */
  function GroundFailures(declared: seq<Type>, required: seq<Type>, r: Requirement, ordinal: nat): seq<TerminationFailure>
    requires |declared| == |required|
    decreases |declared|
  {
    if declared == [] then []
    else
      (if Parameters(declared[0]) == {} && declared[0] != required[0] then [ChangedGroundArgument(r, ordinal)] else [])
      + GroundFailures(declared[1..], required[1..], r, ordinal + 1)
  }

  function RequirementFailures(h: Head, r: Requirement): seq<TerminationFailure> {
    (if IsStrictSubterm(r.provider, h.provider) then [] else [ProviderNotStrictSubterm(r)])
    + OccurrenceFailures(h, r, VisitAll([r.capability, r.provider], []))
    + (if IsNominal(r.capability) && IsNominal(h.capability)
          && r.capability.former == h.capability.former
          && |r.capability.arguments| == |h.capability.arguments|
       then GroundFailures(h.capability.arguments, r.capability.arguments, r, 0)
       else [])
  }

  function AllFailures(h: Head, rs: seq<Requirement>): seq<TerminationFailure> {
    if rs == [] then [] else RequirementFailures(h, rs[0]) + AllFailures(h, rs[1..])
  }

  function TerminationFailures(h: Head): seq<TerminationFailure> {
    AllFailures(h, h.requirements)
  }

  /** Every requirement descends to a strict part of the provider and brings no binder of its own. */
  ghost predicate Descends(h: Head) {
    forall i :: 0 <= i < |h.requirements| ==>
      && IsStrictSubterm(h.requirements[i].provider, h.provider)
      && Parameters(h.requirements[i].capability) <= Parameters(h.capability) + Parameters(h.provider)
  }

  // ---------------------------------------------------------------------------
  // The criterion, without the lists of failures
  // ---------------------------------------------------------------------------

  /** Both terms apply the same nominal interface to as many arguments. */
  ghost predicate SameInterface(a: Type, b: Type) {
    a.Apply? && b.Apply? && a.former.Nominal? && a.former == b.former && |a.arguments| == |b.arguments|
  }

  /** The parameters both terms of a head or requirement mention, each as often as they do. */
  ghost function BothMention(capability: Type, provider: Type): multiset<Parameter> {
    Mentions(capability) + Mentions(provider)
  }

  /**
   The requirement asks about a strict part of the provider, repeats no parameter more often than the head, and
   asking the head's own interface it leaves every closed argument as it is.
   */
  ghost predicate Decreases(h: Head, r: Requirement) {
    && LiesInside(r.provider, h.provider)
    && (forall p :: BothMention(r.capability, r.provider)[p] <= BothMention(h.capability, h.provider)[p])
    && (SameInterface(h.capability, r.capability) ==>
          forall i :: 0 <= i < |h.capability.arguments| && IsClosed(h.capability.arguments[i]) ==>
            r.capability.arguments[i] == h.capability.arguments[i])
  }

  /** The term mentions no parameter. */
  ghost predicate IsClosed(t: Type) {
    Mentions(t) == multiset{}
  }

  ghost predicate AllDecrease(h: Head) {
    forall i :: 0 <= i < |h.requirements| ==> Decreases(h, h.requirements[i])
  }

  /** What a failure says of the requirement it names. */
  ghost predicate Explains(h: Head, r: Requirement, f: TerminationFailure) {
    match f
    case ProviderNotStrictSubterm(named) => named == r && !LiesInside(r.provider, h.provider)
    case IncreasingVariableOccurrences(named, p, declared, required) =>
      && named == r && declared < required
      && declared == BothMention(h.capability, h.provider)[p] && required == BothMention(r.capability, r.provider)[p]
    case ChangedGroundArgument(named, i) =>
      && named == r && SameInterface(h.capability, r.capability) && i < |h.capability.arguments|
      && IsClosed(h.capability.arguments[i]) && r.capability.arguments[i] != h.capability.arguments[i]
  }

  lemma {:induction false} CountIsMentions(p: Parameter, t: Type)
    ensures Count(p, t) == Mentions(t)[p]
  {
    match t
    case Variable(_) =>
    case Apply(_, arguments) => CountAllIsMentions(p, arguments);
  }

  lemma {:induction false} CountAllIsMentions(p: Parameter, ts: seq<Type>)
    ensures CountAll(p, ts) == AllMentions(ts)[p]
  {
    if ts != [] {
      CountIsMentions(p, ts[0]);
      CountAllIsMentions(p, ts[1..]);
    }
  }

  lemma CountPair(p: Parameter, t: Type, u: Type)
    ensures CountAll(p, [t, u]) == BothMention(t, u)[p]
  {
    assert [t, u][1..] == [u] && [u][1..] == [];
    CountIsMentions(p, t);
    CountIsMentions(p, u);
    assert CountAll(p, [u]) == Count(p, u) + CountAll(p, [u][1..]);
  }

  lemma {:induction false} OccurrenceFailuresExactly(h: Head, r: Requirement, ps: seq<Parameter>, f: TerminationFailure)
    ensures f in OccurrenceFailures(h, r, ps)
       <==> f.IncreasingVariableOccurrences? && f.variable in ps && Explains(h, r, f)
    decreases |ps|
  {
    if ps != [] {
      CountPair(ps[0], h.capability, h.provider);
      CountPair(ps[0], r.capability, r.provider);
      OccurrenceFailuresExactly(h, r, ps[1..], f);
      assert forall p :: p in ps <==> p == ps[0] || p in ps[1..];
    }
  }

  lemma {:induction false} GroundFailuresExactly(declared: seq<Type>, required: seq<Type>, r: Requirement, ordinal: nat, f: TerminationFailure)
    requires |declared| == |required|
    ensures f in GroundFailures(declared, required, r, ordinal)
       <==> && f.ChangedGroundArgument? && f.requirement == r && ordinal <= f.ordinal < ordinal + |declared|
            && IsClosed(declared[f.ordinal - ordinal]) && declared[f.ordinal - ordinal] != required[f.ordinal - ordinal]
    decreases |declared|
  {
    if declared != [] {
      MentionsAreParameters(declared[0]);
      GroundFailuresExactly(declared[1..], required[1..], r, ordinal + 1, f);
    }
  }

  lemma RequirementFailuresExactly(h: Head, r: Requirement, f: TerminationFailure)
    ensures f in RequirementFailures(h, r) <==> Explains(h, r, f)
  {
    var terms := [r.capability, r.provider];
    StrictSubtermLiesInside(r.provider, h.provider);
    VisitAllFinds(terms, []);
    ParametersAllPair(r.capability, r.provider);
    OccurrenceFailuresExactly(h, r, VisitAll(terms, []), f);
    if f.IncreasingVariableOccurrences? {
      MentionsAreParameters(r.capability);
      MentionsAreParameters(r.provider);
      assert f.variable in VisitAll(terms, []) <==> f.variable in Members(VisitAll(terms, []));
    }
    if SameInterface(h.capability, r.capability) {
      GroundFailuresExactly(h.capability.arguments, r.capability.arguments, r, 0, f);
    }
  }

  lemma {:induction false} FailuresExactly(h: Head, rs: seq<Requirement>, f: TerminationFailure)
    ensures f in AllFailures(h, rs) <==> exists i :: 0 <= i < |rs| && Explains(h, rs[i], f)
    decreases |rs|
  {
    if rs != [] {
      hide Explains, RequirementFailures;
      RequirementFailuresExactly(h, rs[0], f);
      FailuresExactly(h, rs[1..], f);
      if i :| 0 <= i < |rs| && Explains(h, rs[i], f) {
        assert i > 0 ==> rs[1..][i - 1] == rs[i];
      }
      if i :| 0 <= i < |rs[1..]| && Explains(h, rs[1..][i], f) { assert rs[i + 1] == rs[1..][i]; }
    }
  }

  /** A requirement has some failure exactly when it does not decrease. */
  lemma NoFailureDecreases(h: Head, r: Requirement)
    ensures Decreases(h, r) <==> forall f :: !Explains(h, r, f)
  {
    if !LiesInside(r.provider, h.provider) { assert Explains(h, r, ProviderNotStrictSubterm(r)); }
    if p :| BothMention(r.capability, r.provider)[p] > BothMention(h.capability, h.provider)[p] {
      assert Explains(h, r, IncreasingVariableOccurrences(r, p, BothMention(h.capability, h.provider)[p], BothMention(r.capability, r.provider)[p]));
    }
    if SameInterface(h.capability, r.capability) {
      if i :| 0 <= i < |h.capability.arguments| && IsClosed(h.capability.arguments[i])
              && r.capability.arguments[i] != h.capability.arguments[i] {
        assert Explains(h, r, ChangedGroundArgument(r, i));
      }
    }
  }

  /** Exactly the failures that some requirement has are listed. */
  lemma FailuresAre(h: Head, f: TerminationFailure)
    ensures f in TerminationFailures(h) <==> exists i :: 0 <= i < |h.requirements| && Explains(h, h.requirements[i], f)
  {
    FailuresExactly(h, h.requirements, f);
  }

  /** A head terminates exactly when every requirement decreases. */
  lemma TerminatesExactly(h: Head)
    ensures TerminationFailures(h) == [] <==> AllDecrease(h)
  {
    hide Explains, Decreases, TerminationFailures;
    var failures := TerminationFailures(h);
    if failures == [] {
      forall i | 0 <= i < |h.requirements| ensures Decreases(h, h.requirements[i]) {
        forall f ensures !Explains(h, h.requirements[i], f) { FailuresAre(h, f); }
        NoFailureDecreases(h, h.requirements[i]);
      }
    } else {
      FailuresAre(h, failures[0]);
      var i :| 0 <= i < |h.requirements| && Explains(h, h.requirements[i], failures[0]);
      NoFailureDecreases(h, h.requirements[i]);
    }
  }

  lemma ParametersAllPair(t: Type, u: Type)
    ensures ParametersAll([t, u]) == Parameters(t) + Parameters(u)
  {
    assert [t, u][1..] == [u] && [u][1..] == [];
    assert ParametersAll([u]) == Parameters(u) + ParametersAll([u][1..]);
  }

  /** Then every requirement descends. */
  lemma DecreasingDescends(h: Head)
    requires AllDecrease(h)
    ensures Descends(h)
  {
    forall i | 0 <= i < |h.requirements|
      ensures IsStrictSubterm(h.requirements[i].provider, h.provider)
      ensures Parameters(h.requirements[i].capability) <= Parameters(h.capability) + Parameters(h.provider)
    {
      var r := h.requirements[i];
      StrictSubtermLiesInside(r.provider, h.provider);
      MentionsAreParameters(r.capability);
      MentionsAreParameters(h.capability);
      MentionsAreParameters(h.provider);
      assert forall p :: p in Parameters(r.capability) ==> BothMention(r.capability, r.provider)[p] > 0;
    }
  }

  // ---------------------------------------------------------------------------
  // Renumbering keeps the criterion
  // ---------------------------------------------------------------------------

  function Image(p: Parameter, s: Substitution): Type {
    Substitute(Variable(p), s)
  }

  /** The substitution renames the parameters, and the other reads the names back. */
  ghost predicate Renames(s: Substitution, back: Substitution, ps: set<Parameter>) {
    forall p :: p in ps ==> Image(p, s).Variable? && Substitute(Image(p, s), back) == Variable(p)
  }

  lemma {:induction false} RenamedMentions(t: Type, s: Substitution, back: Substitution, ps: set<Parameter>, p: Parameter)
    requires Renames(s, back, ps) && Parameters(t) <= ps && p in ps
    ensures Mentions(Substitute(t, s))[Image(p, s).parameter] == Mentions(t)[p]
  {
    match t
    case Variable(q) => assert Image(p, s) == Image(q, s) ==> p == q;
    case Apply(_, arguments) => RenamedAllMentions(arguments, s, back, ps, p);
  }

  lemma {:induction false} RenamedAllMentions(ts: seq<Type>, s: Substitution, back: Substitution, ps: set<Parameter>, p: Parameter)
    requires Renames(s, back, ps) && ParametersAll(ts) <= ps && p in ps
    ensures AllMentions(SubstituteAll(ts, s))[Image(p, s).parameter] == AllMentions(ts)[p]
  {
    if ts != [] {
      RenamedMentions(ts[0], s, back, ps, p);
      RenamedAllMentions(ts[1..], s, back, ps, p);
      assert SubstituteAll(ts, s)[1..] == SubstituteAll(ts[1..], s);
    }
  }

  /** Every parameter of the renamed term is the name of one. */
  lemma MentionedIsImage(t: Type, s: Substitution, back: Substitution, ps: set<Parameter>, q: Parameter) returns (p: Parameter)
    requires Renames(s, back, ps) && Parameters(t) <= ps && q in Mentions(Substitute(t, s))
    ensures p in Parameters(t) && Image(p, s) == Variable(q)
  {
    MentionsAreParameters(Substitute(t, s));
    ParametersOfSubstitute(t, s, q);
    p :| p in Parameters(t) && q in Parameters(Image(p, s));
  }

  ghost predicate Within(h: Head, r: Requirement, ps: set<Parameter>) {
    && Parameters(h.capability) <= ps && Parameters(h.provider) <= ps
    && Parameters(r.capability) <= ps && Parameters(r.provider) <= ps
  }

  ghost function Renamed(r: Requirement, s: Substitution): Requirement {
    Requirement(Substitute(r.capability, s), Substitute(r.provider, s))
  }

  lemma RenamedCounts(h: Head, r: Requirement, s: Substitution, back: Substitution, ps: set<Parameter>)
    requires Renames(s, back, ps) && Within(h, r, ps) && Decreases(h, r)
    ensures forall q :: BothMention(Substitute(r.capability, s), Substitute(r.provider, s))[q]
                     <= BothMention(Substitute(h.capability, s), Substitute(h.provider, s))[q]
  {
    forall q ensures BothMention(Substitute(r.capability, s), Substitute(r.provider, s))[q]
                  <= BothMention(Substitute(h.capability, s), Substitute(h.provider, s))[q]
    {
      if q in BothMention(Substitute(r.capability, s), Substitute(r.provider, s)) {
        var p: Parameter;
        if q in Mentions(Substitute(r.capability, s)) { p := MentionedIsImage(r.capability, s, back, ps, q); }
        else { p := MentionedIsImage(r.provider, s, back, ps, q); }
        RenamedMentions(r.capability, s, back, ps, p);
        RenamedMentions(r.provider, s, back, ps, p);
        RenamedMentions(h.capability, s, back, ps, p);
        RenamedMentions(h.provider, s, back, ps, p);
        assert BothMention(r.capability, r.provider)[p] <= BothMention(h.capability, h.provider)[p];
      }
    }
  }

  lemma RenamedIsClosed(t: Type, s: Substitution, back: Substitution, ps: set<Parameter>)
    requires Renames(s, back, ps) && Parameters(t) <= ps && IsClosed(Substitute(t, s))
    ensures IsClosed(t)
  {
    if Mentions(t) != multiset{} {
      var p :| p in Mentions(t);
      MentionsAreParameters(t);
      RenamedMentions(t, s, back, ps, p);
    }
  }

  lemma {:induction false} RenamedDecreases(h: Head, r: Requirement, s: Substitution, back: Substitution, ps: set<Parameter>)
    requires Renames(s, back, ps) && Within(h, r, ps) && Decreases(h, r)
    ensures Decreases(SubstituteHead(h, s), Renamed(r, s))
  {
    StrictSubtermLiesInside(r.provider, h.provider);
    SubtermSubstitute(r.provider, h.provider, s);
    StrictSubtermLiesInside(Substitute(r.provider, s), Substitute(h.provider, s));
    RenamedCounts(h, r, s, back, ps);
    var declared, required := Substitute(h.capability, s), Substitute(r.capability, s);
    if SameInterface(declared, required) {
      forall i | 0 <= i < |declared.arguments| && IsClosed(declared.arguments[i])
        ensures required.arguments[i] == declared.arguments[i]
      {
        RenamedArgument(h, r, s, back, ps, i);
      }
    }
  }

  lemma ImageOfVariable(t: Type, s: Substitution, back: Substitution, ps: set<Parameter>)
    requires Renames(s, back, ps) && Parameters(t) <= ps
    ensures t.Variable? <==> Substitute(t, s).Variable?
  {
    if t.Variable? { assert Substitute(t, s) == Image(t.parameter, s); }
  }

  lemma RenamedArgument(h: Head, r: Requirement, s: Substitution, back: Substitution, ps: set<Parameter>, i: nat)
    requires Renames(s, back, ps) && Within(h, r, ps) && Decreases(h, r)
    requires var declared := Substitute(h.capability, s);
             SameInterface(declared, Substitute(r.capability, s)) && i < |declared.arguments| && IsClosed(declared.arguments[i])
    ensures Substitute(r.capability, s).arguments[i] == Substitute(h.capability, s).arguments[i]
  {
    ImageOfVariable(h.capability, s, back, ps);
    ImageOfVariable(r.capability, s, back, ps);
    assert Parameters(h.capability.arguments[i]) <= Parameters(h.capability);
    RenamedIsClosed(h.capability.arguments[i], s, back, ps);
  }

  /** A head decreases exactly when its renumbering does. */
  lemma NormalDecreases(h: Head)
    ensures AllDecrease(Make(h)) <==> AllDecrease(h)
  {
    var ps := VisitAll(Terms(h), []);
    var s, back := Numbering(ps, NORMAL_OWNER), ReadBack(ps, NORMAL_OWNER);
    VisitAllFinds(Terms(h), []);
    HeadParameters(h);
    NumberedRenames(ps);
    var numbered := set p | p in Members(ps) :: Image(p, s).parameter;
    forall i | 0 <= i < |h.requirements| ensures Decreases(Make(h), Make(h).requirements[i]) <==> Decreases(h, h.requirements[i]) {
      var r := h.requirements[i];
      if Decreases(h, r) { RenamedDecreases(h, r, s, back, Members(ps)); }
      if Decreases(Make(h), Make(h).requirements[i]) {
        NumberedWithin(h, r, s, back, Members(ps), numbered);
        RenamedDecreases(Make(h), Renamed(r, s), back, s, numbered);
        NumberedReadsBack(h.capability, ps);
        NumberedReadsBack(h.provider, ps);
        NumberedReadsBack(r.capability, ps);
        NumberedReadsBack(r.provider, ps);
        DecreasesAlone(SubstituteHead(Make(h), back), h, r);
      }
    }
  }

  /** Only a head's own terms matter to one requirement. */
  lemma DecreasesAlone(g: Head, h: Head, r: Requirement)
    requires g.capability == h.capability && g.provider == h.provider
    ensures Decreases(g, r) <==> Decreases(h, r)
  {
  }

  lemma NumberedRenames(ps: seq<Parameter>)
    requires Distinct(ps)
    ensures Renames(Numbering(ps, NORMAL_OWNER), ReadBack(ps, NORMAL_OWNER), Members(ps))
  {
    NumberingAt(ps, NORMAL_OWNER);
    forall p | p in Members(ps) ensures Substitute(Image(p, Numbering(ps, NORMAL_OWNER)), ReadBack(ps, NORMAL_OWNER)) == Variable(p) {
      NumberedReadsBack(Variable(p), ps);
    }
  }

  lemma NumberedWithin(h: Head, r: Requirement, s: Substitution, back: Substitution, ps: set<Parameter>, numbered: set<Parameter>)
    requires Renames(s, back, ps) && Within(h, r, ps) && numbered == set p | p in ps :: Image(p, s).parameter
    ensures Renames(back, s, numbered) && Within(SubstituteHead(h, s), Renamed(r, s), numbered)
  {
    forall t: Type | Parameters(t) <= ps ensures Parameters(Substitute(t, s)) <= numbered {
      forall q | q in Parameters(Substitute(t, s)) ensures q in numbered {
        MentionsAreParameters(Substitute(t, s));
        var p := MentionedIsImage(t, s, back, ps, q);
      }
    }
  }

  lemma NumberedReadsBack(t: Type, ps: seq<Parameter>)
    requires Distinct(ps) && Parameters(t) <= Members(ps)
    ensures Substitute(Substitute(t, Numbering(ps, NORMAL_OWNER)), ReadBack(ps, NORMAL_OWNER)) == t
  {
    NumberAndReadBack(t, ps, ps, NORMAL_OWNER);
    BetweenIsInjective(ps, ps);
    SubstituteSame(t, Between(ps, ps));
  }
}
