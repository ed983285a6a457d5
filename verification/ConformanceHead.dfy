/**
 Alpha-normalised conformance heads: binders renumbered by first occurrence, the identity of a
 head, and the structural conditions under which its requirements descend.
 */
module ConformanceHead {
  import opened Types

  const NORMAL_OWNER := Owner("", "impl")
  const OPPOSING_OWNER := Owner("", "impl~")

  datatype Requirement = Requirement(capability: Type, provider: Type)

  /** The pair a declaration writes as a capability for a provider, with what it requires. */
  datatype Head = Head(capability: Type, provider: Type, requirements: seq<Requirement>)

  // ---------------------------------------------------------------------------
  // Renumbering
  // ---------------------------------------------------------------------------

  /** Appends the parameters of a term in first-occurrence order. */
  function Visit(t: Type, found: seq<Parameter>): seq<Parameter> {
    match t
    case Variable(p) => if p in found then found else found + [p]
    case Apply(_, arguments) => VisitAll(arguments, found)
  }

  function VisitAll(ts: seq<Type>, found: seq<Parameter>): seq<Parameter> {
    if ts == [] then found else VisitAll(ts[1..], Visit(ts[0], found))
  }

  /** The terms of a head in the order they are numbered: its own terms, then its requirements. */
  function Terms(h: Head): seq<Type> {
    [h.capability, h.provider] + RequirementTerms(h.requirements)
  }

  function RequirementTerms(rs: seq<Requirement>): seq<Type> {
    if rs == [] then [] else [rs[0].capability, rs[0].provider] + RequirementTerms(rs[1..])
  }

  /** Maps each listed parameter to its position under an owner. */
  function Numbering(ps: seq<Parameter>, owner: Owner): Substitution {
    if ps == [] then map[]
    else Numbering(ps[..|ps| - 1], owner)[ps[|ps| - 1] := Variable(Parameter(owner, |ps| - 1))]
  }

  function SubstituteHead(h: Head, s: Substitution): Head {
    Head(Substitute(h.capability, s), Substitute(h.provider, s), SubstituteRequirements(h.requirements, s))
  }

  function SubstituteRequirements(rs: seq<Requirement>, s: Substitution): (r: seq<Requirement>)
    ensures |r| == |rs|
    ensures forall i :: 0 <= i < |rs| ==>
              r[i] == Requirement(Substitute(rs[i].capability, s), Substitute(rs[i].provider, s))
  {
    if rs == [] then []
    else [Requirement(Substitute(rs[0].capability, s), Substitute(rs[0].provider, s))] + SubstituteRequirements(rs[1..], s)
  }

  function MakeUnder(h: Head, owner: Owner): Head {
    SubstituteHead(h, Numbering(VisitAll(Terms(h), []), owner))
  }

  function Make(h: Head): Head {
    MakeUnder(h, NORMAL_OWNER)
  }

  /** The identity of a head: its own two terms, with no requirement consulted. */
  function Key(h: Head): (Type, Type) {
    (h.capability, h.provider)
  }

  // ---------------------------------------------------------------------------
  // Renamings
  // ---------------------------------------------------------------------------

  type Renaming = map<Parameter, Parameter>

  ghost predicate Injective(rho: Renaming) {
    forall p, q :: p in rho && q in rho && rho[p] == rho[q] ==> p == q
  }

  ghost function AsSubstitution(rho: Renaming): Substitution {
    map p | p in rho :: Variable(rho[p])
  }

  ghost function RenameHead(h: Head, rho: Renaming): Head {
    SubstituteHead(h, AsSubstitution(rho))
  }

  ghost function RenameEach(ps: seq<Parameter>, rho: Renaming): seq<Parameter>
    requires forall i :: 0 <= i < |ps| ==> ps[i] in rho
  {
    seq(|ps|, i requires 0 <= i < |ps| => rho[ps[i]])
  }

  ghost predicate Distinct(ps: seq<Parameter>) {
    forall i, j :: 0 <= j < i < |ps| ==> ps[j] != ps[i]
  }

  /** The members of a list of parameters. */
  ghost function Members(ps: seq<Parameter>): set<Parameter> {
    set i | 0 <= i < |ps| :: ps[i]
  }

  // ---------------------------------------------------------------------------
  // First-occurrence order
  // ---------------------------------------------------------------------------

  lemma {:induction false} VisitFinds(t: Type, found: seq<Parameter>)
    requires Distinct(found)
    ensures var r := Visit(t, found);
            found <= r && Distinct(r) && Members(r) == Members(found) + Parameters(t)
  {
    match t
    case Variable(p) =>
      if p !in found {
        var r := found + [p];
        assert r[|found|] == p;
        assert forall i :: 0 <= i < |found| ==> r[i] == found[i];
      }
    case Apply(_, arguments) => VisitAllFinds(arguments, found);
  }

  lemma {:induction false} VisitAllFinds(ts: seq<Type>, found: seq<Parameter>)
    requires Distinct(found)
    ensures var r := VisitAll(ts, found);
            found <= r && Distinct(r) && Members(r) == Members(found) + ParametersAll(ts)
  {
    if ts != [] {
      VisitFinds(ts[0], found);
      VisitAllFinds(ts[1..], Visit(ts[0], found));
    }
  }

  lemma RenameEachContains(ps: seq<Parameter>, rho: Renaming, p: Parameter)
    requires Injective(rho) && Members(ps) <= rho.Keys && p in rho
    ensures p in ps <==> rho[p] in RenameEach(ps, rho)
  {
    if p in ps {
      var i :| 0 <= i < |ps| && ps[i] == p;
      assert RenameEach(ps, rho)[i] == rho[p];
    }
  }

  lemma {:induction false} VisitRename(t: Type, found: seq<Parameter>, rho: Renaming)
    requires Injective(rho) && Distinct(found) && Members(found) + Parameters(t) <= rho.Keys
    ensures Members(Visit(t, found)) <= rho.Keys
    ensures Visit(Substitute(t, AsSubstitution(rho)), RenameEach(found, rho)) == RenameEach(Visit(t, found), rho)
  {
    VisitFinds(t, found);
    match t
    case Variable(p) =>
      RenameEachContains(found, rho, p);
    case Apply(_, arguments) => VisitAllRename(arguments, found, rho);
  }

  lemma {:induction false} VisitAllRename(ts: seq<Type>, found: seq<Parameter>, rho: Renaming)
    requires Injective(rho) && Distinct(found) && Members(found) + ParametersAll(ts) <= rho.Keys
    ensures Members(VisitAll(ts, found)) <= rho.Keys
    ensures VisitAll(SubstituteAll(ts, AsSubstitution(rho)), RenameEach(found, rho)) == RenameEach(VisitAll(ts, found), rho)
  {
    if ts != [] {
      VisitFinds(ts[0], found);
      VisitRename(ts[0], found, rho);
      VisitAllRename(ts[1..], Visit(ts[0], found), rho);
      assert SubstituteAll(ts, AsSubstitution(rho))[1..] == SubstituteAll(ts[1..], AsSubstitution(rho));
    }
  }

  lemma {:induction false} VisitAllAppend(xs: seq<Type>, ys: seq<Type>, found: seq<Parameter>)
    ensures VisitAll(xs + ys, found) == VisitAll(ys, VisitAll(xs, found))
  {
    if xs == [] {
      assert xs + ys == ys;
    } else {
      VisitAllAppend(xs[1..], ys, Visit(xs[0], found));
      assert (xs + ys)[1..] == xs[1..] + ys;
    }
  }

  // ---------------------------------------------------------------------------
  // Numberings
  // ---------------------------------------------------------------------------

  lemma {:induction false} NumberingAt(ps: seq<Parameter>, owner: Owner)
    requires Distinct(ps)
    ensures Numbering(ps, owner).Keys == Members(ps)
    ensures forall i :: 0 <= i < |ps| ==> Numbering(ps, owner)[ps[i]] == Variable(Parameter(owner, i))
  {
    if ps != [] {
      var front := ps[..|ps| - 1];
      NumberingAt(front, owner);
      assert forall i :: 0 <= i < |front| ==> ps[i] == front[i];
      assert Members(ps) == Members(front) + {ps[|ps| - 1]};
    }
  }

  lemma {:induction false} SubstituteCompose(t: Type, a: Substitution, b: Substitution, c: Substitution)
    requires forall p :: p in Parameters(t) ==> Substitute(Substitute(Variable(p), a), b) == Substitute(Variable(p), c)
    ensures Substitute(Substitute(t, a), b) == Substitute(t, c)
  {
    match t
    case Variable(_) =>
    case Apply(_, arguments) =>
      forall i | 0 <= i < |arguments|
        ensures SubstituteAll(SubstituteAll(arguments, a), b)[i] == SubstituteAll(arguments, c)[i]
      {
        SubstituteCompose(arguments[i], a, b, c);
      }
  }

  /** Numbering a renamed list after renaming is numbering the list. */
  lemma NumberingRename(t: Type, ps: seq<Parameter>, rho: Renaming, owner: Owner)
    requires Injective(rho) && Distinct(ps) && Members(ps) <= rho.Keys && Parameters(t) <= Members(ps)
    ensures Distinct(RenameEach(ps, rho))
    ensures Substitute(Substitute(t, AsSubstitution(rho)), Numbering(RenameEach(ps, rho), owner))
         == Substitute(t, Numbering(ps, owner))
  {
    NumberingAt(ps, owner);
    NumberingAt(RenameEach(ps, rho), owner);
    forall p | p in Parameters(t)
      ensures Substitute(Substitute(Variable(p), AsSubstitution(rho)), Numbering(RenameEach(ps, rho), owner))
           == Substitute(Variable(p), Numbering(ps, owner))
    {
      var i :| 0 <= i < |ps| && ps[i] == p;
      assert RenameEach(ps, rho)[i] == rho[p];
    }
    SubstituteCompose(t, AsSubstitution(rho), Numbering(RenameEach(ps, rho), owner), Numbering(ps, owner));
  }

  // ---------------------------------------------------------------------------
  // Heads
  // ---------------------------------------------------------------------------

  lemma {:induction false} RequirementTermsSubstitute(rs: seq<Requirement>, s: Substitution)
    ensures RequirementTerms(SubstituteRequirements(rs, s)) == SubstituteAll(RequirementTerms(rs), s)
  {
    if rs != [] {
      RequirementTermsSubstitute(rs[1..], s);
      SubstituteAllAppend([rs[0].capability, rs[0].provider], RequirementTerms(rs[1..]), s);
      assert SubstituteRequirements(rs, s)[1..] == SubstituteRequirements(rs[1..], s);
    }
  }

  lemma SubstituteAllAppend(xs: seq<Type>, ys: seq<Type>, s: Substitution)
    ensures SubstituteAll(xs + ys, s) == SubstituteAll(xs, s) + SubstituteAll(ys, s)
  {
  }

  lemma TermsSubstitute(h: Head, s: Substitution)
    ensures Terms(SubstituteHead(h, s)) == SubstituteAll(Terms(h), s)
  {
    RequirementTermsSubstitute(h.requirements, s);
    SubstituteAllAppend([h.capability, h.provider], RequirementTerms(h.requirements), s);
  }

  lemma {:induction false} RequirementAmongTerms(rs: seq<Requirement>, i: nat)
    requires i < |rs|
    ensures Parameters(rs[i].capability) <= ParametersAll(RequirementTerms(rs))
    ensures Parameters(rs[i].provider) <= ParametersAll(RequirementTerms(rs))
  {
    var ts := RequirementTerms(rs);
    assert ts[0] == rs[0].capability && ts[1] == rs[0].provider && ts[2..] == RequirementTerms(rs[1..]);
    assert ParametersAll(ts) == Parameters(ts[0]) + ParametersAll(ts[1..]);
    assert ts[1..][1..] == ts[2..];
    if i > 0 { RequirementAmongTerms(rs[1..], i - 1); }
  }

  lemma HeadParameters(h: Head)
    ensures Parameters(h.capability) <= ParametersAll(Terms(h))
    ensures Parameters(h.provider) <= ParametersAll(Terms(h))
    ensures forall i :: 0 <= i < |h.requirements| ==>
              Parameters(h.requirements[i].capability) <= ParametersAll(Terms(h))
              && Parameters(h.requirements[i].provider) <= ParametersAll(Terms(h))
  {
    var ts := Terms(h);
    assert ts[0] == h.capability && ts[1] == h.provider && ts[2..] == RequirementTerms(h.requirements);
    assert ts[1..][1..] == ts[2..];
    forall i | 0 <= i < |h.requirements|
      ensures Parameters(h.requirements[i].capability) <= ParametersAll(ts)
              && Parameters(h.requirements[i].provider) <= ParametersAll(ts)
    {
      RequirementAmongTerms(h.requirements, i);
    }
  }

  /** Spelling and declaration order of binders are provenance: any injective renaming gives one normal form. */
  lemma MakeIsAlphaInvariant(h: Head, rho: Renaming, owner: Owner)
    requires Injective(rho) && ParametersAll(Terms(h)) <= rho.Keys
    ensures MakeUnder(RenameHead(h, rho), owner) == MakeUnder(h, owner)
  {
    var ps := VisitAll(Terms(h), []);
    VisitAllFinds(Terms(h), []);
    VisitAllRename(Terms(h), [], rho);
    TermsSubstitute(h, AsSubstitution(rho));
    assert RenameEach([], rho) == [];
    assert VisitAll(Terms(RenameHead(h, rho)), []) == RenameEach(ps, rho);
    HeadParameters(h);
    NumberingRename(h.capability, ps, rho, owner);
    NumberingRename(h.provider, ps, rho, owner);
    forall i | 0 <= i < |h.requirements|
      ensures MakeUnder(RenameHead(h, rho), owner).requirements[i] == MakeUnder(h, owner).requirements[i]
    {
      NumberingRename(h.requirements[i].capability, ps, rho, owner);
      NumberingRename(h.requirements[i].provider, ps, rho, owner);
    }
  }

  /** The renaming between two equally long lists of distinct parameters. */
  ghost function Between(ps: seq<Parameter>, qs: seq<Parameter>): Renaming
    requires |ps| == |qs| && Distinct(ps)
  {
    map p | p in Members(ps) :: var i :| 0 <= i < |ps| && ps[i] == p; qs[i]
  }

  lemma BetweenIsInjective(ps: seq<Parameter>, qs: seq<Parameter>)
    requires |ps| == |qs| && Distinct(ps) && Distinct(qs)
    ensures Injective(Between(ps, qs))
    ensures Between(ps, qs).Keys == Members(ps)
    ensures forall i :: 0 <= i < |ps| ==> ps[i] in Between(ps, qs) && Between(ps, qs)[ps[i]] == qs[i]
  {
    var rho := Between(ps, qs);
    forall i | 0 <= i < |ps| ensures ps[i] in rho && rho[ps[i]] == qs[i] {
      assert ps[i] in Members(ps);
    }
    forall p, q | p in rho && q in rho && rho[p] == rho[q] ensures p == q {
      var i :| 0 <= i < |ps| && ps[i] == p;
      var j :| 0 <= j < |ps| && ps[j] == q;
      assert qs[i] == qs[j];
    }
  }

  ghost function Positions(n: nat, owner: Owner): (r: seq<Parameter>)
    ensures Distinct(r)
  {
    seq(n, i requires 0 <= i < n => Parameter(owner, i))
  }

  /** A numbering is an injective renaming. */
  lemma NumberingIsRenaming(ps: seq<Parameter>, owner: Owner)
    requires Distinct(ps)
    ensures Numbering(ps, owner) == AsSubstitution(Between(ps, Positions(|ps|, owner)))
  {
    NumberingAt(ps, owner);
    BetweenIsInjective(ps, Positions(|ps|, owner));
    var m, rho := Numbering(ps, owner), Between(ps, Positions(|ps|, owner));
    forall p | p in m ensures m[p] == AsSubstitution(rho)[p] {
      var i :| 0 <= i < |ps| && ps[i] == p;
      assert rho[ps[i]] == Positions(|ps|, owner)[i];
    }
  }

  /** Normalising twice changes nothing. */
  lemma MakeIsIdempotent(h: Head)
    ensures Make(Make(h)) == Make(h)
  {
    var ps := VisitAll(Terms(h), []);
    VisitAllFinds(Terms(h), []);
    NumberingIsRenaming(ps, NORMAL_OWNER);
    var rho := Between(ps, Positions(|ps|, NORMAL_OWNER));
    BetweenIsInjective(ps, Positions(|ps|, NORMAL_OWNER));
    MakeIsAlphaInvariant(h, rho, NORMAL_OWNER);
  }

  /** A list that extends another numbers the shared parameters alike. */
  lemma NumberingPrefix(t: Type, ps: seq<Parameter>, longer: seq<Parameter>, owner: Owner)
    requires Distinct(longer) && ps <= longer && Parameters(t) <= Members(ps)
    ensures Substitute(t, Numbering(longer, owner)) == Substitute(t, Numbering(ps, owner))
  {
    assert forall i :: 0 <= i < |ps| ==> ps[i] == longer[i];
    NumberingAt(ps, owner);
    NumberingAt(longer, owner);
    forall p | p in Parameters(t)
      ensures Substitute(Variable(p), Numbering(longer, owner)) == Substitute(Variable(p), Numbering(ps, owner))
    {
      var i :| 0 <= i < |ps| && ps[i] == p;
      assert longer[i] == p;
    }
    SubstituteAgree(t, Numbering(longer, owner), Numbering(ps, owner));
  }

  /** The head's own binders in first-occurrence order. */
  function OwnParameters(h: Head): seq<Parameter> {
    VisitAll([h.capability, h.provider], [])
  }

  lemma OwnParametersFound(h: Head)
    ensures Distinct(OwnParameters(h))
    ensures Members(OwnParameters(h)) == Parameters(h.capability) + Parameters(h.provider)
  {
    var own := [h.capability, h.provider];
    VisitAllFinds(own, []);
    assert own[1..] == [h.provider] && own[1..][1..] == [];
    assert ParametersAll(own[1..]) == Parameters(h.provider) + ParametersAll(own[1..][1..]);
  }

  /** The normalised key depends on the head's own binders only. */
  lemma MadeKey(h: Head, owner: Owner)
    ensures Key(MakeUnder(h, owner)) == (Substitute(h.capability, Numbering(OwnParameters(h), owner)),
                                         Substitute(h.provider, Numbering(OwnParameters(h), owner)))
  {
    OwnParametersFound(h);
    VisitAllAppend([h.capability, h.provider], RequirementTerms(h.requirements), []);
    VisitAllFinds(RequirementTerms(h.requirements), OwnParameters(h));
    NumberingPrefix(h.capability, OwnParameters(h), VisitAll(Terms(h), []), owner);
    NumberingPrefix(h.provider, OwnParameters(h), VisitAll(Terms(h), []), owner);
  }

  /** Requirements never change the identity of a head. */
  lemma KeyIgnoresRequirements(h: Head, requirements: seq<Requirement>)
    ensures Key(Make(h.(requirements := requirements))) == Key(Make(h))
  {
    MadeKey(h, NORMAL_OWNER);
    MadeKey(h.(requirements := requirements), NORMAL_OWNER);
  }

  /** Two heads that differ only in how their binders are spelled or ordered. */
  ghost predicate AlphaEquivalent(h: Head, k: Head) {
    exists rho: Renaming ::
      && Injective(rho) && Parameters(h.capability) + Parameters(h.provider) <= rho.Keys
      && Key(RenameHead(h, rho)) == Key(k)
  }

  lemma AlphaEquivalentSameKey(h: Head, k: Head, rho: Renaming)
    requires Injective(rho) && Parameters(h.capability) + Parameters(h.provider) <= rho.Keys
    requires Key(RenameHead(h, rho)) == Key(k)
    ensures Key(Make(h)) == Key(Make(k))
  {
    var bare, renamed := h.(requirements := []), RenameHead(h.(requirements := []), rho);
    KeyIgnoresRequirements(h, []);
    KeyIgnoresRequirements(k, []);
    OwnParametersFound(h);
    var ts := Terms(bare);
    assert ts == [h.capability, h.provider];
    VisitAllFinds(ts, []);
    MakeIsAlphaInvariant(bare, rho, NORMAL_OWNER);
    assert renamed == k.(requirements := []);
  }

  /** The length of a head's binder list can be read off its normal form. */
  lemma MadeOwnParameters(h: Head, owner: Owner)
    ensures |OwnParameters(MakeUnder(h, owner))| == |OwnParameters(h)|
  {
    var own, ps := [h.capability, h.provider], OwnParameters(h);
    OwnParametersFound(h);
    VisitAllFinds(own, []);
    var rho := Between(ps, Positions(|ps|, owner));
    NumberingIsRenaming(ps, owner);
    BetweenIsInjective(ps, Positions(|ps|, owner));
    VisitAllRename(own, [], rho);
    assert RenameEach([], rho) == [];
    MadeKey(h, owner);
    var made := MakeUnder(h, owner);
    assert [made.capability, made.provider] == SubstituteAll(own, AsSubstitution(rho));
  }

  /** Reads positions back as the parameters of a list. */
  ghost function ReadBack(qs: seq<Parameter>, owner: Owner): Substitution {
    map i | 0 <= i < |qs| :: Parameter(owner, i) := Variable(qs[i])
  }

  lemma ReadBackOne(ps: seq<Parameter>, qs: seq<Parameter>, owner: Owner, i: nat)
    requires Distinct(ps) && Distinct(qs) && |ps| == |qs| && i < |ps|
    ensures Substitute(Substitute(Variable(ps[i]), Numbering(ps, owner)), ReadBack(qs, owner)) == Variable(qs[i])
    ensures Substitute(Variable(ps[i]), AsSubstitution(Between(ps, qs))) == Variable(qs[i])
  {
    NumberingAt(ps, owner);
    BetweenIsInjective(ps, qs);
  }

  /** Numbering through one list and reading back through another is the renaming between them. */
  lemma NumberAndReadBack(t: Type, ps: seq<Parameter>, qs: seq<Parameter>, owner: Owner)
    requires Distinct(ps) && Distinct(qs) && |ps| == |qs| && Parameters(t) <= Members(ps)
    ensures Substitute(Substitute(t, Numbering(ps, owner)), ReadBack(qs, owner)) == Substitute(t, AsSubstitution(Between(ps, qs)))
  {
    var numbers, back, rho := Numbering(ps, owner), ReadBack(qs, owner), AsSubstitution(Between(ps, qs));
    forall p | p in Parameters(t)
      ensures Substitute(Substitute(Variable(p), numbers), back) == Substitute(Variable(p), rho)
    {
      var i :| 0 <= i < |ps| && ps[i] == p;
      ReadBackOne(ps, qs, owner, i);
    }
    SubstituteCompose(t, numbers, back, rho);
  }

  lemma SubstituteSame(t: Type, same: Renaming)
    requires forall p :: p in same ==> same[p] == p
    ensures Substitute(t, AsSubstitution(same)) == t
  {
  }

  /** Equal normal forms are read back as each other through the renaming of their binder lists. */
  lemma ReadBackAcross(t: Type, u: Type, ps: seq<Parameter>, qs: seq<Parameter>, owner: Owner)
    requires Distinct(ps) && Distinct(qs) && |ps| == |qs|
    requires Parameters(t) <= Members(ps) && Parameters(u) <= Members(qs)
    requires Substitute(t, Numbering(ps, owner)) == Substitute(u, Numbering(qs, owner))
    ensures Substitute(t, AsSubstitution(Between(ps, qs))) == u
  {
    NumberAndReadBack(t, ps, qs, owner);
    NumberAndReadBack(u, qs, qs, owner);
    BetweenIsInjective(qs, qs);
    SubstituteSame(u, Between(qs, qs));
  }

  lemma SameKeyAlphaEquivalent(h: Head, k: Head)
    requires Key(Make(h)) == Key(Make(k))
    ensures AlphaEquivalent(h, k)
  {
    var ps, qs := OwnParameters(h), OwnParameters(k);
    OwnParametersFound(h);
    OwnParametersFound(k);
    MadeOwnParameters(h, NORMAL_OWNER);
    MadeOwnParameters(k, NORMAL_OWNER);
    MadeKey(h, NORMAL_OWNER);
    MadeKey(k, NORMAL_OWNER);
    ReadBackAcross(h.capability, k.capability, ps, qs, NORMAL_OWNER);
    ReadBackAcross(h.provider, k.provider, ps, qs, NORMAL_OWNER);
    BetweenIsInjective(ps, qs);
    assert Key(RenameHead(h, Between(ps, qs))) == Key(k);
  }

  /** Head identity is exactly alpha-equivalence. */
  lemma KeyIsAlphaEquivalence(h: Head, k: Head)
    ensures Key(Make(h)) == Key(Make(k)) <==> AlphaEquivalent(h, k)
  {
    if Key(Make(h)) == Key(Make(k)) { SameKeyAlphaEquivalent(h, k); }
    if AlphaEquivalent(h, k) {
      var rho: Renaming :| Injective(rho) && Parameters(h.capability) + Parameters(h.provider) <= rho.Keys
                        && Key(RenameHead(h, rho)) == Key(k);
      AlphaEquivalentSameKey(h, k, rho);
    }
  }
}
