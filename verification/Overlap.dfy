/**
 Overlap of conformance heads by first-order unification. The bindings are one mutable map that
 unification extends; each method is proved against all instantiations at once: success leaves
 the most general ones, failure leaves none.
 */
module Overlap {
  import opened Types
  import opened TriangularBindings
  import opened ConformanceHead

  ghost predicate Unifies(s: Substitution, left: Type, right: Type) {
    Substitute(left, s) == Substitute(right, s)
  }

  /** Every term and parameter in the bindings comes from a finite universe. */
  ghost predicate Within(bs: seq<Binding>, universe: set<Parameter>) {
    forall i :: 0 <= i < |bs| ==> bs[i].parameter in universe && Parameters(bs[i].term) <= universe
  }

  lemma RoomLeft(bs: seq<Binding>, universe: set<Parameter>)
    requires Triangular(bs) && Within(bs, universe)
    ensures |bs| <= |universe|
  {
    BoundSize(bs);
    forall p | p in Bound(bs) ensures p in universe { var i := BoundAt(bs, p); }
    SubsetSize(Bound(bs), universe);
  }

  lemma {:induction false} SubsetSize<T>(a: set<T>, b: set<T>)
    requires a <= b
    ensures |a| <= |b|
  {
    if a != {} {
      var x :| x in a;
      SubsetSize(a - {x}, b - {x});
    }
  }

  class Bindings {
    var entries: seq<Binding>

    constructor ()
      ensures entries == []
    {
      entries := [];
    }

    /** Follows a chain of bound parameters to a constructed term or an open parameter. */
    method Resolve(t: Type, ghost universe: set<Parameter>) returns (r: Type)
      requires Triangular(entries) && Within(entries, universe) && Parameters(t) <= universe
      ensures r.Variable? ==> r.parameter !in Bound(entries)
      ensures Solve(r, entries) == Solve(t, entries)
      ensures forall s :: Satisfies(s, entries) ==> Substitute(r, s) == Substitute(t, s)
      ensures Parameters(r) <= universe
    {
      SimultaneousAt(entries);
      var bindings := Simultaneous(entries);
      var current := t;
      var seen: set<Parameter> := {};
      ghost var passed: nat := 0;
      while current.Variable?
        invariant seen <= Bound(entries) && FreeOfFirst(current, entries, passed)
        invariant forall p :: p in seen ==> exists i :: 0 <= i < passed && i < |entries| && entries[i].parameter == p
        invariant Solve(current, entries) == Solve(t, entries) && Parameters(current) <= universe
        invariant forall s :: Satisfies(s, entries) ==> Substitute(current, s) == Substitute(t, s)
        decreases Bound(entries) - seen
      {
        var key := current.parameter;
        if key in seen { assert false; }
        if key !in bindings { return current; }
        seen := seen + {key};
        ghost var i := BoundAt(entries, key);
        SolveBinding(entries, i);
        passed := i + 1;
        current := bindings[key];
      }
      return current;
    }

    /** Applies the bindings repeatedly; one pass more than there are bindings always reaches the end. */
    method ResolveDeep(t: Type, ghost universe: set<Parameter>) returns (r: Type)
      requires Triangular(entries) && Within(entries, universe) && Parameters(t) <= universe
      ensures r == Solve(t, entries)
      ensures Parameters(r) !! Bound(entries) && Parameters(r) <= universe
      ensures Substitute(r, Simultaneous(entries)) == r
    {
      var current := t;
      for step := 0 to |entries| + 1
        invariant FreeOfFirst(current, entries, step)
        invariant Solve(current, entries) == Solve(t, entries) && Parameters(current) <= universe
      {
        var next := Substitute(current, Simultaneous(entries));
        if next == current {
          FixedPointIsSolved(current, entries);
          return current;
        }
        PassFreesOneMore(current, entries, step);
        SolveAfterPass(current, entries);
        PassWithin(current, entries, universe);
        current := next;
      }
      FreeOfAll(current, entries);
      return current;
    }

    /** Binds an open parameter to a term, refusing a term that would contain the parameter itself. */
    method Bind(p: Parameter, t: Type, ghost universe: set<Parameter>) returns (ok: bool)
      requires Triangular(entries) && Within(entries, universe) && Parameters(t) <= universe
      requires p in universe && p !in Bound(entries) && t != Variable(p)
      requires t.Variable? ==> t.parameter !in Bound(entries)
      modifies this
      ensures Triangular(entries) && Within(entries, universe)
      ensures ok ==> |entries| == |old(entries)| + 1 && old(entries) <= entries
      ensures ok ==> Solve(Variable(p), entries) == Solve(t, entries)
      ensures ok ==> forall s :: Satisfies(s, old(entries)) && Unifies(s, Variable(p), t) ==> Satisfies(s, entries)
      ensures !ok ==> entries == old(entries) && forall s :: Satisfies(s, entries) ==> !Unifies(s, Variable(p), t)
    {
      var resolved := ResolveDeep(t, universe);
      forall s | Satisfies(s, entries) ensures Substitute(resolved, s) == Substitute(t, s) {
        SolveUnderSatisfying(t, entries, s);
      }
      if p in Parameters(resolved) {
        if t.Variable? { SolveUnbound(t, entries); } else { SolveApply(t.former, t.arguments, entries); }
        forall s | Satisfies(s, entries) ensures !Unifies(s, Variable(p), t) {
          OccursIsBigger(resolved, p, s);
        }
        return false;
      }
      TriangularBind(entries, p, resolved);
      SolveAppend(t, entries, [Binding(p, resolved)]);
      SubstituteNothing(resolved, map[p := resolved]);
      entries := entries + [Binding(p, resolved)];
      return true;
    }

    /** Unifies two terms under the bindings so far. */
    method Unify(leftTerm: Type, rightTerm: Type, ghost universe: set<Parameter>) returns (ok: bool)
      requires Triangular(entries) && Within(entries, universe)
      requires Parameters(leftTerm) <= universe && Parameters(rightTerm) <= universe
      modifies this
      ensures Triangular(entries) && Within(entries, universe) && old(entries) <= entries
      ensures ok ==> Solve(leftTerm, entries) == Solve(rightTerm, entries)
      ensures ok ==> forall s :: Satisfies(s, old(entries)) && Unifies(s, leftTerm, rightTerm) ==> Satisfies(s, entries)
      ensures !ok ==> forall s :: Satisfies(s, old(entries)) ==> !Unifies(s, leftTerm, rightTerm)
      decreases |universe| - |entries|, Size(Solve(leftTerm, entries)), 1
    {
      RoomLeft(entries, universe);
      var left := Resolve(leftTerm, universe);
      var right := Resolve(rightTerm, universe);
      ghost var before := entries;
      if left == right { return true; }
      if left.Variable? {
        ok := Bind(left.parameter, right, universe);
        if ok { KeepsSolved(leftTerm, left, rightTerm, right, before, entries); }
      } else if right.Variable? {
        ok := Bind(right.parameter, left, universe);
        if ok { KeepsSolved(leftTerm, left, rightTerm, right, before, entries); }
      } else if left.former != right.former || |left.arguments| != |right.arguments| {
        ok := false;
      } else {
        SolveApply(left.former, left.arguments, entries);
        ok := UnifyArguments(left.arguments, right.arguments, universe);
        if ok {
          SolveApply(left.former, left.arguments, entries);
          SolveApply(right.former, right.arguments, entries);
          assert SolveAll(left.arguments, entries) == SolveAll(right.arguments, entries);
          KeepsSolved(leftTerm, left, rightTerm, right, before, entries);
        }
      }
    }

    /** Unifies arguments from left to right, stopping at the first pair that fails. */
    method UnifyArguments(lefts: seq<Type>, rights: seq<Type>, ghost universe: set<Parameter>) returns (ok: bool)
      requires |lefts| == |rights|
      requires Triangular(entries) && Within(entries, universe)
      requires ParametersAll(lefts) <= universe && ParametersAll(rights) <= universe
      modifies this
      ensures Triangular(entries) && Within(entries, universe) && old(entries) <= entries
      ensures ok ==> AllSolved(lefts, rights, |lefts|, entries)
      ensures ok ==> NoUnifierLost(lefts, rights, old(entries), entries)
      ensures !ok ==> forall s :: Satisfies(s, old(entries)) ==> !UnifiesAll(s, lefts, rights)
      decreases |universe| - |entries|, 1 + SizeAll(SolveAll(lefts, entries)), 0
    {
      hide Triangular, Within, Satisfies, Solve;
      RoomLeft(entries, universe);
      ghost var before := entries;
      for ordinal := 0 to |lefts|
        invariant Triangular(entries) && Within(entries, universe) && before <= entries
        invariant AllSolved(lefts, rights, ordinal, entries)
        invariant NoUnifierLost(lefts, rights, before, entries)
      {
        ghost var earlier := entries;
        RoomLeft(earlier, universe);
        ArgumentIsSmaller(lefts, ordinal, before, entries);
        var unified := Unify(lefts[ordinal], rights[ordinal], universe);
        if !unified { return false; }
        AllStaySolved(lefts, rights, ordinal, earlier, entries);
      }
      return true;
    }
  }

  /** Every instantiation that unifies the arguments and satisfied the bindings before satisfies them after. */
  ghost predicate NoUnifierLost(lefts: seq<Type>, rights: seq<Type>, before: seq<Binding>, after: seq<Binding>)
    requires |lefts| == |rights|
  {
    forall s :: Satisfies(s, before) && UnifiesAll(s, lefts, rights) ==> Satisfies(s, after)
  }

  ghost predicate AllSolved(lefts: seq<Type>, rights: seq<Type>, n: nat, bs: seq<Binding>)
    requires n <= |lefts| == |rights|
  {
    forall i :: 0 <= i < n ==> Solve(lefts[i], bs) == Solve(rights[i], bs)
  }

  lemma AllStaySolved(lefts: seq<Type>, rights: seq<Type>, n: nat, bs: seq<Binding>, longer: seq<Binding>)
    requires n <= |lefts| == |rights| && bs <= longer && AllSolved(lefts, rights, n, bs)
    ensures AllSolved(lefts, rights, n, longer)
  {
    forall i | 0 <= i < n ensures Solve(lefts[i], longer) == Solve(rights[i], longer) {
      SolvedStaysSolved(lefts[i], rights[i], bs, longer);
    }
  }

  lemma ArgumentIsSmaller(ts: seq<Type>, i: nat, bs: seq<Binding>, longer: seq<Binding>)
    requires i < |ts| && bs <= longer
    ensures |bs| < |longer| || (longer == bs && Size(Solve(ts[i], longer)) < 1 + SizeAll(SolveAll(ts, bs)))
  {
    if |bs| == |longer| { assert longer == bs; }
    assert SolveAll(ts, bs)[i] == Solve(ts[i], bs);
    assert Size(SolveAll(ts, bs)[i]) <= SizeAll(SolveAll(ts, bs));
  }

  ghost predicate UnifiesAll(s: Substitution, lefts: seq<Type>, rights: seq<Type>)
    requires |lefts| == |rights|
  {
    forall i :: 0 <= i < |lefts| ==> Unifies(s, lefts[i], rights[i])
  }

  lemma KeepsSolved(leftTerm: Type, left: Type, rightTerm: Type, right: Type, bs: seq<Binding>, longer: seq<Binding>)
    requires bs <= longer && Solve(left, bs) == Solve(leftTerm, bs) && Solve(right, bs) == Solve(rightTerm, bs)
    requires Solve(left, longer) == Solve(right, longer)
    ensures Solve(leftTerm, longer) == Solve(rightTerm, longer)
  {
    SolvedStaysSolved(left, leftTerm, bs, longer);
    SolvedStaysSolved(right, rightTerm, bs, longer);
  }

  lemma PassWithin(t: Type, bs: seq<Binding>, universe: set<Parameter>)
    requires Triangular(bs) && Within(bs, universe) && Parameters(t) <= universe
    ensures Parameters(Substitute(t, Simultaneous(bs))) <= universe
  {
    SimultaneousAt(bs);
    forall q | q in Parameters(Substitute(t, Simultaneous(bs))) ensures q in universe {
      ParametersOfSubstitute(t, Simultaneous(bs), q);
      var p :| p in Parameters(t) && q in Parameters(Substitute(Variable(p), Simultaneous(bs)));
      if p in Bound(bs) { var i := BoundAt(bs, p); }
    }
  }

  // ---------------------------------------------------------------------------
  // Overlap of heads
  // ---------------------------------------------------------------------------

  /** Some instantiations of the two heads' binders make them the same conformance. */
  ghost predicate Overlaps(h: Head, k: Head) {
    exists a: Substitution, b: Substitution :: SameInstance(h, a, k, b)
  }

  ghost predicate SameInstance(h: Head, a: Substitution, k: Head, b: Substitution) {
    Key(SubstituteHead(h, a)) == Key(SubstituteHead(k, b))
  }

  /** Every binder of the head's own terms belongs to the owner. */
  ghost predicate OwnedBy(h: Head, owner: Owner) {
    forall p :: p in Parameters(h.capability) + Parameters(h.provider) ==> p.owner == owner
  }

  lemma MadeIsOwned(h: Head, owner: Owner)
    ensures OwnedBy(MakeUnder(h, owner), owner)
  {
    var n := Numbering(OwnParameters(h), owner);
    MadeKey(h, owner);
    OwnParametersFound(h);
    NumberingAt(OwnParameters(h), owner);
    forall q | q in Parameters(Substitute(h.capability, n)) + Parameters(Substitute(h.provider, n)) ensures q.owner == owner {
      ParametersOfSubstitute(h.capability, n, q);
      ParametersOfSubstitute(h.provider, n, q);
      var p :| p in Parameters(h.capability) + Parameters(h.provider) && q in Parameters(Substitute(Variable(p), n));
      var i :| 0 <= i < |OwnParameters(h)| && OwnParameters(h)[i] == p;
    }
  }

  /** Instantiating the renumbered head is instantiating the head: one direction of renumbering. */
  lemma ThroughNumbering(h: Head, owner: Owner, s: Substitution) returns (b: Substitution)
    ensures Key(SubstituteHead(MakeUnder(h, owner), s)) == Key(SubstituteHead(h, b))
  {
    var ps := OwnParameters(h);
    var n := Numbering(ps, owner);
    MadeKey(h, owner);
    OwnParametersFound(h);
    NumberingAt(ps, owner);
    b := map p | p in Members(ps) :: Substitute(Substitute(Variable(p), n), s);
    SubstituteCompose(h.capability, n, s, b);
    SubstituteCompose(h.provider, n, s, b);
  }

  /** One instantiation that acts as `a` on the first head and as `b` on the renumbered second. */
  ghost function Joined(h: Head, a: Substitution, k: Head, b: Substitution, owner: Owner): Substitution {
    (map p | p in Parameters(h.capability) + Parameters(h.provider) :: Substitute(Variable(p), a))
    + (map i | 0 <= i < |OwnParameters(k)| :: Parameter(owner, i) := Substitute(Variable(OwnParameters(k)[i]), b))
  }

  lemma JoinedActsOnFirst(h: Head, a: Substitution, k: Head, b: Substitution, mine: Owner, theirs: Owner)
    requires OwnedBy(h, mine) && mine != theirs
    ensures Key(SubstituteHead(h, Joined(h, a, k, b, theirs))) == Key(SubstituteHead(h, a))
  {
    SubstituteAgree(h.capability, Joined(h, a, k, b, theirs), a);
    SubstituteAgree(h.provider, Joined(h, a, k, b, theirs), a);
  }

  lemma JoinedAt(h: Head, a: Substitution, k: Head, b: Substitution, owner: Owner, i: nat)
    requires i < |OwnParameters(k)|
    ensures Substitute(Variable(Parameter(owner, i)), Joined(h, a, k, b, owner)) == Substitute(Variable(OwnParameters(k)[i]), b)
  {
    hide OwnParameters;
    assert Parameter(owner, i) in Joined(h, a, k, b, owner);
  }

  /** Numbering a parameter of the second head and reading the number in the join is reading it in its own instance. */
  lemma JoinedReadsBack(h: Head, a: Substitution, k: Head, b: Substitution, owner: Owner, p: Parameter)
    requires p in Members(OwnParameters(k))
    ensures Substitute(Substitute(Variable(p), Numbering(OwnParameters(k), owner)), Joined(h, a, k, b, owner)) == Substitute(Variable(p), b)
  {
    hide Joined, OwnParameters, Numbering;
    var ps := OwnParameters(k);
    OwnParametersFound(k);
    NumberingAt(ps, owner);
    var i :| 0 <= i < |ps| && ps[i] == p;
    assert Substitute(Variable(p), Numbering(ps, owner)) == Variable(Parameter(owner, i));
    JoinedAt(h, a, k, b, owner, i);
  }

  lemma JoinedActsOnSecond(h: Head, a: Substitution, k: Head, b: Substitution, owner: Owner)
    ensures Key(SubstituteHead(MakeUnder(k, owner), Joined(h, a, k, b, owner))) == Key(SubstituteHead(k, b))
  {
    var ps := OwnParameters(k);
    var n, s := Numbering(ps, owner), Joined(h, a, k, b, owner);
    MadeKey(k, owner);
    OwnParametersFound(k);
    hide Joined, Numbering, OwnParameters;
    forall p | p in Members(ps) ensures Substitute(Substitute(Variable(p), n), s) == Substitute(Variable(p), b) {
      JoinedReadsBack(h, a, k, b, owner, p);
    }
    SubstituteCompose(k.capability, n, s, b);
    SubstituteCompose(k.provider, n, s, b);
  }

  /** Two heads overlap exactly when the first and the opposing renumbering of the second unify. */
  lemma OverlapIsUnifiability(h: Head, k: Head)
    requires OwnedBy(h, NORMAL_OWNER)
    ensures var opposing := MakeUnder(k, OPPOSING_OWNER);
            Overlaps(h, k) <==> exists s: Substitution :: SameInstance(h, s, opposing, s)
  {
    var opposing := MakeUnder(k, OPPOSING_OWNER);
    if Overlaps(h, k) {
      var a: Substitution, b: Substitution :| SameInstance(h, a, k, b);
      var s := Joined(h, a, k, b, OPPOSING_OWNER);
      JoinedActsOnFirst(h, a, k, b, NORMAL_OWNER, OPPOSING_OWNER);
      JoinedActsOnSecond(h, a, k, b, OPPOSING_OWNER);
      assert SameInstance(h, s, opposing, s);
    }
    if s: Substitution :| SameInstance(h, s, opposing, s) {
      var b := ThroughNumbering(k, OPPOSING_OWNER, s);
      assert SameInstance(h, s, k, b);
    }
  }

  /** Normalising either head does not change whether two heads overlap. */
  lemma OverlapIsAlphaInvariant(h: Head, k: Head)
    ensures Overlaps(Make(h), Make(k)) <==> Overlaps(h, k)
  {
    if Overlaps(Make(h), Make(k)) {
      var s: Substitution, t: Substitution :| SameInstance(Make(h), s, Make(k), t);
      var a := ThroughNumbering(h, NORMAL_OWNER, s);
      var b := ThroughNumbering(k, NORMAL_OWNER, t);
      assert SameInstance(h, a, k, b);
    }
    if Overlaps(h, k) {
      var a: Substitution, b: Substitution :| SameInstance(h, a, k, b);
      JoinedActsOnSecond(h, a, h, a, NORMAL_OWNER);
      JoinedActsOnSecond(h, a, k, b, NORMAL_OWNER);
      assert SameInstance(Make(h), Joined(h, a, h, a, NORMAL_OWNER), Make(k), Joined(h, a, k, b, NORMAL_OWNER));
    }
  }

  /** Decides overlap exactly: never a false disjointness, and never a false overlap. */
  method MayOverlap(left: Head, right: Head) returns (overlap: bool)
    requires OwnedBy(left, NORMAL_OWNER)
    ensures overlap <==> Overlaps(left, right)
  {
    if Key(left) == Key(right) {
      assert SameInstance(left, map[], right, map[]);
      return true;
    }
    var opposing := MakeUnder(right.(requirements := []), OPPOSING_OWNER);
    MadeKey(right, OPPOSING_OWNER);
    MadeKey(right.(requirements := []), OPPOSING_OWNER);
    OverlapIsUnifiability(left, right);
    ghost var universe := Parameters(left.capability) + Parameters(left.provider)
                        + Parameters(opposing.capability) + Parameters(opposing.provider);
    var bindings := new Bindings();
    var capabilities := bindings.Unify(left.capability, opposing.capability, universe);
    if !capabilities {
      forall s: Substitution ensures !SameInstance(left, s, MakeUnder(right, OPPOSING_OWNER), s) {
        assert Satisfies(s, []);
      }
      return false;
    }
    ghost var between := bindings.entries;
    var providers := bindings.Unify(left.provider, opposing.provider, universe);
    if !providers {
      forall s: Substitution ensures !SameInstance(left, s, MakeUnder(right, OPPOSING_OWNER), s) {
        assert Satisfies(s, []);
        if Unifies(s, left.capability, opposing.capability) { assert Satisfies(s, between); }
      }
      return false;
    }
    SolvedStaysSolved(left.capability, opposing.capability, between, bindings.entries);
    ghost var s := Solution(bindings.entries, universe);
    SolutionSolves(left.capability, bindings.entries, universe);
    SolutionSolves(left.provider, bindings.entries, universe);
    SolutionSolves(opposing.capability, bindings.entries, universe);
    SolutionSolves(opposing.provider, bindings.entries, universe);
    assert SameInstance(left, s, MakeUnder(right, OPPOSING_OWNER), s);
    return true;
  }
}
