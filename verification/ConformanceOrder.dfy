/** Normalization numbers the binders of a head in the order in which its own two terms mention them. */
module ConformanceOrder {
  import opened Types
  import opened ConformanceHead

  /** The parameters of a term, left to right, each as often as it is mentioned. */
  ghost function Leaves(t: Type): seq<Parameter> {
    match t
    case Variable(p) => [p]
    case Apply(_, arguments) => AllLeaves(arguments)
  }

  ghost function AllLeaves(ts: seq<Type>): seq<Parameter> {
    if ts == [] then [] else Leaves(ts[0]) + AllLeaves(ts[1..])
  }

  /** Past the parameters found before, each listed one is mentioned before the next. */
  ghost predicate InOrder(leaves: seq<Parameter>, found: seq<Parameter>, r: seq<Parameter>) {
    forall i, k :: 0 <= i < |leaves| && |found| < k < |r| && r[k] == leaves[i] ==> r[k - 1] in leaves[..i]
  }

  lemma {:induction false} LeavesAreParameters(t: Type)
    ensures forall p :: p in Leaves(t) <==> p in Parameters(t)
  {
    match t
    case Variable(_) =>
    case Apply(_, arguments) => AllLeavesAreParameters(arguments);
  }

  lemma {:induction false} AllLeavesAreParameters(ts: seq<Type>)
    ensures forall p :: p in AllLeaves(ts) <==> p in ParametersAll(ts)
  {
    if ts != [] {
      LeavesAreParameters(ts[0]);
      AllLeavesAreParameters(ts[1..]);
    }
  }

  lemma {:induction false} VisitInOrder(t: Type, found: seq<Parameter>)
    requires Distinct(found)
    ensures InOrder(Leaves(t), found, Visit(t, found))
  {
    match t
    case Variable(_) =>
    case Apply(_, arguments) => VisitAllInOrder(arguments, found);
  }

  lemma {:induction false} VisitAllInOrder(ts: seq<Type>, found: seq<Parameter>)
    requires Distinct(found)
    ensures InOrder(AllLeaves(ts), found, VisitAll(ts, found))
  {
    if ts != [] {
      var first, middle := Leaves(ts[0]), Visit(ts[0], found);
      var rest, r := AllLeaves(ts[1..]), VisitAll(ts[1..], middle);
      VisitInOrder(ts[0], found);
      VisitFinds(ts[0], found);
      VisitAllInOrder(ts[1..], middle);
      VisitAllFinds(ts[1..], middle);
      LeavesAreParameters(ts[0]);
      assert forall p :: (p in middle <==> p in Members(middle)) && (p in found <==> p in Members(found));
      OrderJoins(first, rest, found, middle, r);
    }
  }

  lemma NotFoundBefore(found: seq<Parameter>, r: seq<Parameter>, k: nat)
    requires found <= r && Distinct(r) && |found| <= k < |r|
    ensures r[k] !in found
  {
    forall m | 0 <= m < |found| ensures found[m] != r[k] { assert r[m] == found[m]; }
  }

  lemma OrderJoins(first: seq<Parameter>, rest: seq<Parameter>, found: seq<Parameter>, middle: seq<Parameter>, r: seq<Parameter>)
    requires InOrder(first, found, middle) && InOrder(rest, middle, r)
    requires found <= middle <= r && Distinct(r)
    requires forall p :: p in middle <==> p in found || p in first
    ensures InOrder(first + rest, found, r)
  {
    var leaves := first + rest;
    forall i, k | 0 <= i < |leaves| && |found| < k < |r| && r[k] == leaves[i] ensures r[k - 1] in leaves[..i] {
      if i < |first| {
        assert r[k] in middle;
        var m :| 0 <= m < |middle| && middle[m] == r[k];
        assert r[m] == middle[m];
        assert leaves[..i] == first[..i];
      } else {
        assert leaves[..i] == first + rest[..i - |first|];
        if k <= |middle| {
          NotFoundBefore(found, r, k - 1);
          assert r[k - 1] == middle[k - 1] && middle[k - 1] in middle;
        }
      }
    }
  }

  lemma {:induction false} RenamedLeaves(t: Type, s: Substitution)
    requires forall p :: p in Parameters(t) ==> p in s && s[p].Variable?
    ensures |Leaves(Substitute(t, s))| == |Leaves(t)|
    ensures forall i :: 0 <= i < |Leaves(t)| ==> Leaves(t)[i] in s && Variable(Leaves(Substitute(t, s))[i]) == s[Leaves(t)[i]]
  {
    match t
    case Variable(_) =>
    case Apply(_, arguments) => RenamedAllLeaves(arguments, s);
  }

  lemma {:induction false} RenamedAllLeaves(ts: seq<Type>, s: Substitution)
    requires forall p :: p in ParametersAll(ts) ==> p in s && s[p].Variable?
    ensures |AllLeaves(SubstituteAll(ts, s))| == |AllLeaves(ts)|
    ensures forall i :: 0 <= i < |AllLeaves(ts)| ==> AllLeaves(ts)[i] in s && Variable(AllLeaves(SubstituteAll(ts, s))[i]) == s[AllLeaves(ts)[i]]
  {
    if ts != [] {
      RenamedLeaves(ts[0], s);
      RenamedAllLeaves(ts[1..], s);
      assert SubstituteAll(ts, s)[1..] == SubstituteAll(ts[1..], s);
    }
  }

  /** Binders are numbered from zero in the order in which they are first mentioned. */
  ghost predicate NumberedInOrder(leaves: seq<Parameter>, owner: Owner) {
    forall i :: 0 <= i < |leaves| ==>
      leaves[i].owner == owner && (leaves[i].position > 0 ==> Parameter(owner, leaves[i].position - 1) in leaves[..i])
  }

  lemma NumberingInOrder(ts: seq<Type>, owner: Owner)
    ensures NumberedInOrder(AllLeaves(SubstituteAll(ts, Numbering(VisitAll(ts, []), owner))), owner)
  {
    var ps := VisitAll(ts, []);
    var s := Numbering(ps, owner);
    VisitAllFinds(ts, []);
    VisitAllInOrder(ts, []);
    NumberingAt(ps, owner);
    forall p | p in ParametersAll(ts) ensures p in s && s[p].Variable? {
      assert p in Members(ps);
    }
    RenamedAllLeaves(ts, s);
    AllLeavesAreParameters(ts);
    var before, after := AllLeaves(ts), AllLeaves(SubstituteAll(ts, s));
    forall i | 0 <= i < |after|
      ensures after[i].owner == owner && (after[i].position > 0 ==> Parameter(owner, after[i].position - 1) in after[..i])
    {
      assert before[i] in Members(ps);
      var k :| 0 <= k < |ps| && ps[k] == before[i];
      if k > 0 {
        assert ps[k - 1] in before[..i];
        var j :| 0 <= j < |before[..i]| && before[..i][j] == ps[k - 1];
        assert after[..i][j] == after[j] == Parameter(owner, k - 1);
      }
    }
  }

  /** The two terms of a normalized head mention its binders in numerical order. */
  lemma MakeNumbersInOrder(h: Head)
    ensures NumberedInOrder(Leaves(Make(h).capability) + Leaves(Make(h).provider), NORMAL_OWNER)
  {
    var own := [h.capability, h.provider];
    var s := Numbering(OwnParameters(h), NORMAL_OWNER);
    MadeKey(h, NORMAL_OWNER);
    NumberingInOrder(own, NORMAL_OWNER);
    var made := SubstituteAll(own, s);
    assert made == [Make(h).capability, Make(h).provider];
    assert made[1..] == [made[1]] && made[1..][1..] == [];
    assert AllLeaves(made[1..]) == Leaves(made[1]) + AllLeaves(made[1..][1..]) == Leaves(made[1]);
    assert AllLeaves(made) == Leaves(made[0]) + AllLeaves(made[1..]);
  }
}
