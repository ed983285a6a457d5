/** What substitution, subterms and occurrences are, said without the functions that compute them. */
module TypeTerms {
  import opened Wrappers
  import opened Types

  // ---------------------------------------------------------------------------
  // Instances
  // ---------------------------------------------------------------------------

  /** The instance is the pattern with every mapped parameter replaced, and nothing else changed. */
  ghost predicate IsInstance(pattern: Type, s: Substitution, instance: Type) {
    match pattern
    case Variable(p) => if p in s then instance == s[p] else instance == pattern
    case Apply(f, arguments) =>
      && instance.Apply? && instance.former == f && |instance.arguments| == |arguments|
      && forall i :: 0 <= i < |arguments| ==> IsInstance(arguments[i], s, instance.arguments[i])
  }

  lemma {:induction false} InstanceIsSubstitute(pattern: Type, s: Substitution, instance: Type)
    ensures IsInstance(pattern, s, instance) <==> instance == Substitute(pattern, s)
  {
    match pattern
    case Variable(_) =>
    case Apply(f, arguments) =>
      if instance.Apply? && |instance.arguments| == |arguments| {
        forall i | 0 <= i < |arguments|
          ensures IsInstance(arguments[i], s, instance.arguments[i]) <==> instance.arguments[i] == Substitute(arguments[i], s)
        {
          InstanceIsSubstitute(arguments[i], s, instance.arguments[i]);
        }
        assert instance.arguments == SubstituteAll(arguments, s) <==>
          forall i :: 0 <= i < |arguments| ==> instance.arguments[i] == Substitute(arguments[i], s);
      }
  }

  // ---------------------------------------------------------------------------
  // Parts
  // ---------------------------------------------------------------------------

  /** The part of a term that a path of argument positions leads to. */
  ghost function PartAt(t: Type, path: seq<nat>): Option<Type>
    decreases |path|
  {
    if path == [] then Some(t)
    else if t.Apply? && path[0] < |t.arguments| then PartAt(t.arguments[path[0]], path[1..])
    else None
  }

  /** The part lies strictly inside the whole. */
  ghost predicate LiesInside(part: Type, whole: Type) {
    exists path: seq<nat> :: path != [] && PartAt(whole, path) == Some(part)
  }

  lemma {:induction false} PartIsSubterm(part: Type, whole: Type, path: seq<nat>)
    requires PartAt(whole, path) == Some(part)
    ensures IsSubterm(part, whole) && (path != [] ==> Size(part) < Size(whole))
    decreases |path|
  {
    if path != [] {
      PartIsSubterm(part, whole.arguments[path[0]], path[1..]);
      SubtermAmong(part, whole.arguments, path[0]);
    }
  }

  lemma {:induction false} SubtermAmong(part: Type, wholes: seq<Type>, i: nat)
    requires i < |wholes| && IsSubterm(part, wholes[i])
    ensures IsSubtermOfAny(part, wholes)
  {
    if i > 0 { SubtermAmong(part, wholes[1..], i - 1); }
  }

  lemma {:induction false} SubtermHasPath(part: Type, whole: Type) returns (path: seq<nat>)
    requires IsSubterm(part, whole)
    ensures PartAt(whole, path) == Some(part)
  {
    if part == whole { path := []; }
    else {
      var i, rest := SubtermOfAnyHasPath(part, whole.arguments);
      path := [i] + rest;
      assert path[1..] == rest;
    }
  }

  lemma {:induction false} SubtermOfAnyHasPath(part: Type, wholes: seq<Type>) returns (i: nat, path: seq<nat>)
    requires IsSubtermOfAny(part, wholes)
    ensures i < |wholes| && PartAt(wholes[i], path) == Some(part)
  {
    if IsSubterm(part, wholes[0]) {
      i := 0;
      path := SubtermHasPath(part, wholes[0]);
    } else {
      i, path := SubtermOfAnyHasPath(part, wholes[1..]);
      i := i + 1;
    }
  }

  lemma StrictSubtermLiesInside(part: Type, whole: Type)
    ensures IsStrictSubterm(part, whole) <==> LiesInside(part, whole)
  {
    if IsStrictSubterm(part, whole) { var path := SubtermHasPath(part, whole); }
    if path: seq<nat> :| path != [] && PartAt(whole, path) == Some(part) { PartIsSubterm(part, whole, path); }
  }

  // ---------------------------------------------------------------------------
  // Occurrences
  // ---------------------------------------------------------------------------

  /** The parameters a term mentions, each as often as it does. */
  ghost function Mentions(t: Type): multiset<Parameter> {
    match t
    case Variable(p) => multiset{p}
    case Apply(_, arguments) => AllMentions(arguments)
  }

  ghost function AllMentions(ts: seq<Type>): multiset<Parameter> {
    if ts == [] then multiset{} else Mentions(ts[0]) + AllMentions(ts[1..])
  }

  lemma {:induction false} MentionsAreParameters(t: Type)
    ensures forall p :: p in Mentions(t) <==> p in Parameters(t)
  {
    match t
    case Variable(_) =>
    case Apply(_, arguments) => AllMentionsAreParameters(arguments);
  }

  lemma {:induction false} AllMentionsAreParameters(ts: seq<Type>)
    ensures forall p :: p in AllMentions(ts) <==> p in ParametersAll(ts)
  {
    if ts != [] {
      MentionsAreParameters(ts[0]);
      AllMentionsAreParameters(ts[1..]);
    }
  }

  // ---------------------------------------------------------------------------
  // Depth
  // ---------------------------------------------------------------------------

  lemma {:induction false} PathsAreShort(t: Type, path: seq<nat>)
    requires PartAt(t, path).Some?
    ensures |path| < Depth(t)
    decreases |path|
  {
    if path != [] { PathsAreShort(t.arguments[path[0]], path[1..]); }
  }

  lemma {:induction false} DeepestArgument(ts: seq<Type>) returns (i: nat)
    requires ts != []
    ensures i < |ts| && Depth(ts[i]) == DepthAll(ts)
  {
    if |ts| == 1 || Depth(ts[0]) > DepthAll(ts[1..]) {
      i := 0;
    } else {
      i := DeepestArgument(ts[1..]);
      i := i + 1;
    }
  }

  /** The depth of a term is the number of terms on its longest path. */
  lemma {:induction false} DepthMeans(t: Type) returns (path: seq<nat>)
    ensures PartAt(t, path).Some? && |path| + 1 == Depth(t)
    ensures forall other :: PartAt(t, other).Some? ==> |other| <= |path|
  {
    if t.Variable? || t.arguments == [] {
      path := [];
    } else {
      var i := DeepestArgument(t.arguments);
      var rest := DepthMeans(t.arguments[i]);
      path := [i] + rest;
      assert path[1..] == rest;
    }
    forall other | PartAt(t, other).Some? ensures |other| <= |path| { PathsAreShort(t, other); }
  }
}
