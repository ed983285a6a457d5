/**
 What releasing a value through each kind of plan means, without the helpers that do it: parts in declaration order
 until one does not complete, hooks before what they wrap, callables once, and tickets consumed while live.
 */
module CleanupMeaning {
  import opened Wrappers
  import opened Storage
  import opened Cleanup

  /** A way to release values. */
  type Releasing = (Plan, Value, Memory) -> (Memory, Outcome)

  datatype Part = Part(cleanup: Plan, value: Value)

  // ---------------------------------------------------------------------------
  // Parts
  // ---------------------------------------------------------------------------

  /** The first field of the ordinal holds the value. */
  ghost predicate IsField(fields: seq<FieldValue>, ordinal: nat, v: Value) {
    exists i :: 0 <= i < |fields| && fields[i] == FieldValue(ordinal, v) && forall j :: 0 <= j < i ==> fields[j].ordinal != ordinal
  }

  ghost predicate HasField(fields: seq<FieldValue>, ordinal: nat) {
    exists v :: IsField(fields, ordinal, v)
  }

  /** The first case of the member has the plan. */
  ghost predicate IsCase(cases: seq<Case>, member: nat, p: Plan) {
    exists i :: 0 <= i < |cases| && cases[i] == Case(member, p) && forall j :: 0 <= j < i ==> cases[j].member != member
  }

  /** The parts are those fields that have a slot, in the order of the slots. */
  ghost predicate AreFields(slots: seq<Slot>, fields: seq<FieldValue>, parts: seq<Part>)
    decreases |slots|
  {
    if slots == [] then parts == []
    else if HasField(fields, slots[0].ordinal) then
      && parts != [] && parts[0].cleanup == slots[0].cleanup && IsField(fields, slots[0].ordinal, parts[0].value)
      && AreFields(slots[1..], fields, parts[1..])
    else AreFields(slots[1..], fields, parts)
  }

  /** The parts are those lanes that have a slot, in the order of the slots. */
  ghost predicate AreLanes(slots: seq<Slot>, lanes: seq<Value>, parts: seq<Part>)
    decreases |slots|
  {
    if slots == [] then parts == []
    else if slots[0].ordinal < |lanes| then
      && parts != [] && parts[0] == Part(slots[0].cleanup, lanes[slots[0].ordinal])
      && AreLanes(slots[1..], lanes, parts[1..])
    else AreLanes(slots[1..], lanes, parts)
  }

  ghost predicate AreElements(element: Plan, elements: seq<Value>, parts: seq<Part>) {
    |parts| == |elements| && forall i :: 0 <= i < |elements| ==> parts[i] == Part(element, elements[i])
  }

  /** The parts are released one after another, up to the first that does not complete. */
  ghost predicate InTurn(release: Releasing, parts: seq<Part>, m: Memory, r: (Memory, Outcome))
    decreases |parts|
  {
    if parts == [] then r == (m, Done)
    else
      var first := release(parts[0].cleanup, parts[0].value, m);
      if first.1 != Done then r == first else InTurn(release, parts[1..], first.0, r)
  }

  // ---------------------------------------------------------------------------
  // Plans
  // ---------------------------------------------------------------------------

  /** The ticket is consumed while it is live: its slots are cleared if asked, nothing else changes, and the release is logged. */
  ghost predicate Reclaimed(m: Memory, ticket: nat, clear: bool, r: (Memory, Outcome)) {
    if ticket in m.allocations && m.allocations[ticket].active then
      && r.1 == Done && r.0.callables == m.callables && r.0.called == m.called && r.0.released == m.released + [ticket]
      && r.0.allocations.Keys == m.allocations.Keys
      && !r.0.allocations[ticket].active
      && r.0.allocations[ticket].values == (if clear then map[] else m.allocations[ticket].values)
      && forall t :: t in m.allocations && t != ticket ==> r.0.allocations[t] == m.allocations[t]
    else r == (m, Trap)
  }

  /** A callable's captures are released when it is first cleaned, and it is marked before they are. */
  ghost predicate CallableReleased(release: Releasing, slots: seq<Slot>, ticket: nat, captures: seq<FieldValue>, m: Memory, r: (Memory, Outcome))
    requires ticket in m.callables
  {
    if m.callables[ticket] != Available then r == (m, Done)
    else
      exists marked: Memory, parts ::
        && marked == m.(callables := marked.callables)
        && marked.callables.Keys == m.callables.Keys && marked.callables[ticket] == CallableState.Released
        && (forall c :: c in m.callables && c != ticket ==> marked.callables[c] == m.callables[c])
        && AreFields(slots, captures, parts) && InTurn(release, parts, marked, r)
  }

  ghost predicate ReleaseMeans(hooks: Hooks, release: Releasing, p: Plan, v: Value, m: Memory, r: (Memory, Outcome)) {
    match p
    case NoCleanup => r == (m, Done)
    case ParameterCleanup => r == (m, Done)
    case RepresentedEffectCleanup => r == (m, Done)
    case RepresentedCallableCleanup => r == (m, Fault)
    case AllocationCleanup => if v.AllocationValue? then Reclaimed(m, v.ticket, false, r) else r == (m, Fault)
    case RawBufferCleanup => if v.RawBufferValue? then Reclaimed(m, v.ticket, true, r) else r == (m, Fault)
    case CallableCleanup(slots) =>
      if v.CallableValue? && v.ticket in m.callables then CallableReleased(release, slots, v.ticket, v.captures, m, r)
      else r == (m, Fault)
    case EffectCleanup(slots) =>
      if v.EffectValue? then exists parts :: AreLanes(slots, v.lanes, parts) && InTurn(release, parts, m, r) else r == (m, Fault)
    case EffectCompositeCleanup(alternatives) =>
      if v.EffectCompositeValue? && v.alternative < |alternatives| then r == release(alternatives[v.alternative], v.effect, m)
      else r == (m, Fault)
    case HookCleanup(hook, inner) =>
      var called := Memory(m.allocations, m.callables, m.released, m.called + [hook]);
      (match hooks(hook, called, v)
       case Absent => r == (m, MissingFunction(hook))
       case Stopped => r == (called, Blocked)
       case Returned(after, updated) => r == release(inner, updated, after))
    case StructCleanup(slots) =>
      if v.AggregateValue? then exists parts :: AreFields(slots, v.fields, parts) && InTurn(release, parts, m, r) else r == (m, Done)
    case ArrayCleanup(element) =>
      if v.ArrayValue? then exists parts :: AreElements(element, v.elements, parts) && InTurn(release, parts, m, r) else r == (m, Done)
    case UnionCleanup(cases) =>
      if v.UnionValue? && (exists q :: IsCase(cases, v.member, q))
      then exists q :: IsCase(cases, v.member, q) && r == release(q, v.payload, m)
      else r == (m, Done)
  }

  // ---------------------------------------------------------------------------
  // Release means that
  // ---------------------------------------------------------------------------

  ghost function Through(hooks: Hooks): Releasing {
    (p: Plan, v: Value, m: Memory) => Release(hooks, p, v, m)
  }

  lemma {:induction false} FieldIsFound(fields: seq<FieldValue>, ordinal: nat, v: Value)
    ensures FindField(fields, ordinal) == Some(v) <==> IsField(fields, ordinal, v)
    decreases |fields|
  {
    if fields != [] {
      var rest := fields[1..];
      FieldIsFound(rest, ordinal, v);
      assert forall j :: 0 <= j < |rest| ==> rest[j] == fields[j + 1];
      if fields[0].ordinal != ordinal && IsField(rest, ordinal, v) {
        var i :| 0 <= i < |rest| && rest[i] == FieldValue(ordinal, v) && forall j :: 0 <= j < i ==> rest[j].ordinal != ordinal;
        assert fields[i + 1] == FieldValue(ordinal, v);
      }
      if i :| 0 <= i < |fields| && fields[i] == FieldValue(ordinal, v) && forall j :: 0 <= j < i ==> fields[j].ordinal != ordinal {
        if i > 0 { assert rest[i - 1] == FieldValue(ordinal, v); }
      }
    }
  }

  lemma {:induction false} CaseIsFound(cases: seq<Case>, member: nat, p: Plan)
    ensures FindCase(cases, member) == Some(p) <==> IsCase(cases, member, p)
    decreases |cases|
  {
    if cases != [] {
      var rest := cases[1..];
      CaseIsFound(rest, member, p);
      assert forall j :: 0 <= j < |rest| ==> rest[j] == cases[j + 1];
      if cases[0].member != member && IsCase(rest, member, p) {
        var i :| 0 <= i < |rest| && rest[i] == Case(member, p) && forall j :: 0 <= j < i ==> rest[j].member != member;
        assert cases[i + 1] == Case(member, p);
      }
      if i :| 0 <= i < |cases| && cases[i] == Case(member, p) && forall j :: 0 <= j < i ==> cases[j].member != member {
        if i > 0 { assert rest[i - 1] == Case(member, p); }
      }
    }
  }

  lemma {:induction false} FieldsInTurn(hooks: Hooks, slots: seq<Slot>, fields: seq<FieldValue>, m: Memory) returns (parts: seq<Part>)
    ensures AreFields(slots, fields, parts) && InTurn(Through(hooks), parts, m, ReleaseFields(hooks, slots, fields, m))
    decreases |slots|
  {
    if slots == [] {
      parts := [];
    } else {
      var slot, field := slots[0], FindField(fields, slots[0].ordinal);
      if field.None? {
        forall v ensures !IsField(fields, slot.ordinal, v) { FieldIsFound(fields, slot.ordinal, v); }
        parts := FieldsInTurn(hooks, slots[1..], fields, m);
      } else {
        FieldIsFound(fields, slot.ordinal, field.value);
        var first := Release(hooks, slot.cleanup, field.value, m);
        assert ReleaseSlot(hooks, slot, field.value, m) == first;
        var rest := FieldsInTurn(hooks, slots[1..], fields, first.0);
        parts := [Part(slot.cleanup, field.value)] + rest;
        assert parts[1..] == rest;
        OneThen(hooks, parts, m, first, ReleaseFields(hooks, slots, fields, m));
      }
    }
  }

  lemma OneThen(hooks: Hooks, parts: seq<Part>, m: Memory, first: (Memory, Outcome), r: (Memory, Outcome))
    requires parts != [] && first == Release(hooks, parts[0].cleanup, parts[0].value, m)
    requires if first.1 != Done then r == first else InTurn(Through(hooks), parts[1..], first.0, r)
    ensures InTurn(Through(hooks), parts, m, r)
  {
    hide Release;
  }

  lemma {:induction false} LanesInTurn(hooks: Hooks, slots: seq<Slot>, lanes: seq<Value>, m: Memory) returns (parts: seq<Part>)
    ensures AreLanes(slots, lanes, parts) && InTurn(Through(hooks), parts, m, ReleaseLanes(hooks, slots, lanes, m))
    decreases |slots|
  {
    if slots == [] {
      parts := [];
    } else if slots[0].ordinal >= |lanes| {
      parts := LanesInTurn(hooks, slots[1..], lanes, m);
    } else {
      var part := Part(slots[0].cleanup, lanes[slots[0].ordinal]);
      var first := Release(hooks, part.cleanup, part.value, m);
      assert ReleaseSlot(hooks, slots[0], part.value, m) == first;
      var rest := LanesInTurn(hooks, slots[1..], lanes, first.0);
      parts := [part] + rest;
      assert parts[1..] == rest;
      OneThen(hooks, parts, m, first, ReleaseLanes(hooks, slots, lanes, m));
    }
  }

  lemma {:induction false} ElementsInTurn(hooks: Hooks, element: Plan, elements: seq<Value>, m: Memory) returns (parts: seq<Part>)
    ensures AreElements(element, elements, parts) && InTurn(Through(hooks), parts, m, ReleaseElements(hooks, element, elements, m))
    decreases |elements|
  {
    if elements == [] {
      parts := [];
    } else {
      var first := Release(hooks, element, elements[0], m);
      var rest := ElementsInTurn(hooks, element, elements[1..], first.0);
      parts := [Part(element, elements[0])] + rest;
      assert parts[1..] == rest;
      OneThen(hooks, parts, m, first, ReleaseElements(hooks, element, elements, m));
    }
  }

  lemma StateIsMarked(m: Memory, ticket: nat)
    requires ticket in m.callables
    ensures var marked := m.(callables := m.callables[ticket := Cleaned(m.callables[ticket])]);
            if m.callables[ticket] != Available then marked == m else marked.callables[ticket] == CallableState.Released
  {
    var marked := m.callables[ticket := Cleaned(m.callables[ticket])];
    if m.callables[ticket] != Available { assert marked == m.callables; }
  }

  lemma CallableIsReleased(hooks: Hooks, slots: seq<Slot>, v: Value, m: Memory)
    requires v.CallableValue? && v.ticket in m.callables
    ensures CallableReleased(Through(hooks), slots, v.ticket, v.captures, m, Release(hooks, CallableCleanup(slots), v, m))
  {
    var marked := m.(callables := m.callables[v.ticket := Cleaned(m.callables[v.ticket])]);
    StateIsMarked(m, v.ticket);
    if m.callables[v.ticket] == Available { var parts := FieldsInTurn(hooks, slots, v.captures, marked); }
  }

  lemma UnionIsReleased(hooks: Hooks, cases: seq<Case>, v: Value, m: Memory)
    ensures ReleaseMeans(hooks, Through(hooks), UnionCleanup(cases), v, m, Release(hooks, UnionCleanup(cases), v, m))
  {
    if v.UnionValue? {
      var active := FindCase(cases, v.member);
      if active.Some? { CaseIsFound(cases, v.member, active.value); }
      forall q ensures IsCase(cases, v.member, q) <==> active == Some(q) { CaseIsFound(cases, v.member, q); }
    }
  }

  /** Release means what its plans say. */
  lemma ReleaseIsMeant(hooks: Hooks, p: Plan, v: Value, m: Memory)
    ensures ReleaseMeans(hooks, Through(hooks), p, v, m, Release(hooks, p, v, m))
  {
    hide InTurn, AreFields, AreLanes, AreElements, CallableReleased;
    match p
    case CallableCleanup(slots) => if v.CallableValue? && v.ticket in m.callables { CallableIsReleased(hooks, slots, v, m); }
    case EffectCleanup(slots) => if v.EffectValue? { var parts := LanesInTurn(hooks, slots, v.lanes, m); }
    case StructCleanup(slots) => if v.AggregateValue? { var parts := FieldsInTurn(hooks, slots, v.fields, m); }
    case ArrayCleanup(element) => if v.ArrayValue? { var parts := ElementsInTurn(hooks, element, v.elements, m); }
    case UnionCleanup(cases) => UnionIsReleased(hooks, cases, v, m);
    case _ =>
  }

  // ---------------------------------------------------------------------------
  // Plans with an effect
  // ---------------------------------------------------------------------------

  /** The plan occurs somewhere in the whole, possibly as the whole. */
  ghost predicate Occurs(part: Plan, whole: Plan)
    decreases whole
  {
    || part == whole
    || match whole
       case HookCleanup(_, inner) => Occurs(part, inner)
       case StructCleanup(slots) => exists i :: 0 <= i < |slots| && Occurs(part, slots[i].cleanup)
       case ArrayCleanup(element) => Occurs(part, element)
       case UnionCleanup(cases) => exists i :: 0 <= i < |cases| && Occurs(part, cases[i].cleanup)
       case CallableCleanup(slots) => exists i :: 0 <= i < |slots| && Occurs(part, slots[i].cleanup)
       case EffectCleanup(slots) => exists i :: 0 <= i < |slots| && Occurs(part, slots[i].cleanup)
       case EffectCompositeCleanup(alternatives) => exists i :: 0 <= i < |alternatives| && Occurs(part, alternatives[i])
       case _ => false
  }

  /** The plan itself calls a hook or consumes a ticket. */
  ghost predicate Acts(p: Plan) {
    p.HookCleanup? || p.AllocationCleanup? || p.RawBufferCleanup?
  }

  ghost predicate ActsWithin(p: Plan) {
    exists q :: Occurs(q, p) && Acts(q)
  }

  lemma {:induction false} EffectIsWithin(p: Plan)
    ensures HasEffect(p) <==> ActsWithin(p)
  {
    assert Occurs(p, p);
    match p
    case HookCleanup(_, _) =>
    case StructCleanup(slots) =>
      forall i | 0 <= i < |slots| ensures HasEffect(slots[i].cleanup) <==> ActsWithin(slots[i].cleanup) { EffectIsWithin(slots[i].cleanup); }
    case ArrayCleanup(element) => EffectIsWithin(element);
    case UnionCleanup(cases) =>
      forall i | 0 <= i < |cases| ensures HasEffect(cases[i].cleanup) <==> ActsWithin(cases[i].cleanup) { EffectIsWithin(cases[i].cleanup); }
    case CallableCleanup(slots) =>
      forall i | 0 <= i < |slots| ensures HasEffect(slots[i].cleanup) <==> ActsWithin(slots[i].cleanup) { EffectIsWithin(slots[i].cleanup); }
    case EffectCleanup(slots) =>
      forall i | 0 <= i < |slots| ensures HasEffect(slots[i].cleanup) <==> ActsWithin(slots[i].cleanup) { EffectIsWithin(slots[i].cleanup); }
    case EffectCompositeCleanup(alternatives) =>
      forall i | 0 <= i < |alternatives| ensures HasEffect(alternatives[i]) <==> ActsWithin(alternatives[i]) { EffectIsWithin(alternatives[i]); }
    case _ =>
  }
}
