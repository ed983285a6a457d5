/**
 Cleanup releases exactly once: a plan succeeds exactly when the tickets its owner still owes are live
 and distinct, and then each of them, by a drop hook or by the plan, and no other allocation, is released
 one time. Drop hooks may release what their owner owes and leave it owing that much less.
 */
module CleanupRelease {
  import opened Storage
  import opened Cleanup

  /** The tickets a value owes under its plan, in release order, and the callables left behind. */
  datatype Owed = Owed(tickets: seq<nat>, callables: Callables)

  function Then(first: Owed, rest: Owed): Owed {
    Owed(first.tickets + rest.tickets, rest.callables)
  }

  /** What is owed lies under the active union case, the selected alternative and the available callables. */
  function Owes(p: Plan, v: Value, cs: Callables): (owed: Owed)
    ensures owed.callables.Keys == cs.Keys
    decreases p, 1
  {
    match p
    case AllocationCleanup => Owed(if v.AllocationValue? then [v.ticket] else [], cs)
    case RawBufferCleanup => Owed(if v.RawBufferValue? then [v.ticket] else [], cs)
    case HookCleanup(_, inner) => Owes(inner, v, cs)
    case StructCleanup(slots) => if v.AggregateValue? then OwesFields(slots, v.fields, cs) else Owed([], cs)
    case ArrayCleanup(element) => if v.ArrayValue? then OwesElements(element, v.elements, cs) else Owed([], cs)
    case UnionCleanup(cases) =>
      if !v.UnionValue? then Owed([], cs)
      else
        var active := FindCase(cases, v.member);
        if active.None? then Owed([], cs) else Owes(active.value, v.payload, cs)
    case CallableCleanup(slots) =>
      if !v.CallableValue? || v.ticket !in cs then Owed([], cs)
      else
        var marked := cs[v.ticket := Cleaned(cs[v.ticket])];
        if cs[v.ticket] != Available then Owed([], marked) else OwesFields(slots, v.captures, marked)
    case EffectCleanup(slots) => if v.EffectValue? then OwesLanes(slots, v.lanes, cs) else Owed([], cs)
    case EffectCompositeCleanup(alternatives) =>
      if !v.EffectCompositeValue? || v.alternative >= |alternatives| then Owed([], cs)
      else Owes(alternatives[v.alternative], v.effect, cs)
    case _ => Owed([], cs)
  }

  function OwesSlot(slot: Slot, v: Value, cs: Callables): (owed: Owed)
    ensures owed.callables.Keys == cs.Keys
    decreases slot, 2
  {
    Owes(slot.cleanup, v, cs)
  }

  function OwesFields(slots: seq<Slot>, fields: seq<FieldValue>, cs: Callables): (owed: Owed)
    ensures owed.callables.Keys == cs.Keys
    decreases slots, 0
  {
    if slots == [] then Owed([], cs)
    else
      var field := FindField(fields, slots[0].ordinal);
      if field.None? then OwesFields(slots[1..], fields, cs)
      else
        var first := OwesSlot(slots[0], field.value, cs);
        Then(first, OwesFields(slots[1..], fields, first.callables))
  }

  function OwesLanes(slots: seq<Slot>, lanes: seq<Value>, cs: Callables): (owed: Owed)
    ensures owed.callables.Keys == cs.Keys
    decreases slots, 0
  {
    if slots == [] then Owed([], cs)
    else if slots[0].ordinal >= |lanes| then OwesLanes(slots[1..], lanes, cs)
    else
      var first := OwesSlot(slots[0], lanes[slots[0].ordinal], cs);
      Then(first, OwesLanes(slots[1..], lanes, first.callables))
  }

  function OwesElements(element: Plan, elements: seq<Value>, cs: Callables): (owed: Owed)
    ensures owed.callables.Keys == cs.Keys
    decreases element, 2, |elements|
  {
    if elements == [] then Owed([], cs)
    else
      var first := Owes(element, elements[0], cs);
      Then(first, OwesElements(element, elements[1..], first.callables))
  }

  /** The value has the shape its plan expects wherever the evaluator would otherwise throw. */
  predicate Matches(p: Plan, v: Value, known: set<nat>)
    decreases p, 1
  {
    match p
    case AllocationCleanup => v.AllocationValue?
    case RawBufferCleanup => v.RawBufferValue?
    case HookCleanup(_, inner) => Matches(inner, v, known)
    case StructCleanup(slots) => v.AggregateValue? ==> FieldsMatch(slots, v.fields, known)
    case ArrayCleanup(element) => v.ArrayValue? ==> forall i :: 0 <= i < |v.elements| ==> Matches(element, v.elements[i], known)
    case UnionCleanup(cases) =>
      v.UnionValue? ==>
        var active := FindCase(cases, v.member);
        active.Some? ==> Matches(active.value, v.payload, known)
    case CallableCleanup(slots) => v.CallableValue? && v.ticket in known && FieldsMatch(slots, v.captures, known)
    case EffectCleanup(slots) => v.EffectValue? && LanesMatch(slots, v.lanes, known)
    case EffectCompositeCleanup(alternatives) =>
      v.EffectCompositeValue? && v.alternative < |alternatives| && Matches(alternatives[v.alternative], v.effect, known)
    case RepresentedCallableCleanup => false
    case _ => true
  }

  predicate SlotMatches(slot: Slot, v: Value, known: set<nat>)
    decreases slot, 2
  {
    Matches(slot.cleanup, v, known)
  }

  predicate FieldsMatch(slots: seq<Slot>, fields: seq<FieldValue>, known: set<nat>)
    decreases slots, 0
  {
    forall i :: 0 <= i < |slots| && FindField(fields, slots[i].ordinal).Some? ==>
      SlotMatches(slots[i], FindField(fields, slots[i].ordinal).value, known)
  }

  predicate LanesMatch(slots: seq<Slot>, lanes: seq<Value>, known: set<nat>)
    decreases slots, 0
  {
    forall i :: 0 <= i < |slots| && slots[i].ordinal < |lanes| ==> SlotMatches(slots[i], lanes[slots[i].ordinal], known)
  }

  // ---------------------------------------------------------------------------
  // Counting releases
  // ---------------------------------------------------------------------------

  function Count(s: seq<nat>, t: nat): nat {
    if s == [] then 0 else (if s[0] == t then 1 else 0) + Count(s[1..], t)
  }

  lemma {:induction false} CountConcat(a: seq<nat>, b: seq<nat>, t: nat)
    ensures Count(a + b, t) == Count(a, t) + Count(b, t)
  {
    if a == [] {
      assert a + b == b;
    } else {
      assert (a + b)[1..] == a[1..] + b;
      CountConcat(a[1..], b, t);
    }
  }

  lemma {:induction false} CountPositive(s: seq<nat>, t: nat)
    ensures Count(s, t) > 0 <==> t in s
  {
    if s != [] { CountPositive(s[1..], t); }
  }

  /** Every ticket is live and listed once. */
  ghost predicate Releasable(m: Memory, ts: seq<nat>) {
    forall t :: t in ts ==> Live(m.allocations, t) && Count(ts, t) == 1
  }

  /** Of the allocations in `base`, exactly the listed ones died, each released as often as listed. */
  ghost predicate Consumes(base: set<nat>, m: Memory, ts: seq<nat>, m': Memory) {
    forall t :: t in base ==>
      && t in m'.allocations
      && (Live(m'.allocations, t) <==> Live(m.allocations, t) && t !in ts)
      && Count(m'.released, t) == Count(m.released, t) + Count(ts, t)
  }

  lemma ConsumesThen(base: set<nat>, m: Memory, a: seq<nat>, m1: Memory, b: seq<nat>, m2: Memory)
    requires Consumes(base, m, a, m1) && Consumes(base, m1, b, m2)
    ensures Consumes(base, m, a + b, m2)
  {
    forall t | t in base
      ensures t in m2.allocations && (Live(m2.allocations, t) <==> Live(m.allocations, t) && t !in a + b)
              && Count(m2.released, t) == Count(m.released, t) + Count(a + b, t)
    {
      CountConcat(a, b, t);
    }
  }

  lemma ReleasableSplits(base: set<nat>, m: Memory, a: seq<nat>, m1: Memory, b: seq<nat>)
    requires Consumes(base, m, a, m1) && Releasable(m, a) && forall t :: t in b ==> t in base
    ensures Releasable(m, a + b) <==> Releasable(m1, b)
  {
    forall t ensures Count(a + b, t) == Count(a, t) + Count(b, t) && (Count(a, t) > 0 <==> t in a) && (Count(b, t) > 0 <==> t in b) {
      CountConcat(a, b, t);
      CountPositive(a, t);
      CountPositive(b, t);
    }
  }

  lemma ReleasableFront(m: Memory, a: seq<nat>, b: seq<nat>)
    requires Releasable(m, a + b)
    ensures Releasable(m, a)
  {
    forall t | t in a ensures Live(m.allocations, t) && Count(a, t) == 1 {
      assert t in a + b;
      CountConcat(a, b, t);
      CountPositive(a, t);
    }
  }

  // ---------------------------------------------------------------------------
  // Exactly once
  // ---------------------------------------------------------------------------

  /** The callables known at first are as they were; there may be more. */
  ghost predicate Extends(cs: Callables, cs': Callables) {
    forall c :: c in cs ==> c in cs' && cs'[c] == cs[c]
  }

  /**
   The release completed exactly if what was owed could be released, and then released just that among the
   allocations of `base`; otherwise it trapped, or was stopped by a hook where hooks may stop.
   */
  ghost predicate Exact(base: set<nat>, stops: bool, m: Memory, owed: Owed, r: (Memory, Outcome)) {
    && (r.1 == Done <==> Releasable(m, owed.tickets)) && (r.1 == Done || r.1 == Trap || (stops && r.1 == Blocked))
    && (r.1 == Done ==> Consumes(base, m, owed.tickets, r.0) && Extends(owed.callables, r.0.callables))
  }

  ghost predicate Within(base: set<nat>, m: Memory, ts: seq<nat>) {
    base <= m.allocations.Keys && forall t :: t in ts ==> t in base
  }

  /** Two releases in a row are exact for what they owe together. */
  lemma ExactThen(base: set<nat>, stops: bool, m: Memory, first: Owed, r1: (Memory, Outcome), rest: Owed, r2: (Memory, Outcome))
    requires Exact(base, stops, m, first, r1) && Within(base, m, first.tickets) && Within(base, m, rest.tickets)
    requires r1.1 == Done ==> Exact(base, stops, r1.0, rest, r2)
    ensures Exact(base, stops, m, Then(first, rest), if r1.1 != Done then r1 else r2)
    ensures r1.1 == Done ==> base <= r1.0.allocations.Keys
  {
    if r1.1 == Done {
      ReleasableSplits(base, m, first.tickets, r1.0, rest.tickets);
      if r2.1 == Done { ConsumesThen(base, m, first.tickets, r1.0, rest.tickets, r2.0); }
    } else if Releasable(m, first.tickets + rest.tickets) {
      ReleasableFront(m, first.tickets, rest.tickets);
    }
  }

  lemma NothingOwed(base: set<nat>, stops: bool, m: Memory, cs: Callables)
    requires base <= m.allocations.Keys && Extends(cs, m.callables)
    ensures Exact(base, stops, m, Owed([], cs), (m, Done))
  {
  }

  lemma TicketExact(base: set<nat>, stops: bool, m: Memory, ticket: nat, clear: bool, cs: Callables)
    requires Within(base, m, [ticket]) && Extends(cs, m.callables)
    ensures Exact(base, stops, m, Owed([ticket], cs), ReleaseTicket(m, ticket, clear))
  {
    assert Count([ticket], ticket) == 1;
    forall t ensures Count(m.released + [ticket], t) == Count(m.released, t) + Count([ticket], t) {
      CountConcat(m.released, [ticket], t);
    }
    forall t | t in base ensures Count([ticket], t) == if t == ticket then 1 else 0 {
      assert [ticket][1..] == [];
    }
  }

  /** Marking a callable touches no allocation. */
  lemma SameAllocations(base: set<nat>, stops: bool, m: Memory, m': Memory, owed: Owed, r: (Memory, Outcome))
    requires m'.allocations == m.allocations && m'.released == m.released && Exact(base, stops, m', owed, r)
    ensures Exact(base, stops, m, owed, r)
  {
  }

  lemma ExactKeepsBase(base: set<nat>, stops: bool, m: Memory, owed: Owed, r: (Memory, Outcome))
    requires Exact(base, stops, m, owed, r)
    ensures r.1 == Done ==> base <= r.0.allocations.Keys && Extends(owed.callables, r.0.callables)
  {
  }

  // ---------------------------------------------------------------------------
  // Hooks
  // ---------------------------------------------------------------------------

  /** Both lists name every ticket as often. */
  ghost predicate SameTickets(a: seq<nat>, b: seq<nat>) {
    forall t :: Count(a, t) == Count(b, t)
  }

  /**
   The hook released `settled` of what its owner owed, could do so, and left an owner that fits the plan and owes
   the rest. Outside `base` it may allocate and release as it likes.
   */
  ghost predicate Settled(base: set<nat>, inner: Plan, v: Value, cs: Callables, m: Memory, settled: seq<nat>, m': Memory, v': Value) {
    && Releasable(m, settled) && Consumes(base, m, settled, m') && Extends(cs, m'.callables)
    && Matches(inner, v', cs.Keys) && Owes(inner, v', cs).callables == Owes(inner, v, cs).callables
    && SameTickets(settled + Owes(inner, v', cs).tickets, Owes(inner, v, cs).tickets)
  }

  /** A hook settles part of what its owner owes, or stops, where hooks may stop, because that cannot be released. */
  ghost predicate HookSettles(base: set<nat>, stops: bool, inner: Plan, v: Value, cs: Callables, m: Memory, r: HookResult) {
    match r
    case Returned(m', v') => exists settled :: Settled(base, inner, v, cs, m, settled, m', v')
    case Stopped => stops && !Releasable(m, Owes(inner, v, cs).tickets)
    case Absent => false
  }

  /** Every hook the release calls settles, on the owner and in the memory it is called with. */
  ghost predicate Settles(base: set<nat>, stops: bool, hooks: Hooks, p: Plan, v: Value, cs: Callables, m: Memory)
    decreases p, 1
  {
    match p
    case HookCleanup(hook, inner) =>
      var called := m.(called := m.called + [hook]);
      var r := hooks(hook, called, v);
      && HookSettles(base, stops, inner, v, cs, called, r)
      && (r.Returned? ==> Settles(base, stops, hooks, inner, r.owner, cs, r.memory))
    case StructCleanup(slots) => v.AggregateValue? ==> SettlesFields(base, stops, hooks, slots, v.fields, cs, m)
    case ArrayCleanup(element) => v.ArrayValue? ==> SettlesElements(base, stops, hooks, element, v.elements, cs, m)
    case UnionCleanup(cases) =>
      v.UnionValue? ==>
        var active := FindCase(cases, v.member);
        active.Some? ==> Settles(base, stops, hooks, active.value, v.payload, cs, m)
    case CallableCleanup(slots) =>
      v.CallableValue? && v.ticket in cs && v.ticket in m.callables && cs[v.ticket] == Available ==>
        SettlesFields(base, stops, hooks, slots, v.captures, cs[v.ticket := Cleaned(cs[v.ticket])],
                      m.(callables := m.callables[v.ticket := Cleaned(m.callables[v.ticket])]))
    case EffectCleanup(slots) => v.EffectValue? ==> SettlesLanes(base, stops, hooks, slots, v.lanes, cs, m)
    case EffectCompositeCleanup(alternatives) =>
      v.EffectCompositeValue? && v.alternative < |alternatives| ==>
        Settles(base, stops, hooks, alternatives[v.alternative], v.effect, cs, m)
    case _ => true
  }

  ghost predicate SettlesSlot(base: set<nat>, stops: bool, hooks: Hooks, slot: Slot, v: Value, cs: Callables, m: Memory)
    decreases slot, 2
  {
    Settles(base, stops, hooks, slot.cleanup, v, cs, m)
  }

  ghost predicate SettlesFields(base: set<nat>, stops: bool, hooks: Hooks, slots: seq<Slot>, fields: seq<FieldValue>, cs: Callables, m: Memory)
    decreases slots, 0
  {
    slots != [] ==>
      var field := FindField(fields, slots[0].ordinal);
      if field.None? then SettlesFields(base, stops, hooks, slots[1..], fields, cs, m)
      else
        var r := ReleaseSlot(hooks, slots[0], field.value, m);
        && SettlesSlot(base, stops, hooks, slots[0], field.value, cs, m)
        && (r.1 == Done ==>
              SettlesFields(base, stops, hooks, slots[1..], fields, OwesSlot(slots[0], field.value, cs).callables, r.0))
  }

  ghost predicate SettlesLanes(base: set<nat>, stops: bool, hooks: Hooks, slots: seq<Slot>, lanes: seq<Value>, cs: Callables, m: Memory)
    decreases slots, 0
  {
    slots != [] ==>
      if slots[0].ordinal >= |lanes| then SettlesLanes(base, stops, hooks, slots[1..], lanes, cs, m)
      else
        var v := lanes[slots[0].ordinal];
        var r := ReleaseSlot(hooks, slots[0], v, m);
        && SettlesSlot(base, stops, hooks, slots[0], v, cs, m)
        && (r.1 == Done ==> SettlesLanes(base, stops, hooks, slots[1..], lanes, OwesSlot(slots[0], v, cs).callables, r.0))
  }

  ghost predicate SettlesElements(base: set<nat>, stops: bool, hooks: Hooks, element: Plan, elements: seq<Value>, cs: Callables, m: Memory)
    decreases element, 2, |elements|
  {
    elements != [] ==>
      var r := Release(hooks, element, elements[0], m);
      && Settles(base, stops, hooks, element, elements[0], cs, m)
      && (r.1 == Done ==> SettlesElements(base, stops, hooks, element, elements[1..], Owes(element, elements[0], cs).callables, r.0))
  }

  lemma SameTicketsReleasable(m: Memory, a: seq<nat>, b: seq<nat>)
    requires SameTickets(a, b)
    ensures Releasable(m, a) <==> Releasable(m, b)
    ensures forall t :: t in a <==> t in b
  {
    forall t ensures Count(a, t) == Count(b, t) && (t in a <==> t in b) {
      CountPositive(a, t);
      CountPositive(b, t);
    }
  }

  /** Releasing what the hook left is exact for what was owed before it. */
  lemma AfterHook(base: set<nat>, stops: bool, inner: Plan, v: Value, cs: Callables, m: Memory, settled: seq<nat>, m': Memory, v': Value, r: (Memory, Outcome))
    requires Settled(base, inner, v, cs, m, settled, m', v') && Within(base, m, Owes(inner, v, cs).tickets)
    requires Exact(base, stops, m', Owes(inner, v', cs), r)
    ensures Exact(base, stops, m, Owes(inner, v, cs), r)
  {
    var left, owed := Owes(inner, v', cs).tickets, Owes(inner, v, cs).tickets;
    hide Owes, Matches;
    SameTicketsReleasable(m, settled + left, owed);
    ReleasableSplits(base, m, settled, m', left);
    if r.1 == Done { ConsumesThen(base, m, settled, m', left, r.0); }
  }

  lemma SettledLeavesWithin(base: set<nat>, inner: Plan, v: Value, cs: Callables, m: Memory, settled: seq<nat>, m': Memory, v': Value)
    requires Settled(base, inner, v, cs, m, settled, m', v') && Within(base, m, Owes(inner, v, cs).tickets)
    ensures Within(base, m', Owes(inner, v', cs).tickets)
  {
    hide Owes, Matches;
    SameTicketsReleasable(m, settled + Owes(inner, v', cs).tickets, Owes(inner, v, cs).tickets);
  }

  // ---------------------------------------------------------------------------
  // Any plan
  // ---------------------------------------------------------------------------

  /** A release whose hooks settle is exact for what its owner owes. */
  lemma {:induction false} SettledExact(base: set<nat>, stops: bool, hooks: Hooks, p: Plan, v: Value, cs: Callables, m: Memory)
    requires Settles(base, stops, hooks, p, v, cs, m) && Matches(p, v, cs.Keys) && Extends(cs, m.callables)
    requires Within(base, m, Owes(p, v, cs).tickets)
    ensures Exact(base, stops, m, Owes(p, v, cs), Release(hooks, p, v, m))
    decreases p, 1
  {
    hide Exact;
    NothingOwed(base, stops, m, cs);
    match p
    case NoCleanup =>
    case ParameterCleanup =>
    case RepresentedEffectCleanup =>
    case AllocationCleanup => TicketExact(base, stops, m, v.ticket, false, cs);
    case RawBufferCleanup => TicketExact(base, stops, m, v.ticket, true, cs);
    case CallableCleanup(_) => CallableExact(base, stops, hooks, p, v, cs, m);
    case EffectCleanup(slots) => LanesExact(base, stops, hooks, slots, v.lanes, cs, m);
    case EffectCompositeCleanup(alternatives) => SettledExact(base, stops, hooks, alternatives[v.alternative], v.effect, cs, m);
    case HookCleanup(_, _) => HookExact(base, stops, hooks, p, v, cs, m);
    case StructCleanup(slots) => if v.AggregateValue? { FieldsExact(base, stops, hooks, slots, v.fields, cs, m); }
    case ArrayCleanup(element) => if v.ArrayValue? { ElementsExact(base, stops, hooks, element, v.elements, cs, m); }
    case UnionCleanup(cases) =>
      if v.UnionValue? && FindCase(cases, v.member).Some? {
        SettledExact(base, stops, hooks, FindCase(cases, v.member).value, v.payload, cs, m);
      }
  }

  /** A hook settles its part and the plan releases the rest, or the hook stops because that could not be. */
  lemma {:induction false} HookExact(base: set<nat>, stops: bool, hooks: Hooks, p: Plan, v: Value, cs: Callables, m: Memory)
    requires p.HookCleanup?
    requires Settles(base, stops, hooks, p, v, cs, m) && Matches(p, v, cs.Keys) && Extends(cs, m.callables)
    requires Within(base, m, Owes(p, v, cs).tickets)
    ensures Exact(base, stops, m, Owes(p, v, cs), Release(hooks, p, v, m))
    decreases p, 0
  {
    var called := m.(called := m.called + [p.hook]);
    var r := hooks(p.hook, called, v);
    if r.Returned? {
      var settled :| Settled(base, p.inner, v, cs, called, settled, r.memory, r.owner);
      SettledLeavesWithin(base, p.inner, v, cs, called, settled, r.memory, r.owner);
      SettledExact(base, stops, hooks, p.inner, r.owner, cs, r.memory);
      AfterHook(base, stops, p.inner, v, cs, called, settled, r.memory, r.owner, Release(hooks, p.inner, r.owner, r.memory));
      SameAllocations(base, stops, m, called, Owes(p, v, cs), Release(hooks, p.inner, r.owner, r.memory));
    }
  }

  /** A callable is marked cleaned, and what it captured is released if it was still available. */
  lemma {:induction false} CallableExact(base: set<nat>, stops: bool, hooks: Hooks, p: Plan, v: Value, cs: Callables, m: Memory)
    requires p.CallableCleanup?
    requires Settles(base, stops, hooks, p, v, cs, m) && Matches(p, v, cs.Keys) && Extends(cs, m.callables)
    requires Within(base, m, Owes(p, v, cs).tickets)
    ensures Exact(base, stops, m, Owes(p, v, cs), Release(hooks, p, v, m))
    decreases p, 0
  {
    hide Exact;
    var marked := m.(callables := m.callables[v.ticket := Cleaned(m.callables[v.ticket])]);
    var left := cs[v.ticket := Cleaned(cs[v.ticket])];
    if cs[v.ticket] == Available {
      assert left.Keys == cs.Keys;
      FieldsExact(base, stops, hooks, p.slots, v.captures, left, marked);
      SameAllocations(base, stops, m, marked, OwesFields(p.slots, v.captures, left), ReleaseFields(hooks, p.slots, v.captures, marked));
    } else {
      NothingOwed(base, stops, marked, left);
      SameAllocations(base, stops, m, marked, Owed([], left), (marked, Done));
    }
  }

  lemma {:induction false} SlotExact(base: set<nat>, stops: bool, hooks: Hooks, slot: Slot, v: Value, cs: Callables, m: Memory)
    requires SettlesSlot(base, stops, hooks, slot, v, cs, m) && SlotMatches(slot, v, cs.Keys) && Extends(cs, m.callables)
    requires Within(base, m, OwesSlot(slot, v, cs).tickets)
    ensures Exact(base, stops, m, OwesSlot(slot, v, cs), ReleaseSlot(hooks, slot, v, m))
    decreases slot, 2
  {
    SettledExact(base, stops, hooks, slot.cleanup, v, cs, m);
  }

  lemma {:induction false} FieldsExact(base: set<nat>, stops: bool, hooks: Hooks, slots: seq<Slot>, fields: seq<FieldValue>, cs: Callables, m: Memory)
    requires SettlesFields(base, stops, hooks, slots, fields, cs, m) && FieldsMatch(slots, fields, cs.Keys) && Extends(cs, m.callables)
    requires Within(base, m, OwesFields(slots, fields, cs).tickets)
    ensures Exact(base, stops, m, OwesFields(slots, fields, cs), ReleaseFields(hooks, slots, fields, m))
    decreases slots, 0
  {
    hide Exact;
    if slots == [] {
      NothingOwed(base, stops, m, cs);
    } else {
      var field := FindField(fields, slots[0].ordinal);
      if field.None? {
        FieldsExact(base, stops, hooks, slots[1..], fields, cs, m);
      } else {
        var first := OwesSlot(slots[0], field.value, cs);
        SlotExact(base, stops, hooks, slots[0], field.value, cs, m);
        var r := ReleaseSlot(hooks, slots[0], field.value, m);
        ExactKeepsBase(base, stops, m, first, r);
        if r.1 == Done { FieldsExact(base, stops, hooks, slots[1..], fields, first.callables, r.0); }
        ExactThen(base, stops, m, first, r, OwesFields(slots[1..], fields, first.callables), ReleaseFields(hooks, slots[1..], fields, r.0));
      }
    }
  }

  lemma {:induction false} LanesExact(base: set<nat>, stops: bool, hooks: Hooks, slots: seq<Slot>, lanes: seq<Value>, cs: Callables, m: Memory)
    requires SettlesLanes(base, stops, hooks, slots, lanes, cs, m) && LanesMatch(slots, lanes, cs.Keys) && Extends(cs, m.callables)
    requires Within(base, m, OwesLanes(slots, lanes, cs).tickets)
    ensures Exact(base, stops, m, OwesLanes(slots, lanes, cs), ReleaseLanes(hooks, slots, lanes, m))
    decreases slots, 0
  {
    hide Exact;
    if slots == [] {
      NothingOwed(base, stops, m, cs);
    } else if slots[0].ordinal >= |lanes| {
      LanesExact(base, stops, hooks, slots[1..], lanes, cs, m);
    } else {
      var v := lanes[slots[0].ordinal];
      var first := OwesSlot(slots[0], v, cs);
      SlotExact(base, stops, hooks, slots[0], v, cs, m);
      var r := ReleaseSlot(hooks, slots[0], v, m);
      ExactKeepsBase(base, stops, m, first, r);
      if r.1 == Done { LanesExact(base, stops, hooks, slots[1..], lanes, first.callables, r.0); }
      ExactThen(base, stops, m, first, r, OwesLanes(slots[1..], lanes, first.callables), ReleaseLanes(hooks, slots[1..], lanes, r.0));
    }
  }

  lemma {:induction false} ElementsExact(base: set<nat>, stops: bool, hooks: Hooks, element: Plan, elements: seq<Value>, cs: Callables, m: Memory)
    requires SettlesElements(base, stops, hooks, element, elements, cs, m) && Extends(cs, m.callables)
    requires forall i :: 0 <= i < |elements| ==> Matches(element, elements[i], cs.Keys)
    requires Within(base, m, OwesElements(element, elements, cs).tickets)
    ensures Exact(base, stops, m, OwesElements(element, elements, cs), ReleaseElements(hooks, element, elements, m))
    decreases element, 2, |elements|
  {
    hide Exact;
    if elements == [] {
      NothingOwed(base, stops, m, cs);
    } else {
      var first := Owes(element, elements[0], cs);
      SettledExact(base, stops, hooks, element, elements[0], cs, m);
      var r := Release(hooks, element, elements[0], m);
      ExactKeepsBase(base, stops, m, first, r);
      if r.1 == Done { ElementsExact(base, stops, hooks, element, elements[1..], first.callables, r.0); }
      ExactThen(base, stops, m, first, r, OwesElements(element, elements[1..], first.callables), ReleaseElements(hooks, element, elements[1..], r.0));
    }
  }

  // ---------------------------------------------------------------------------
  // Hooks that always settle
  // ---------------------------------------------------------------------------

  /** The hook settles for every owner that fits the plan, in every memory. */
  ghost predicate AlwaysSettles(base: set<nat>, stops: bool, hooks: Hooks, hook: nat, inner: Plan) {
    forall v, cs: Callables, m: Memory ::
      Matches(inner, v, cs.Keys) && Extends(cs, m.callables) && Within(base, m, Owes(inner, v, cs).tickets) ==>
        HookSettles(base, stops, inner, v, cs, m, hooks(hook, m, v))
  }

  /** Every hook that occurs in the plan always settles. */
  ghost predicate Settling(base: set<nat>, stops: bool, hooks: Hooks, p: Plan) {
    match p
    case HookCleanup(hook, inner) => AlwaysSettles(base, stops, hooks, hook, inner) && Settling(base, stops, hooks, inner)
    case StructCleanup(slots) => forall i :: 0 <= i < |slots| ==> Settling(base, stops, hooks, slots[i].cleanup)
    case ArrayCleanup(element) => Settling(base, stops, hooks, element)
    case UnionCleanup(cases) => forall i :: 0 <= i < |cases| ==> Settling(base, stops, hooks, cases[i].cleanup)
    case CallableCleanup(slots) => forall i :: 0 <= i < |slots| ==> Settling(base, stops, hooks, slots[i].cleanup)
    case EffectCleanup(slots) => forall i :: 0 <= i < |slots| ==> Settling(base, stops, hooks, slots[i].cleanup)
    case EffectCompositeCleanup(alternatives) => forall i :: 0 <= i < |alternatives| ==> Settling(base, stops, hooks, alternatives[i])
    case _ => true
  }

  ghost predicate SlotsSettling(base: set<nat>, stops: bool, hooks: Hooks, slots: seq<Slot>) {
    forall i :: 0 <= i < |slots| ==> Settling(base, stops, hooks, slots[i].cleanup)
  }

  /** Then the hooks of every release settle. */
  lemma {:induction false} SettlingSettles(base: set<nat>, stops: bool, hooks: Hooks, p: Plan, v: Value, cs: Callables, m: Memory)
    requires Settling(base, stops, hooks, p) && Matches(p, v, cs.Keys) && Extends(cs, m.callables)
    requires Within(base, m, Owes(p, v, cs).tickets)
    ensures Settles(base, stops, hooks, p, v, cs, m)
    decreases p, 1
  {
    match p
    case HookCleanup(_, _) => SettlingHook(base, stops, hooks, p, v, cs, m);
    case StructCleanup(slots) => if v.AggregateValue? { SettlingFields(base, stops, hooks, slots, v.fields, cs, m); }
    case ArrayCleanup(element) => if v.ArrayValue? { SettlingElements(base, stops, hooks, element, v.elements, cs, m); }
    case UnionCleanup(cases) =>
      if v.UnionValue? && FindCase(cases, v.member).Some? {
        var i :| 0 <= i < |cases| && cases[i] == Case(v.member, FindCase(cases, v.member).value);
        SettlingSettles(base, stops, hooks, cases[i].cleanup, v.payload, cs, m);
      }
    case CallableCleanup(slots) =>
      if v.ticket in m.callables && cs[v.ticket] == Available {
        var marked := m.(callables := m.callables[v.ticket := Cleaned(m.callables[v.ticket])]);
        assert cs[v.ticket := Cleaned(cs[v.ticket])].Keys == cs.Keys;
        SettlingFields(base, stops, hooks, slots, v.captures, cs[v.ticket := Cleaned(cs[v.ticket])], marked);
      }
    case EffectCleanup(slots) => SettlingLanes(base, stops, hooks, slots, v.lanes, cs, m);
    case EffectCompositeCleanup(alternatives) =>
      SettlingSettles(base, stops, hooks, alternatives[v.alternative], v.effect, cs, m);
    case _ =>
  }

  lemma {:induction false} SettlingHook(base: set<nat>, stops: bool, hooks: Hooks, p: Plan, v: Value, cs: Callables, m: Memory)
    requires p.HookCleanup?
    requires Settling(base, stops, hooks, p) && Matches(p, v, cs.Keys) && Extends(cs, m.callables)
    requires Within(base, m, Owes(p, v, cs).tickets)
    ensures Settles(base, stops, hooks, p, v, cs, m)
    decreases p, 0
  {
    var called := m.(called := m.called + [p.hook]);
    var r := hooks(p.hook, called, v);
    assert HookSettles(base, stops, p.inner, v, cs, called, r);
    if r.Returned? {
      var settled :| Settled(base, p.inner, v, cs, called, settled, r.memory, r.owner);
      SettledLeavesWithin(base, p.inner, v, cs, called, settled, r.memory, r.owner);
      SettlingSettles(base, stops, hooks, p.inner, r.owner, cs, r.memory);
    }
  }

  /** One slot settles, and leaves what the slots after it need. */
  lemma {:induction false} SettlingSlot(base: set<nat>, stops: bool, hooks: Hooks, slot: Slot, v: Value, cs: Callables, m: Memory)
    requires Settling(base, stops, hooks, slot.cleanup) && SlotMatches(slot, v, cs.Keys) && Extends(cs, m.callables)
    requires Within(base, m, OwesSlot(slot, v, cs).tickets)
    ensures SettlesSlot(base, stops, hooks, slot, v, cs, m)
    ensures var r := ReleaseSlot(hooks, slot, v, m);
            r.1 == Done ==> base <= r.0.allocations.Keys && Extends(OwesSlot(slot, v, cs).callables, r.0.callables)
    decreases slot, 2
  {
    SettlingSettles(base, stops, hooks, slot.cleanup, v, cs, m);
    SlotExact(base, stops, hooks, slot, v, cs, m);
    ExactKeepsBase(base, stops, m, OwesSlot(slot, v, cs), ReleaseSlot(hooks, slot, v, m));
  }

  lemma {:induction false} SettlingFields(base: set<nat>, stops: bool, hooks: Hooks, slots: seq<Slot>, fields: seq<FieldValue>, cs: Callables, m: Memory)
    requires SlotsSettling(base, stops, hooks, slots) && FieldsMatch(slots, fields, cs.Keys) && Extends(cs, m.callables)
    requires Within(base, m, OwesFields(slots, fields, cs).tickets)
    ensures SettlesFields(base, stops, hooks, slots, fields, cs, m)
    decreases slots, 0
  {
    if slots != [] {
      var field := FindField(fields, slots[0].ordinal);
      if field.None? {
        SettlingFields(base, stops, hooks, slots[1..], fields, cs, m);
      } else {
        SettlingSlot(base, stops, hooks, slots[0], field.value, cs, m);
        var r := ReleaseSlot(hooks, slots[0], field.value, m);
        if r.1 == Done { SettlingFields(base, stops, hooks, slots[1..], fields, OwesSlot(slots[0], field.value, cs).callables, r.0); }
      }
    }
  }

  lemma {:induction false} SettlingLanes(base: set<nat>, stops: bool, hooks: Hooks, slots: seq<Slot>, lanes: seq<Value>, cs: Callables, m: Memory)
    requires SlotsSettling(base, stops, hooks, slots) && LanesMatch(slots, lanes, cs.Keys) && Extends(cs, m.callables)
    requires Within(base, m, OwesLanes(slots, lanes, cs).tickets)
    ensures SettlesLanes(base, stops, hooks, slots, lanes, cs, m)
    decreases slots, 0
  {
    if slots != [] {
      if slots[0].ordinal >= |lanes| {
        SettlingLanes(base, stops, hooks, slots[1..], lanes, cs, m);
      } else {
        var v := lanes[slots[0].ordinal];
        SettlingSlot(base, stops, hooks, slots[0], v, cs, m);
        var r := ReleaseSlot(hooks, slots[0], v, m);
        if r.1 == Done { SettlingLanes(base, stops, hooks, slots[1..], lanes, OwesSlot(slots[0], v, cs).callables, r.0); }
      }
    }
  }

  lemma {:induction false} SettlingElements(base: set<nat>, stops: bool, hooks: Hooks, element: Plan, elements: seq<Value>, cs: Callables, m: Memory)
    requires Settling(base, stops, hooks, element) && Extends(cs, m.callables)
    requires forall i :: 0 <= i < |elements| ==> Matches(element, elements[i], cs.Keys)
    requires Within(base, m, OwesElements(element, elements, cs).tickets)
    ensures SettlesElements(base, stops, hooks, element, elements, cs, m)
    decreases element, 2, |elements|
  {
    if elements != [] {
      var first := Owes(element, elements[0], cs);
      SettlingSettles(base, stops, hooks, element, elements[0], cs, m);
      SettledExact(base, stops, hooks, element, elements[0], cs, m);
      var r := Release(hooks, element, elements[0], m);
      ExactKeepsBase(base, stops, m, first, r);
      if r.1 == Done { SettlingElements(base, stops, hooks, element, elements[1..], first.callables, r.0); }
    }
  }

  // ---------------------------------------------------------------------------
  // Whole owners
  // ---------------------------------------------------------------------------

  /** Completed exactly if the tickets could be released; then each of them is dead and was released once, and no other allocation changed. */
  ghost predicate ReleasedOnce(base: set<nat>, m: Memory, ts: seq<nat>, r: (Memory, Outcome)) {
    && (r.1 == Done <==> Releasable(m, ts))
    && (r.1 == Done ==> forall t :: t in base ==>
          && t in r.0.allocations
          && (Live(r.0.allocations, t) <==> Live(m.allocations, t) && t !in ts)
          && Count(r.0.released, t) == Count(m.released, t) + (if t in ts then 1 else 0))
  }

  lemma ExactIsOnce(base: set<nat>, stops: bool, m: Memory, owed: Owed, r: (Memory, Outcome))
    requires Exact(base, stops, m, owed, r)
    ensures ReleasedOnce(base, m, owed.tickets, r)
  {
    if r.1 == Done {
      forall t ensures Count(owed.tickets, t) == if t in owed.tickets then 1 else 0 {
        CountPositive(owed.tickets, t);
      }
    }
  }

  /**
   The release of a whole owner whose hooks settle: it completes exactly when the tickets it owes are live and
   distinct, and otherwise traps or is stopped; completed, every allocation of `base` is dead if owed and as before
   if not, and each owed ticket was released once, by a hook or by the plan.
   */
  lemma ReleasesExactlyOnce(base: set<nat>, hooks: Hooks, p: Plan, owner: Value, m: Memory)
    requires Settles(base, true, hooks, p, owner, m.callables, m) && Matches(p, owner, m.callables.Keys)
    requires Within(base, m, Owes(p, owner, m.callables).tickets)
    ensures ReleasedOnce(base, m, Owes(p, owner, m.callables).tickets, Release(hooks, p, owner, m))
    ensures Release(hooks, p, owner, m).1 in {Done, Trap, Blocked}
  {
    hide Owes, Matches, Release, Settles, ReleasedOnce;
    SettledExact(base, true, hooks, p, owner, m.callables, m);
    ExactIsOnce(base, true, m, Owes(p, owner, m.callables), Release(hooks, p, owner, m));
  }

  /** No plan can tell the two values apart by what they owe. */
  ghost predicate OwnAlike(v: Value, v': Value) {
    && (forall p, known :: Matches(p, v', known) == Matches(p, v, known))
    && (forall p, cs :: Owes(p, v', cs) == Owes(p, v, cs))
  }

  /** A hook that leaves the allocations and callables that existed in their state, and an owner that owes what it owed. */
  ghost predicate HookKeeps(m: Memory, v: Value, r: HookResult) {
    && r.Returned? && Consumes(m.allocations.Keys, m, [], r.memory)
    && Extends(m.callables, r.memory.callables) && OwnAlike(v, r.owner)
  }

  ghost predicate Preserving(hooks: Hooks) {
    forall hook, m, v :: HookKeeps(m, v, hooks(hook, m, v))
  }

  lemma PreservingAlwaysSettles(base: set<nat>, hooks: Hooks, hook: nat, inner: Plan)
    requires Preserving(hooks)
    ensures AlwaysSettles(base, false, hooks, hook, inner)
  {
    hide Owes, Matches;
    forall v, cs: Callables, m: Memory | Matches(inner, v, cs.Keys) && Extends(cs, m.callables) && Within(base, m, Owes(inner, v, cs).tickets)
      ensures HookSettles(base, false, inner, v, cs, m, hooks(hook, m, v))
    {
      var r := hooks(hook, m, v);
      assert HookKeeps(m, v, r);
      assert [] + Owes(inner, r.owner, cs).tickets == Owes(inner, v, cs).tickets;
      assert Settled(base, inner, v, cs, m, [], r.memory, r.owner);
    }
  }

  lemma {:induction false} PreservingIsSettling(base: set<nat>, hooks: Hooks, p: Plan)
    requires Preserving(hooks)
    ensures Settling(base, false, hooks, p)
  {
    hide AlwaysSettles;
    match p
    case HookCleanup(hook, inner) =>
      PreservingAlwaysSettles(base, hooks, hook, inner);
      PreservingIsSettling(base, hooks, inner);
    case StructCleanup(slots) => forall i | 0 <= i < |slots| { PreservingIsSettling(base, hooks, slots[i].cleanup); }
    case ArrayCleanup(element) => PreservingIsSettling(base, hooks, element);
    case UnionCleanup(cases) => forall i | 0 <= i < |cases| { PreservingIsSettling(base, hooks, cases[i].cleanup); }
    case CallableCleanup(slots) => forall i | 0 <= i < |slots| { PreservingIsSettling(base, hooks, slots[i].cleanup); }
    case EffectCleanup(slots) => forall i | 0 <= i < |slots| { PreservingIsSettling(base, hooks, slots[i].cleanup); }
    case EffectCompositeCleanup(alternatives) => forall i | 0 <= i < |alternatives| { PreservingIsSettling(base, hooks, alternatives[i]); }
    case _ =>
  }

  /** Hooks that settle nothing themselves leave all that is owed to the plan, and a release that cannot complete traps. */
  lemma PreservingExact(base: set<nat>, hooks: Hooks, p: Plan, v: Value, cs: Callables, m: Memory)
    requires Preserving(hooks) && Matches(p, v, cs.Keys) && Extends(cs, m.callables)
    requires Within(base, m, Owes(p, v, cs).tickets)
    ensures Exact(base, false, m, Owes(p, v, cs), Release(hooks, p, v, m))
  {
    hide Owes, Matches, Release, Settles, Settling, Preserving, Exact;
    PreservingIsSettling(base, hooks, p);
    SettlingSettles(base, false, hooks, p, v, cs, m);
    SettledExact(base, false, hooks, p, v, cs, m);
  }

  lemma PreservingReleasesOnce(hooks: Hooks, p: Plan, owner: Value, m: Memory)
    requires Preserving(hooks) && Matches(p, owner, m.callables.Keys)
    requires forall t :: t in Owes(p, owner, m.callables).tickets ==> t in m.allocations
    ensures ReleasedOnce(m.allocations.Keys, m, Owes(p, owner, m.callables).tickets, Release(hooks, p, owner, m))
    ensures Release(hooks, p, owner, m).1 in {Done, Trap}
  {
    hide Owes, Matches, Release, Preserving, ReleasedOnce, Releasable, Consumes;
    PreservingExact(m.allocations.Keys, hooks, p, owner, m.callables, m);
    ExactIsOnce(m.allocations.Keys, false, m, Owes(p, owner, m.callables), Release(hooks, p, owner, m));
  }

  // ---------------------------------------------------------------------------
  // Plans without effect
  // ---------------------------------------------------------------------------

  ghost predicate Untouched(m: Memory, r: (Memory, Outcome)) {
    r.0.allocations == m.allocations && r.0.released == m.released && r.0.called == m.called
  }

  /** A plan without effect calls no hook and releases nothing, whatever value it is run on. */
  lemma {:induction false} EffectFreePlansTouchNothing(hooks: Hooks, p: Plan, v: Value, m: Memory)
    requires !HasEffect(p)
    ensures Untouched(m, Release(hooks, p, v, m))
    decreases p, 1
  {
    match p
    case StructCleanup(slots) => if v.AggregateValue? { FieldsTouchNothing(hooks, slots, v.fields, m); }
    case ArrayCleanup(element) => if v.ArrayValue? { ElementsTouchNothing(hooks, element, v.elements, m); }
    case UnionCleanup(cases) =>
      if v.UnionValue? && FindCase(cases, v.member).Some? {
        var i :| 0 <= i < |cases| && cases[i] == Case(v.member, FindCase(cases, v.member).value);
        assert !HasHook(cases[i].cleanup) && !Reclaims(cases[i].cleanup);
        EffectFreePlansTouchNothing(hooks, FindCase(cases, v.member).value, v.payload, m);
      }
    case CallableCleanup(slots) =>
      if v.CallableValue? && v.ticket in m.callables {
        FieldsTouchNothing(hooks, slots, v.captures, m.(callables := m.callables[v.ticket := Cleaned(m.callables[v.ticket])]));
      }
    case EffectCleanup(slots) => if v.EffectValue? { LanesTouchNothing(hooks, slots, v.lanes, m); }
    case EffectCompositeCleanup(alternatives) =>
      if v.EffectCompositeValue? && v.alternative < |alternatives| {
        assert !HasHook(alternatives[v.alternative]) && !Reclaims(alternatives[v.alternative]);
        EffectFreePlansTouchNothing(hooks, alternatives[v.alternative], v.effect, m);
      }
    case _ =>
  }

  ghost predicate SlotsEffectFree(slots: seq<Slot>) {
    forall i :: 0 <= i < |slots| ==> !HasHook(slots[i].cleanup) && !Reclaims(slots[i].cleanup)
  }

  lemma {:induction false} SlotTouchesNothing(hooks: Hooks, slot: Slot, v: Value, m: Memory)
    requires !HasEffect(slot.cleanup)
    ensures Untouched(m, ReleaseSlot(hooks, slot, v, m))
    decreases slot, 2
  {
    EffectFreePlansTouchNothing(hooks, slot.cleanup, v, m);
  }

  lemma {:induction false} FieldsTouchNothing(hooks: Hooks, slots: seq<Slot>, fields: seq<FieldValue>, m: Memory)
    requires SlotsEffectFree(slots)
    ensures Untouched(m, ReleaseFields(hooks, slots, fields, m))
    decreases slots, 0
  {
    if slots != [] {
      var field := FindField(fields, slots[0].ordinal);
      if field.None? {
        FieldsTouchNothing(hooks, slots[1..], fields, m);
      } else {
        SlotTouchesNothing(hooks, slots[0], field.value, m);
        FieldsTouchNothing(hooks, slots[1..], fields, ReleaseSlot(hooks, slots[0], field.value, m).0);
      }
    }
  }

  lemma {:induction false} LanesTouchNothing(hooks: Hooks, slots: seq<Slot>, lanes: seq<Value>, m: Memory)
    requires SlotsEffectFree(slots)
    ensures Untouched(m, ReleaseLanes(hooks, slots, lanes, m))
    decreases slots, 0
  {
    if slots != [] {
      if slots[0].ordinal >= |lanes| {
        LanesTouchNothing(hooks, slots[1..], lanes, m);
      } else {
        SlotTouchesNothing(hooks, slots[0], lanes[slots[0].ordinal], m);
        LanesTouchNothing(hooks, slots[1..], lanes, ReleaseSlot(hooks, slots[0], lanes[slots[0].ordinal], m).0);
      }
    }
  }

  lemma {:induction false} ElementsTouchNothing(hooks: Hooks, element: Plan, elements: seq<Value>, m: Memory)
    requires !HasEffect(element)
    ensures Untouched(m, ReleaseElements(hooks, element, elements, m))
    decreases element, 2, |elements|
  {
    if elements != [] {
      EffectFreePlansTouchNothing(hooks, element, elements[0], m);
      ElementsTouchNothing(hooks, element, elements[1..], Release(hooks, element, elements[0], m).0);
    }
  }
}
