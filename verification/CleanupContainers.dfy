/**
 The drop hooks of the library's containers. A box drops its element and leaves its buffer to the plan; a vector
 drops its elements and releases its buffer itself. Both settle, and with either everything that is owned through
 the buffer, and the buffer, is released exactly once.
 */
module CleanupContainers {
  import opened Wrappers
  import opened Storage
  import opened Cleanup
  import opened CleanupRelease

  // ---------------------------------------------------------------------------
  // Dropping initialized slots
  // ---------------------------------------------------------------------------

  function Emptied(m: Memory, t: nat, i: nat): Memory
    requires t in m.allocations
  {
    m.(allocations := m.allocations[t := m.allocations[t].(values := m.allocations[t].values - {i})])
  }

  predicate HasSlot(m: Memory, t: nat, i: nat) {
    Live(m.allocations, t) && i in m.allocations[t].values
  }

  /** Drops one slot: its value is released first, and only then the slot given up. */
  function DropSlot(hooks: Hooks, element: Plan, t: nat, i: nat, m: Memory): (Memory, Outcome) {
    if !HasSlot(m, t, i) then (m, Trap)
    else
      var r := Release(hooks, element, m.allocations[t].values[i], m);
      if r.1 != Done then r else if !HasSlot(r.0, t, i) then (r.0, Fault) else (Emptied(r.0, t, i), Done)
  }

  function DropSlots(hooks: Hooks, element: Plan, t: nat, i: nat, n: nat, m: Memory): (Memory, Outcome)
    decreases n - i
  {
    if i >= n then (m, Done)
    else
      var r := DropSlot(hooks, element, t, i, m);
      if r.1 != Done then r else DropSlots(hooks, element, t, i + 1, n, r.0)
  }

  /** A slot is dropped while its buffer is live and it is initialized: its value is released, and then only the slot is gone. */
  lemma DropSlotMeans(hooks: Hooks, element: Plan, t: nat, i: nat, m: Memory)
    ensures var r := DropSlot(hooks, element, t, i, m);
            if t in m.allocations && m.allocations[t].active && i in m.allocations[t].values then
              var released := Release(hooks, element, m.allocations[t].values[i], m);
              if released.1 != Done then r == released
              else if t in released.0.allocations && released.0.allocations[t].active && i in released.0.allocations[t].values then
                && r.1 == Done && r.0 == released.0.(allocations := r.0.allocations) && r.0.allocations.Keys == released.0.allocations.Keys
                && r.0.allocations[t].active && r.0.allocations[t].values == released.0.allocations[t].values - {i}
                && forall u :: u in released.0.allocations && u != t ==> r.0.allocations[u] == released.0.allocations[u]
              else r == (released.0, Fault)
            else r == (m, Trap)
  {
    hide Release;
  }

  /** The slots hold these values when their turns come, and the hooks called to drop them settle. */
  ghost predicate SlotsSettle(base: set<nat>, hooks: Hooks, element: Plan, t: nat, i: nat, es: seq<Value>, cs: Callables, m: Memory)
    decreases |es|
  {
    es != [] ==>
      var r := Release(hooks, element, es[0], m);
      && HasSlot(m, t, i) && m.allocations[t].values[i] == es[0]
      && Settles(base, true, hooks, element, es[0], cs, m)
      && (r.1 == Done ==>
            && HasSlot(r.0, t, i)
            && SlotsSettle(base, hooks, element, t, i + 1, es[1..], Owes(element, es[0], cs).callables, Emptied(r.0, t, i)))
  }

  ghost predicate AllMatch(element: Plan, es: seq<Value>, known: set<nat>) {
    forall i :: 0 <= i < |es| ==> Matches(element, es[i], known)
  }

  /** What a slot holds is nothing to a release. */
  lemma EmptiedExact(base: set<nat>, m: Memory, t: nat, i: nat, owed: Owed, r: (Memory, Outcome), rest: Owed, r': (Memory, Outcome))
    requires t in r.0.allocations
    ensures Exact(base, true, m, owed, r) ==> Exact(base, true, m, owed, (Emptied(r.0, t, i), r.1))
    ensures Exact(base, true, Emptied(r.0, t, i), rest, r') ==> Exact(base, true, r.0, rest, r')
  {
    var emptied := Emptied(r.0, t, i);
    assert forall u :: Live(emptied.allocations, u) == Live(r.0.allocations, u);
  }

  /** Dropping the slots releases exactly what their values owe. */
  lemma {:induction false} SlotsExact(base: set<nat>, hooks: Hooks, element: Plan, t: nat, i: nat, es: seq<Value>, cs: Callables, m: Memory)
    requires SlotsSettle(base, hooks, element, t, i, es, cs, m) && AllMatch(element, es, cs.Keys) && Extends(cs, m.callables)
    requires Within(base, m, OwesElements(element, es, cs).tickets)
    ensures Exact(base, true, m, OwesElements(element, es, cs), DropSlots(hooks, element, t, i, i + |es|, m))
    decreases |es|
  {
    hide Exact, Release, Owes, Settles, Matches;
    if es == [] {
      NothingOwed(base, true, m, cs);
    } else {
      var first := Owes(element, es[0], cs);
      var rest := OwesElements(element, es[1..], first.callables);
      SettledExact(base, true, hooks, element, es[0], cs, m);
      var r := Release(hooks, element, es[0], m);
      ExactKeepsBase(base, true, m, first, r);
      if r.1 == Done {
        var emptied := Emptied(r.0, t, i);
        var r' := DropSlots(hooks, element, t, i + 1, i + |es|, emptied);
        EmptiedExact(base, m, t, i, first, r, rest, r');
        SlotsExact(base, hooks, element, t, i + 1, es[1..], first.callables, emptied);
        ExactThen(base, true, m, first, r, rest, r');
      } else {
        ExactThen(base, true, m, first, r, rest, r);
      }
    }
  }

  /** Dropping the slots and then releasing the buffer is exact for both together. */
  lemma SlotsThenTicket(base: set<nat>, hooks: Hooks, element: Plan, t: nat, es: seq<Value>, cs: Callables, m: Memory)
    requires SlotsSettle(base, hooks, element, t, 0, es, cs, m) && AllMatch(element, es, cs.Keys) && Extends(cs, m.callables)
    requires Within(base, m, OwesElements(element, es, cs).tickets + [t])
    ensures var owed, dropped := OwesElements(element, es, cs), DropSlots(hooks, element, t, 0, |es|, m);
            && Exact(base, true, m, owed, dropped)
            && Exact(base, true, m, Owed(owed.tickets + [t], owed.callables),
                     if dropped.1 != Done then dropped else ReleaseTicket(dropped.0, t, true))
  {
    var owed, dropped := OwesElements(element, es, cs), DropSlots(hooks, element, t, 0, |es|, m);
    assert forall u :: u in owed.tickets ==> u in owed.tickets + [t];
    SlotsExact(base, hooks, element, t, 0, es, cs, m);
    ExactKeepsBase(base, true, m, owed, dropped);
    hide Exact, DropSlots, OwesElements, SlotsSettle;
    if dropped.1 == Done { TicketExact(base, true, dropped.0, t, true, owed.callables); }
    ExactThen(base, true, m, owed, dropped, Owed([t], owed.callables), ReleaseTicket(dropped.0, t, true));
  }

  // ---------------------------------------------------------------------------
  // Structs of two fields
  // ---------------------------------------------------------------------------

  function Two(x: Value, y: Value): Value {
    AggregateValue([FieldValue(0, x), FieldValue(1, y)])
  }

  function TwoPlan(p: Plan, q: Plan): Plan {
    StructCleanup([Slot(0, p), Slot(1, q)])
  }

  lemma TwoFields(x: Value, y: Value)
    ensures FindField(Two(x, y).fields, 0) == Some(x) && FindField(Two(x, y).fields, 1) == Some(y)
  {
    assert Two(x, y).fields[1..] == [FieldValue(1, y)];
  }

  lemma TwoMatches(p: Plan, q: Plan, x: Value, y: Value, known: set<nat>)
    ensures Matches(TwoPlan(p, q), Two(x, y), known) <==> Matches(p, x, known) && Matches(q, y, known)
  {
    TwoFields(x, y);
    var slots := TwoPlan(p, q).slots;
    assert SlotMatches(slots[0], x, known) == Matches(p, x, known) && SlotMatches(slots[1], y, known) == Matches(q, y, known);
  }

  lemma TwoOwe(p: Plan, q: Plan, x: Value, y: Value, cs: Callables)
    ensures var first := Owes(p, x, cs);
            var rest := Owes(q, y, first.callables);
            Owes(TwoPlan(p, q), Two(x, y), cs) == Owed(first.tickets + rest.tickets, rest.callables)
  {
    TwoFields(x, y);
    var slots, fields := TwoPlan(p, q).slots, Two(x, y).fields;
    assert slots[1..] == [slots[1]] && slots[1..][1..] == [];
    hide FindField, Owes;
    var first := OwesSlot(slots[0], x, cs);
    var rest := OwesSlot(slots[1], y, first.callables);
    assert OwesFields(slots[1..], fields, first.callables) == Then(rest, Owed([], rest.callables));
    assert rest.tickets + [] == rest.tickets;
    assert OwesFields(slots, fields, cs) == Then(first, OwesFields(slots[1..], fields, first.callables));
    TwoOweFields(p, q, x, y, cs);
    OweSlots(p, q, x, y, cs);
  }

  lemma TwoOweFields(p: Plan, q: Plan, x: Value, y: Value, cs: Callables)
    ensures Owes(TwoPlan(p, q), Two(x, y), cs) == OwesFields(TwoPlan(p, q).slots, Two(x, y).fields, cs)
  {
    hide OwesFields;
  }

  lemma OweSlots(p: Plan, q: Plan, x: Value, y: Value, cs: Callables)
    ensures OwesSlot(Slot(0, p), x, cs) == Owes(p, x, cs)
    ensures forall cs' :: OwesSlot(Slot(1, q), y, cs') == Owes(q, y, cs')
  {
    hide Owes;
  }

  lemma TwoRelease(hooks: Hooks, p: Plan, q: Plan, x: Value, y: Value, m: Memory)
    ensures var first := Release(hooks, p, x, m);
            Release(hooks, TwoPlan(p, q), Two(x, y), m) == if first.1 != Done then first else Release(hooks, q, y, first.0)
  {
    TwoFields(x, y);
    var slots, fields := TwoPlan(p, q).slots, Two(x, y).fields;
    assert slots[1..] == [slots[1]] && slots[1..][1..] == [];
    TwoReleaseFields(hooks, p, q, x, y, m);
    hide FindField, Release;
    var first := ReleaseSlot(hooks, slots[0], x, m);
    ReleaseSlotIs(hooks, slots[0], x, m);
    if first.1 == Done {
      ReleaseSlotIs(hooks, slots[1], y, first.0);
      var second := ReleaseSlot(hooks, slots[1], y, first.0);
      assert ReleaseFields(hooks, slots[1..][1..], fields, second.0) == (second.0, Done);
      assert ReleaseFields(hooks, slots[1..], fields, first.0) == second;
    }
  }

  lemma TwoReleaseFields(hooks: Hooks, p: Plan, q: Plan, x: Value, y: Value, m: Memory)
    ensures Release(hooks, TwoPlan(p, q), Two(x, y), m) == ReleaseFields(hooks, TwoPlan(p, q).slots, Two(x, y).fields, m)
  {
    hide ReleaseFields;
  }

  lemma ReleaseSlotIs(hooks: Hooks, slot: Slot, v: Value, m: Memory)
    ensures ReleaseSlot(hooks, slot, v, m) == Release(hooks, slot.cleanup, v, m)
  {
    hide Release;
  }

  lemma {:induction false} HooklessIsSettling(base: set<nat>, hooks: Hooks, p: Plan)
    requires !HasHook(p)
    ensures Settling(base, true, hooks, p)
  {
    match p
    case StructCleanup(slots) => forall i | 0 <= i < |slots| { HooklessIsSettling(base, hooks, slots[i].cleanup); }
    case ArrayCleanup(element) => HooklessIsSettling(base, hooks, element);
    case UnionCleanup(cases) => forall i | 0 <= i < |cases| { HooklessIsSettling(base, hooks, cases[i].cleanup); }
    case CallableCleanup(slots) => forall i | 0 <= i < |slots| { HooklessIsSettling(base, hooks, slots[i].cleanup); }
    case EffectCleanup(slots) => forall i | 0 <= i < |slots| { HooklessIsSettling(base, hooks, slots[i].cleanup); }
    case EffectCompositeCleanup(alternatives) => forall i | 0 <= i < |alternatives| { HooklessIsSettling(base, hooks, alternatives[i]); }
    case _ =>
  }

  // ---------------------------------------------------------------------------
  // Vectors
  // ---------------------------------------------------------------------------

  const EMPTY: nat := 0
  const FULL: nat := 1

  const STORAGE_PLAN := UnionCleanup([Case(EMPTY, NoCleanup), Case(FULL, StructCleanup([Slot(0, RawBufferCleanup)]))])

  /** A vector is a union of an anchor and a buffer, and a length. */
  const VECTOR_PLAN := TwoPlan(STORAGE_PLAN, NoCleanup)

  function FullStorage(t: nat): Value {
    UnionValue(FULL, AggregateValue([FieldValue(0, RawBufferValue(t))]))
  }

  function FullVector(t: nat, n: nat): Value {
    Two(FullStorage(t), Plain(n))
  }

  const EMPTY_VECTOR := Two(UnionValue(EMPTY, ArrayValue([])), Plain(0))

  /** The vector's hook: leave an empty vector, drop the elements, release the buffer. */
  function VectorDrop(hooks: Hooks, element: Plan, t: nat, n: nat, m: Memory): HookResult {
    var dropped := DropSlots(hooks, element, t, 0, n, m);
    if dropped.1 != Done then Stopped
    else
      var freed := ReleaseTicket(dropped.0, t, true);
      if freed.1 != Done then Stopped else Returned(freed.0, EMPTY_VECTOR)
  }

  lemma FullStorageUnfolds(t: nat, cs: Callables)
    ensures Matches(STORAGE_PLAN, FullStorage(t), cs.Keys) && Owes(STORAGE_PLAN, FullStorage(t), cs) == Owed([t], cs)
  {
    var cases, slots, fields := STORAGE_PLAN.cases, [Slot(0, RawBufferCleanup)], [FieldValue(0, RawBufferValue(t))];
    assert cases[1..] == [cases[1]] && FindCase(cases, FULL) == Some(StructCleanup(slots));
    assert FindField(fields, 0) == Some(RawBufferValue(t)) && slots[1..] == [];
    assert OwesSlot(slots[0], RawBufferValue(t), cs) == Owed([t], cs) && SlotMatches(slots[0], RawBufferValue(t), cs.Keys);
    assert OwesFields(slots[1..], fields, cs) == Owed([], cs) && [t] + [] == [t];
    assert Owes(StructCleanup(slots), AggregateValue(fields), cs) == Owed([t], cs);
    assert Matches(StructCleanup(slots), AggregateValue(fields), cs.Keys);
  }

  /** A full vector owes its buffer; an empty one owes nothing and is released without effect. */
  lemma VectorUnfolds(hooks: Hooks, t: nat, n: nat, cs: Callables, m: Memory)
    ensures Matches(VECTOR_PLAN, FullVector(t, n), cs.Keys) && Owes(VECTOR_PLAN, FullVector(t, n), cs) == Owed([t], cs)
    ensures Matches(VECTOR_PLAN, EMPTY_VECTOR, cs.Keys) && Owes(VECTOR_PLAN, EMPTY_VECTOR, cs) == Owed([], cs)
    ensures Release(hooks, VECTOR_PLAN, EMPTY_VECTOR, m) == (m, Done)
  {
    FullStorageUnfolds(t, cs);
    assert FindCase(STORAGE_PLAN.cases, EMPTY) == Some(NoCleanup);
    var anchor := UnionValue(EMPTY, ArrayValue([]));
    assert Owes(STORAGE_PLAN, anchor, cs) == Owed([], cs) && Matches(STORAGE_PLAN, anchor, cs.Keys);
    assert Release(hooks, STORAGE_PLAN, anchor, m) == (m, Done);
    assert [t] + [] == [t];
    TwoMatches(STORAGE_PLAN, NoCleanup, FullStorage(t), Plain(n), cs.Keys);
    TwoMatches(STORAGE_PLAN, NoCleanup, anchor, Plain(0), cs.Keys);
    TwoOwe(STORAGE_PLAN, NoCleanup, FullStorage(t), Plain(n), cs);
    TwoOwe(STORAGE_PLAN, NoCleanup, anchor, Plain(0), cs);
    TwoRelease(hooks, STORAGE_PLAN, NoCleanup, anchor, Plain(0), m);
  }

  lemma VectorPlanIsHookless()
    ensures !HasHook(VECTOR_PLAN)
  {
    var full := StructCleanup([Slot(0, RawBufferCleanup)]);
    assert !HasHook(full) && !HasHook(NoCleanup);
    assert !HasHook(STORAGE_PLAN);
  }

  /** What lies in a vector's buffer settles when the hook drops it. */
  ghost predicate VectorReady(base: set<nat>, hooks: Hooks, hook: nat, inner: Hooks, element: Plan, t: nat, es: seq<Value>, cs: Callables, m: Memory) {
    var called := m.(called := m.called + [hook]);
    && hooks(hook, called, FullVector(t, |es|)) == VectorDrop(inner, element, t, |es|, called)
    && SlotsSettle(base, inner, element, t, 0, es, cs, called) && AllMatch(element, es, cs.Keys) && Extends(cs, m.callables)
    && Within(base, m, OwesElements(element, es, cs).tickets + [t])
  }

  lemma HookUnfolds(hooks: Hooks, hook: nat, inner: Plan, v: Value, m: Memory)
    ensures var called := m.(called := m.called + [hook]);
            Release(hooks, HookCleanup(hook, inner), v, m)
            == match hooks(hook, called, v)
               case Absent => (m, MissingFunction(hook))
               case Stopped => (called, Blocked)
               case Returned(m', v') => Release(hooks, inner, v', m')
  {
  }

  /** A vector is released with everything its elements own, each ticket once. */
  lemma VectorExact(base: set<nat>, hooks: Hooks, hook: nat, inner: Hooks, element: Plan, t: nat, es: seq<Value>, cs: Callables, m: Memory)
    requires VectorReady(base, hooks, hook, inner, element, t, es, cs, m)
    ensures var owed := OwesElements(element, es, cs);
            Exact(base, true, m, Owed(owed.tickets + [t], owed.callables), Release(hooks, HookCleanup(hook, VECTOR_PLAN), FullVector(t, |es|), m))
  {
    var called := m.(called := m.called + [hook]);
    var owed, dropped := OwesElements(element, es, cs), DropSlots(inner, element, t, 0, |es|, called);
    SlotsThenTicket(base, inner, element, t, es, cs, called);
    HookUnfolds(hooks, hook, VECTOR_PLAN, FullVector(t, |es|), m);
    hide DropSlots, ReleaseTicket, Owes, OwesElements, Release, SlotsSettle, Matches, Exact;
    var freed := ReleaseTicket(dropped.0, t, true);
    var all, r := Owed(owed.tickets + [t], owed.callables), if dropped.1 != Done then dropped else freed;
    if r.1 == Done {
      VectorUnfolds(hooks, t, |es|, cs, r.0);
      SameAllocations(base, true, m, called, all, r);
    } else {
      StoppedExact(base, called, all, r);
      SameAllocations(base, true, m, called, all, (called, Blocked));
    }
  }

  /** A hook that stops where its release failed. */
  lemma StoppedExact(base: set<nat>, m: Memory, owed: Owed, r: (Memory, Outcome))
    requires Exact(base, true, m, owed, r) && r.1 != Done
    ensures Exact(base, true, m, owed, (m, Blocked))
  {
  }

  /** Where the elements own nothing of `base` and leave the callables be, the vector's hook settles: it releases the buffer the vector owed. */
  lemma VectorSettles(base: set<nat>, hooks: Hooks, hook: nat, inner: Hooks, element: Plan, t: nat, es: seq<Value>, cs: Callables, m: Memory)
    requires VectorReady(base, hooks, hook, inner, element, t, es, cs, m) && OwesElements(element, es, cs) == Owed([], cs)
    ensures Settles(base, true, hooks, HookCleanup(hook, VECTOR_PLAN), FullVector(t, |es|), cs, m)
  {
    var called := m.(called := m.called + [hook]);
    var dropped := DropSlots(inner, element, t, 0, |es|, called);
    SlotsThenTicket(base, inner, element, t, es, cs, called);
    assert [] + [t] == [t];
    var r := hooks(hook, called, FullVector(t, |es|));
    VectorUnfolds(hooks, t, |es|, cs, called);
    if r.Returned? {
      assert [t] + [] == [t];
      assert Settled(base, VECTOR_PLAN, FullVector(t, |es|), cs, called, [t], r.memory, EMPTY_VECTOR);
      VectorPlanIsHookless();
      HooklessIsSettling(base, hooks, VECTOR_PLAN);
      SettlingSettles(base, true, hooks, VECTOR_PLAN, EMPTY_VECTOR, cs, r.memory);
    }
  }

  // ---------------------------------------------------------------------------
  // Boxes
  // ---------------------------------------------------------------------------

  const STATE_PLAN := UnionCleanup([Case(EMPTY, NoCleanup), Case(FULL, NoCleanup)])

  /** A box is an occupancy marker and a buffer of one slot. */
  const BOX_PLAN := TwoPlan(STATE_PLAN, RawBufferCleanup)

  function Box(state: nat, t: nat): Value {
    Two(UnionValue(state, Plain(0)), RawBufferValue(t))
  }

  /** The box's hook: mark it vacant and drop the element; the plan releases the buffer. */
  function BoxDrop(hooks: Hooks, element: Plan, t: nat, m: Memory): HookResult {
    var dropped := DropSlots(hooks, element, t, 0, 1, m);
    if dropped.1 != Done then Stopped else Returned(dropped.0, Box(EMPTY, t))
  }

  lemma BoxReleases(hooks: Hooks, t: nat, m: Memory)
    ensures Release(hooks, BOX_PLAN, Box(EMPTY, t), m) == ReleaseTicket(m, t, true)
  {
    assert Release(hooks, STATE_PLAN, UnionValue(EMPTY, Plain(0)), m) == (m, Done);
    TwoRelease(hooks, STATE_PLAN, RawBufferCleanup, UnionValue(EMPTY, Plain(0)), RawBufferValue(t), m);
  }

  /** An occupied box is released with everything its element owns, each ticket once. */
  lemma BoxExact(base: set<nat>, hooks: Hooks, hook: nat, inner: Hooks, element: Plan, t: nat, e: Value, cs: Callables, m: Memory)
    requires var called := m.(called := m.called + [hook]);
             && hooks(hook, called, Box(FULL, t)) == BoxDrop(inner, element, t, called)
             && SlotsSettle(base, inner, element, t, 0, [e], cs, called) && AllMatch(element, [e], cs.Keys)
    requires Extends(cs, m.callables) && Within(base, m, OwesElements(element, [e], cs).tickets + [t])
    ensures var owed := OwesElements(element, [e], cs);
            Exact(base, true, m, Owed(owed.tickets + [t], owed.callables), Release(hooks, HookCleanup(hook, BOX_PLAN), Box(FULL, t), m))
  {
    var called := m.(called := m.called + [hook]);
    var dropped := DropSlots(inner, element, t, 0, 1, called);
    SlotsThenTicket(base, inner, element, t, [e], cs, called);
    HookUnfolds(hooks, hook, BOX_PLAN, Box(FULL, t), m);
    hide DropSlots, ReleaseTicket, Owes, OwesElements, Release, SlotsSettle, Matches, Exact;
    var owed := OwesElements(element, [e], cs);
    var all := Owed(owed.tickets + [t], owed.callables);
    if dropped.1 == Done {
      BoxReleases(hooks, t, dropped.0);
      SameAllocations(base, true, m, called, all, ReleaseTicket(dropped.0, t, true));
    } else {
      StoppedExact(base, called, all, dropped);
      SameAllocations(base, true, m, called, all, (called, Blocked));
    }
  }
}
