/** Cleanup as the evaluator runs it, over its own allocations and callables, updated in place. */
module CleanupExecution {
  import opened Storage
  import opened Cleanup

  class Execution {
    var allocations: Allocations
    var callables: Callables
    var released: seq<nat>
    var called: seq<nat>

    ghost function Contents(): Memory
      reads this
    {
      Memory(allocations, callables, released, called)
    }

    constructor (m: Memory)
      ensures Contents() == m
    {
      allocations, callables, released, called := m.allocations, m.callables, m.released, m.called;
    }

    /** Consumes a ticket, or reports that it was not live. */
    method ReclaimTicket(ticket: nat, clear: bool) returns (outcome: Outcome)
      modifies this
      ensures (Contents(), outcome) == ReleaseTicket(old(Contents()), ticket, clear)
    {
      if ticket !in allocations || !allocations[ticket].active { return Trap; }
      var values := allocations[ticket].values;
      if clear { values := map[]; }
      allocations := allocations[ticket := Allocation(false, values)];
      released := released + [ticket];
      return Done;
    }

    method ReleaseThroughPlan(hooks: Hooks, p: Plan, owner: Value) returns (outcome: Outcome)
      modifies this
      ensures (Contents(), outcome) == Release(hooks, p, owner, old(Contents()))
      decreases p, 1
    {
      match p
      case NoCleanup => return Done;
      case ParameterCleanup => return Done;
      case AllocationCleanup =>
        if !owner.AllocationValue? { return Fault; }
        outcome := ReclaimTicket(owner.ticket, false);
      case RawBufferCleanup =>
        if !owner.RawBufferValue? { return Fault; }
        outcome := ReclaimTicket(owner.ticket, true);
      case CallableCleanup(slots) =>
        if !owner.CallableValue? || owner.ticket !in callables { return Fault; }
        var wasAvailable := callables[owner.ticket] == Available;
        if callables[owner.ticket] != Consumed {
          callables := callables[owner.ticket := CallableState.Released];
        } else {
          assert callables == callables[owner.ticket := Consumed];
        }
        if !wasAvailable { return Done; }
        outcome := ReleaseSlots(hooks, slots, owner.captures);
      case EffectCleanup(slots) =>
        if !owner.EffectValue? { return Fault; }
        outcome := ReleaseEffectLanes(hooks, slots, owner.lanes);
      case EffectCompositeCleanup(alternatives) =>
        if !owner.EffectCompositeValue? || owner.alternative >= |alternatives| { return Fault; }
        outcome := ReleaseThroughPlan(hooks, alternatives[owner.alternative], owner.effect);
      case HookCleanup(hook, inner) =>
        outcome := RunHook(hooks, p, owner);
      case StructCleanup(slots) =>
        if !owner.AggregateValue? { return Done; }
        outcome := ReleaseSlots(hooks, slots, owner.fields);
      case ArrayCleanup(element) =>
        if !owner.ArrayValue? { return Done; }
        ghost var before := Contents();
        for i := 0 to |owner.elements|
          invariant ReleaseElements(hooks, element, owner.elements, before)
                    == ReleaseElements(hooks, element, owner.elements[i..], Contents())
        {
          assert owner.elements[i..][1..] == owner.elements[i + 1..];
          outcome := ReleaseThroughPlan(hooks, element, owner.elements[i]);
          if outcome != Done { return; }
        }
        return Done;
      case UnionCleanup(cases) =>
        if !owner.UnionValue? { return Done; }
        var active := FindCase(cases, owner.member);
        if active.None? { return Done; }
        outcome := ReleaseThroughPlan(hooks, active.value, owner.payload);
      case RepresentedCallableCleanup => return Fault;
      case RepresentedEffectCleanup => return Done;
    }

    /** Calls the hook on the owner, then cleans what the owner became. */
    method RunHook(hooks: Hooks, p: Plan, owner: Value) returns (outcome: Outcome)
      requires p.HookCleanup?
      modifies this
      ensures (Contents(), outcome) == Release(hooks, p, owner, old(Contents()))
      decreases p, 0
    {
      var result := hooks(p.hook, Memory(allocations, callables, released, called + [p.hook]), owner);
      match result
      case Absent => return MissingFunction(p.hook);
      case Stopped =>
        called := called + [p.hook];
        return Blocked;
      case Returned(m, updated) =>
        allocations, callables, released, called := m.allocations, m.callables, m.released, m.called;
        outcome := ReleaseThroughPlan(hooks, p.inner, updated);
    }

    method ReleaseOneSlot(hooks: Hooks, slot: Slot, owner: Value) returns (outcome: Outcome)
      modifies this
      ensures (Contents(), outcome) == ReleaseSlot(hooks, slot, owner, old(Contents()))
      decreases slot, 2
    {
      outcome := ReleaseThroughPlan(hooks, slot.cleanup, owner);
    }

    method ReleaseSlots(hooks: Hooks, slots: seq<Slot>, fields: seq<FieldValue>) returns (outcome: Outcome)
      modifies this
      ensures (Contents(), outcome) == ReleaseFields(hooks, slots, fields, old(Contents()))
      decreases slots, 0
    {
      for i := 0 to |slots|
        invariant ReleaseFields(hooks, slots, fields, old(Contents())) == ReleaseFields(hooks, slots[i..], fields, Contents())
      {
        assert slots[i..][1..] == slots[i + 1..];
        var field := FindField(fields, slots[i].ordinal);
        if field.Some? {
          outcome := ReleaseOneSlot(hooks, slots[i], field.value);
          if outcome != Done { return; }
        }
      }
      return Done;
    }

    method ReleaseEffectLanes(hooks: Hooks, slots: seq<Slot>, lanes: seq<Value>) returns (outcome: Outcome)
      modifies this
      ensures (Contents(), outcome) == ReleaseLanes(hooks, slots, lanes, old(Contents()))
      decreases slots, 0
    {
      for i := 0 to |slots|
        invariant ReleaseLanes(hooks, slots, lanes, old(Contents())) == ReleaseLanes(hooks, slots[i..], lanes, Contents())
      {
        assert slots[i..][1..] == slots[i + 1..];
        if slots[i].ordinal < |lanes| {
          outcome := ReleaseOneSlot(hooks, slots[i], lanes[slots[i].ordinal]);
          if outcome != Done { return; }
        }
      }
      return Done;
    }
  }
}
