/**
 Recursive cleanup plans and their execution: hooks before fields, fields in declaration order, every
 reclaim ticket consumed through the storage that refuses a second release.
 */
module Cleanup {
  import opened Wrappers
  import opened Storage

  datatype Slot = Slot(ordinal: nat, cleanup: Plan)

  datatype Case = Case(member: nat, cleanup: Plan)

  datatype Plan =
    | NoCleanup
    | ParameterCleanup
    | AllocationCleanup
    | RawBufferCleanup
    | HookCleanup(hook: nat, inner: Plan)
    | StructCleanup(slots: seq<Slot>)
    | ArrayCleanup(element: Plan)
    | UnionCleanup(cases: seq<Case>)
    | CallableCleanup(slots: seq<Slot>)
    | RepresentedCallableCleanup
    | RepresentedEffectCleanup
    | EffectCompositeCleanup(alternatives: seq<Plan>)
    | EffectCleanup(slots: seq<Slot>)

  predicate HasHook(p: Plan) {
    match p
    case HookCleanup(_, _) => true
    case StructCleanup(slots) => exists i :: 0 <= i < |slots| && HasHook(slots[i].cleanup)
    case ArrayCleanup(element) => HasHook(element)
    case UnionCleanup(cases) => exists i :: 0 <= i < |cases| && HasHook(cases[i].cleanup)
    case CallableCleanup(slots) => exists i :: 0 <= i < |slots| && HasHook(slots[i].cleanup)
    case EffectCleanup(slots) => exists i :: 0 <= i < |slots| && HasHook(slots[i].cleanup)
    case EffectCompositeCleanup(alternatives) => exists i :: 0 <= i < |alternatives| && HasHook(alternatives[i])
    case _ => false
  }

  predicate Reclaims(p: Plan) {
    match p
    case AllocationCleanup => true
    case RawBufferCleanup => true
    case HookCleanup(_, inner) => Reclaims(inner)
    case StructCleanup(slots) => exists i :: 0 <= i < |slots| && Reclaims(slots[i].cleanup)
    case ArrayCleanup(element) => Reclaims(element)
    case UnionCleanup(cases) => exists i :: 0 <= i < |cases| && Reclaims(cases[i].cleanup)
    case CallableCleanup(slots) => exists i :: 0 <= i < |slots| && Reclaims(slots[i].cleanup)
    case EffectCleanup(slots) => exists i :: 0 <= i < |slots| && Reclaims(slots[i].cleanup)
    case EffectCompositeCleanup(alternatives) => exists i :: 0 <= i < |alternatives| && Reclaims(alternatives[i])
    case _ => false
  }

  predicate HasEffect(p: Plan) {
    HasHook(p) || Reclaims(p)
  }

  datatype CallableState = Available | Consumed | Released

  type Callables = map<nat, CallableState>

  /** What cleanup acts on, with a log of the tickets released and the hooks called. */
  datatype Memory = Memory(allocations: Allocations, callables: Callables, released: seq<nat>, called: seq<nat>)

  /** A `Fault` is an invariant the evaluator throws on; the others stop the run with a diagnosis. */
  datatype Outcome = Done | Trap | MissingFunction(hook: nat) | Blocked | Fault

  /** What calling a drop hook does to memory and to the value it is given by reference. */
  datatype HookResult = Absent | Stopped | Returned(memory: Memory, owner: Value)

  type Hooks = (nat, Memory, Value) -> HookResult

  /** The state of a callable once its binding is cleaned. */
  function Cleaned(c: CallableState): CallableState {
    if c == Consumed then Consumed else Released
  }

  function FindCase(cases: seq<Case>, member: nat): (r: Option<Plan>)
    ensures r.Some? ==> Case(member, r.value) in cases
    ensures r.None? ==> forall c :: c in cases ==> c.member != member
  {
    if cases == [] then None
    else if cases[0].member == member then Some(cases[0].cleanup)
    else FindCase(cases[1..], member)
  }

  function ReleaseTicket(m: Memory, ticket: nat, clear: bool): (Memory, Outcome) {
    var r := Storage.Released(m.allocations, ticket, clear);
    if r.None? then (m, Trap) else (m.(allocations := r.value, released := m.released + [ticket]), Done)
  }

  /** Releases one owned value through its complete plan. */
  function Release(hooks: Hooks, p: Plan, owner: Value, m: Memory): (Memory, Outcome)
    decreases p, 1
  {
    match p
    case NoCleanup => (m, Done)
    case ParameterCleanup => (m, Done)
    case AllocationCleanup => if owner.AllocationValue? then ReleaseTicket(m, owner.ticket, false) else (m, Fault)
    case RawBufferCleanup => if owner.RawBufferValue? then ReleaseTicket(m, owner.ticket, true) else (m, Fault)
    case CallableCleanup(slots) =>
      if !owner.CallableValue? || owner.ticket !in m.callables then (m, Fault)
      else
        var state := m.callables[owner.ticket];
        var marked := m.(callables := m.callables[owner.ticket := Cleaned(state)]);
        if state != Available then (marked, Done) else ReleaseFields(hooks, slots, owner.captures, marked)
    case EffectCleanup(slots) =>
      if owner.EffectValue? then ReleaseLanes(hooks, slots, owner.lanes, m) else (m, Fault)
    case EffectCompositeCleanup(alternatives) =>
      if !owner.EffectCompositeValue? || owner.alternative >= |alternatives| then (m, Fault)
      else Release(hooks, alternatives[owner.alternative], owner.effect, m)
    case HookCleanup(hook, inner) =>
      var result := hooks(hook, m.(called := m.called + [hook]), owner);
      (match result
       case Absent => (m, MissingFunction(hook))
       case Stopped => (m.(called := m.called + [hook]), Blocked)
       case Returned(memory, updated) => Release(hooks, inner, updated, memory))
    case StructCleanup(slots) => if owner.AggregateValue? then ReleaseFields(hooks, slots, owner.fields, m) else (m, Done)
    case ArrayCleanup(element) => if owner.ArrayValue? then ReleaseElements(hooks, element, owner.elements, m) else (m, Done)
    case UnionCleanup(cases) =>
      if !owner.UnionValue? then (m, Done)
      else
        var active := FindCase(cases, owner.member);
        if active.None? then (m, Done) else Release(hooks, active.value, owner.payload, m)
    case RepresentedCallableCleanup => (m, Fault)
    case RepresentedEffectCleanup => (m, Done)
  }

  function ReleaseSlot(hooks: Hooks, slot: Slot, owner: Value, m: Memory): (Memory, Outcome)
    decreases slot, 2
  {
    Release(hooks, slot.cleanup, owner, m)
  }

  /** Releases the slots in order, each through the first field of its ordinal; absent fields are skipped. */
  function ReleaseFields(hooks: Hooks, slots: seq<Slot>, fields: seq<FieldValue>, m: Memory): (Memory, Outcome)
    decreases slots, 0
  {
    if slots == [] then (m, Done)
    else
      var field := FindField(fields, slots[0].ordinal);
      if field.None? then ReleaseFields(hooks, slots[1..], fields, m)
      else
        var first := ReleaseSlot(hooks, slots[0], field.value, m);
        if first.1 != Done then first else ReleaseFields(hooks, slots[1..], fields, first.0)
  }

  function ReleaseLanes(hooks: Hooks, slots: seq<Slot>, lanes: seq<Value>, m: Memory): (Memory, Outcome)
    decreases slots, 0
  {
    if slots == [] then (m, Done)
    else if slots[0].ordinal >= |lanes| then ReleaseLanes(hooks, slots[1..], lanes, m)
    else
      var first := ReleaseSlot(hooks, slots[0], lanes[slots[0].ordinal], m);
      if first.1 != Done then first else ReleaseLanes(hooks, slots[1..], lanes, first.0)
  }

  function ReleaseElements(hooks: Hooks, element: Plan, elements: seq<Value>, m: Memory): (Memory, Outcome)
    decreases element, 2, |elements|
  {
    if elements == [] then (m, Done)
    else
      var first := Release(hooks, element, elements[0], m);
      if first.1 != Done then first else ReleaseElements(hooks, element, elements[1..], first.0)
  }
}
