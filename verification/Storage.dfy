/** Evaluator values and the ticketed raw storage they may own. */
module Storage {
  import opened Wrappers

  datatype FieldValue = FieldValue(ordinal: nat, value: Value)

  /** The values cleanup distinguishes; a `Plain` value owns nothing. */
  datatype Value =
    | Plain(number: int)
    | AllocationValue(ticket: nat)
    | RawBufferValue(ticket: nat)
    | AggregateValue(fields: seq<FieldValue>)
    | ArrayValue(elements: seq<Value>)
    | UnionValue(member: nat, payload: Value)
    | CallableValue(ticket: nat, captures: seq<FieldValue>)
    | EffectValue(lanes: seq<Value>)
    | EffectCompositeValue(alternative: nat, effect: Value)

  /** One allocation: whether it is still live, and its initialized slots. */
  datatype Allocation = Allocation(active: bool, values: map<int, Value>)

  type Allocations = map<nat, Allocation>

  predicate Live(allocations: Allocations, ticket: nat) {
    ticket in allocations && allocations[ticket].active
  }

  /** A released allocation keeps its slots unless they are cleared; a second release fails. */
  function Released(allocations: Allocations, ticket: nat, clear: bool): Option<Allocations> {
    if !Live(allocations, ticket) then None
    else Some(allocations[ticket := Allocation(false, if clear then map[] else allocations[ticket].values)])
  }

  function FindField(fields: seq<FieldValue>, ordinal: nat): (r: Option<Value>)
    ensures r.Some? ==> FieldValue(ordinal, r.value) in fields
    ensures r.None? ==> forall f :: f in fields ==> f.ordinal != ordinal
  {
    if fields == [] then None
    else if fields[0].ordinal == ordinal then Some(fields[0].value)
    else FindField(fields[1..], ordinal)
  }
}
