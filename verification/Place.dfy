/**
 Checked places: a path of field, element and slice selectors walked from a root value, and the
 replacement of what it selects at the indexes the walk returned.
 */
module Place {
  import opened Wrappers

  const MAX_SAFE_INTEGER: int := 0x1F_FFFF_FFFF_FFFF

  datatype FieldId = FieldId(source: nat, owner: nat, ordinal: nat)

  datatype Index = Proven(value: int) | Dynamic(local: nat)

  datatype Selector = FieldSelector(field: FieldId) | ElementSelector(index: Index, length: nat) | SliceSelector(local: nat)

  datatype Field = Field(id: FieldId, value: Value)

  /** Where a slice's elements live. */
  datatype Location = Cell(cell: nat) | Ticket(ticket: nat)

  datatype Value =
    | Plain(number: int)
    | Aggregate(fields: seq<Field>)
    | Array(elements: seq<Value>)
    | Slice(location: Location, base: nat, length: nat, selectors: seq<Selector>, indexes: seq<nat>)
    | StaticView(bytes: seq<nat>, length: nat)

  datatype Buffer = Buffer(active: bool, slots: map<nat, Value>)

  /** Index locals hold machine words, so they are never negative. */
  datatype Store = Store(locals: map<nat, nat>, cells: map<nat, Value>, buffers: map<nat, Buffer>)

  /** A stored path may consult nothing; a live one reads locals and reaches through slices. */
  datatype Access = Stored | Live(store: Store)

  datatype WalkResult = Resolved(selected: Value, indexes: seq<nat>) | OutOfBounds(index: int, length: nat) | Fault

  datatype StepResult = At(value: Value, index: nat) | Outside(beyond: int, length: nat) | Broken

  function FindField(fields: seq<Field>, id: FieldId): (r: Option<Value>)
    ensures r.Some? ==> Field(id, r.value) in fields
  {
    if fields == [] then None
    else if fields[0].id == id then Some(fields[0].value)
    else FindField(fields[1..], id)
  }

  function ReadIndex(access: Access, local: nat): Option<int> {
    if access.Live? && local in access.store.locals then Some(access.store.locals[local]) else None
  }

  /** The element of a live slice, or nothing where the evaluator throws. */
  function Element(access: Access, location: Location, base: nat, selectors: seq<Selector>, indexes: seq<nat>, index: nat): Option<Value>
    decreases access.Live?, 0, 0
  {
    match access
    case Stored => None
    case Live(store) =>
      match location
      case Ticket(t) =>
        if t in store.buffers && store.buffers[t].active && base + index in store.buffers[t].slots
        then Some(store.buffers[t].slots[base + index]) else None
      case Cell(c) =>
        if c !in store.cells then None
        else
          var backing := Walk(store.cells[c], selectors, indexes, Stored);
          if backing.Resolved? && backing.selected.Array? && base + index < |backing.selected.elements|
          then Some(backing.selected.elements[base + index]) else None
  }

  /** Follows one selector; a captured index takes the place of the selector's own. */
  function Step(current: Value, selector: Selector, captured: Option<nat>, access: Access): StepResult
    decreases access.Live?, 0, 1
  {
    match selector
    case FieldSelector(id) =>
      if !current.Aggregate? then Broken
      else
        var field := FindField(current.fields, id);
        if field.None? then Broken else At(field.value, id.ordinal)
    case SliceSelector(local) =>
      if !current.Slice? && !current.StaticView? then Broken
      else
        var index := if captured.Some? then Some(captured.value as int) else ReadIndex(access, local);
        if index.None? then Broken
        else if index.value < 0 || index.value >= current.length then Outside(index.value, current.length)
        else if current.StaticView? then
          if index.value < |current.bytes| then At(Plain(current.bytes[index.value]), index.value) else Broken
        else
          var element := Element(access, current.location, current.base, current.selectors, current.indexes, index.value);
          if element.None? then Broken else At(element.value, index.value)
    case ElementSelector(own, length) =>
      if !current.Array? then Broken
      else
        var index :=
          if captured.Some? then Some(captured.value as int)
          else if own.Proven? then Some(own.value)
          else ReadIndex(access, own.local);
        if index.None? then Broken
        else if index.value < 0 || index.value > MAX_SAFE_INTEGER || index.value >= length then Outside(index.value, length)
        else if index.value >= |current.elements| then Broken
        else At(current.elements[index.value], index.value)
  }

  function First(captured: seq<nat>): Option<nat> {
    if captured == [] then None else Some(captured[0])
  }

  function Rest(captured: seq<nat>): seq<nat> {
    if captured == [] then [] else captured[1..]
  }

  /** Walks a place, keeping the concrete index of every step for a later write. */
  function Walk(root: Value, selectors: seq<Selector>, captured: seq<nat>, access: Access): WalkResult
    decreases access.Live?, 1, |selectors|
  {
    if selectors == [] then Resolved(root, [])
    else
      match Step(root, selectors[0], First(captured), access)
      case Broken => Fault
      case Outside(index, length) => OutOfBounds(index, length)
      case At(value, index) =>
        match Walk(value, selectors[1..], Rest(captured), access)
        case Resolved(selected, indexes) => Resolved(selected, [index] + indexes)
        case OutOfBounds(i, length) => OutOfBounds(i, length)
        case Fault => Fault
  }

  /** Writes one element of a slice; nothing where the evaluator throws. */
  function SetElement(access: Access, location: Location, base: nat, selectors: seq<Selector>, indexes: seq<nat>, index: nat, value: Value): (r: Option<Access>)
    ensures r.Some? ==> r.value.Live? && access.Live?
    decreases access.Live?, 0, 0, 0
  {
    match access
    case Stored => None
    case Live(store) =>
      match location
      case Ticket(t) =>
        if t in store.buffers && store.buffers[t].active && base + index in store.buffers[t].slots
        then Some(Live(store.(buffers := store.buffers[t := Buffer(true, store.buffers[t].slots[base + index := value])])))
        else None
      case Cell(c) =>
        if c !in store.cells then None
        else
          var backing := Walk(store.cells[c], selectors, indexes, Stored);
          if !backing.Resolved? || !backing.selected.Array? then None
          else
            var elements := backing.selected.elements;
            var updated := Array(if base + index < |elements| then elements[base + index := value] else elements);
            var replaced := Replace(store.cells[c], selectors, indexes, updated, Stored);
            if replaced.None? then None else Some(Live(store.(cells := store.cells[c := replaced.value.0])))
  }

  /** Replaces what a path selects, at indexes an earlier walk returned. */
  function Replace(current: Value, selectors: seq<Selector>, indexes: seq<nat>, value: Value, access: Access): (r: Option<(Value, Access)>)
    ensures r.Some? ==> r.value.1.Live? == access.Live?
    decreases access.Live?, 1, |selectors|, 0
  {
    if selectors == [] then Some((value, access))
    else if indexes == [] then None
    else
      match selectors[0]
      case FieldSelector(id) =>
        if !current.Aggregate? then None
        else
          var r := ReplaceFields(current.fields, id.ordinal, selectors[1..], indexes[1..], value, access);
          if r.None? then None else Some((Aggregate(r.value.0), r.value.1))
      case SliceSelector(_) =>
        if !current.Slice? then None
        else
          var previous := Element(access, current.location, current.base, current.selectors, current.indexes, indexes[0]);
          if previous.None? then None
          else
            var inner := Replace(previous.value, selectors[1..], indexes[1..], value, access);
            if inner.None? then None
            else
              var after := SetElement(inner.value.1, current.location, current.base, current.selectors, current.indexes, indexes[0], inner.value.0);
              if after.None? then None else Some((current, after.value))
      case ElementSelector(_, _) =>
        if !current.Array? then None
        else if indexes[0] >= |current.elements| then Some((current, access))
        else
          var inner := Replace(current.elements[indexes[0]], selectors[1..], indexes[1..], value, access);
          if inner.None? then None else Some((Array(current.elements[indexes[0] := inner.value.0]), inner.value.1))
  }

  /** Replaces below every field of the ordinal, in field order. */
  function ReplaceFields(fields: seq<Field>, ordinal: nat, selectors: seq<Selector>, indexes: seq<nat>, value: Value, access: Access): (r: Option<(seq<Field>, Access)>)
    ensures r.Some? ==> r.value.1.Live? == access.Live?
    decreases access.Live?, 1, |selectors|, 1 + |fields|
  {
    if fields == [] then Some(([], access))
    else if fields[0].id.ordinal != ordinal then
      var rest := ReplaceFields(fields[1..], ordinal, selectors, indexes, value, access);
      if rest.None? then None else Some(([fields[0]] + rest.value.0, rest.value.1))
    else
      var inner := Replace(fields[0].value, selectors, indexes, value, access);
      if inner.None? then None
      else
        var rest := ReplaceFields(fields[1..], ordinal, selectors, indexes, value, inner.value.1);
        if rest.None? then None else Some(([Field(fields[0].id, inner.value.0)] + rest.value.0, rest.value.1))
  }
}
