/**
 Replacing at the indexes a walk returned is a lawful update: it reads back, writing back changes
 nothing, the last write wins, and only what the path reaches changes.
 */
module PlaceLaws {
  import opened Wrappers
  import opened Place

  // ---------------------------------------------------------------------------
  // One selector
  // ---------------------------------------------------------------------------

  predicate DistinctOrdinals(fields: seq<Field>) {
    forall i, j :: 0 <= i < j < |fields| ==> fields[i].id.ordinal != fields[j].id.ordinal
  }

  function PutField(fields: seq<Field>, ordinal: nat, value: Value): (r: seq<Field>)
    ensures |r| == |fields|
    ensures forall i :: 0 <= i < |fields| ==>
      r[i] == if fields[i].id.ordinal == ordinal then Field(fields[i].id, value) else fields[i]
  {
    if fields == [] then []
    else [if fields[0].id.ordinal == ordinal then Field(fields[0].id, value) else fields[0]] + PutField(fields[1..], ordinal, value)
  }

  /** Replaces the one value directly below a selector. */
  function Put(current: Value, selector: Selector, index: nat, value: Value, access: Access): Option<(Value, Access)> {
    match selector
    case FieldSelector(id) =>
      if current.Aggregate? then Some((Aggregate(PutField(current.fields, id.ordinal, value)), access)) else None
    case SliceSelector(_) =>
      if !current.Slice? then None
      else
        var after := SetElement(access, current.location, current.base, current.selectors, current.indexes, index, value);
        if after.None? then None else Some((current, after.value))
    case ElementSelector(_, _) =>
      if current.Array? && index < |current.elements| then Some((Array(current.elements[index := value]), access)) else None
  }

  lemma {:induction false} FindFieldAt(fields: seq<Field>, id: FieldId, k: nat)
    requires DistinctOrdinals(fields) && k < |fields| && fields[k].id == id
    ensures FindField(fields, id) == Some(fields[k].value)
  {
    if k > 0 {
      assert fields[0].id.ordinal != fields[k].id.ordinal;
      FindFieldAt(fields[1..], id, k - 1);
    }
  }

  lemma {:induction false} FoundFieldAt(fields: seq<Field>, id: FieldId) returns (k: nat)
    requires FindField(fields, id).Some?
    ensures k < |fields| && fields[k] == Field(id, FindField(fields, id).value)
  {
    if fields[0].id == id {
      k := 0;
    } else {
      k := FoundFieldAt(fields[1..], id);
      k := k + 1;
    }
  }

  lemma {:induction false} ReplaceNoField(fields: seq<Field>, ordinal: nat, selectors: seq<Selector>, indexes: seq<nat>, value: Value, access: Access)
    requires forall i :: 0 <= i < |fields| ==> fields[i].id.ordinal != ordinal
    ensures ReplaceFields(fields, ordinal, selectors, indexes, value, access) == Some((fields, access))
  {
    if fields != [] {
      ReplaceNoField(fields[1..], ordinal, selectors, indexes, value, access);
      assert fields == [fields[0]] + fields[1..];
    }
  }

  /** With distinct ordinals exactly one field is replaced. */
  lemma {:induction false} ReplaceOneField(fields: seq<Field>, k: nat, selectors: seq<Selector>, indexes: seq<nat>, value: Value, access: Access)
    requires DistinctOrdinals(fields) && k < |fields|
    ensures ReplaceFields(fields, fields[k].id.ordinal, selectors, indexes, value, access)
            == var inner := Replace(fields[k].value, selectors, indexes, value, access);
               if inner.None? then None
               else Some((PutField(fields, fields[k].id.ordinal, inner.value.0), inner.value.1))
  {
    var ordinal := fields[k].id.ordinal;
    var inner := Replace(fields[k].value, selectors, indexes, value, access);
    if k == 0 {
      forall i | 0 <= i < |fields[1..]| ensures fields[1..][i].id.ordinal != ordinal { assert fields[1..][i] == fields[i + 1]; }
      if inner.Some? {
        ReplaceNoField(fields[1..], ordinal, selectors, indexes, value, inner.value.1);
        assert PutField(fields, ordinal, inner.value.0) == [Field(fields[0].id, inner.value.0)] + fields[1..];
      }
    } else {
      assert fields[0].id.ordinal != ordinal;
      ReplaceOneField(fields[1..], k - 1, selectors, indexes, value, access);
      assert fields[1..][k - 1] == fields[k];
    }
  }

  /** Replacing along a path is replacing below its first step and putting the result back. */
  lemma ReplaceUnfolds(current: Value, selectors: seq<Selector>, indexes: seq<nat>, value: Value, access: Access)
    requires selectors != [] && indexes != [] && Step(current, selectors[0], Some(indexes[0]), access).At?
    requires current.Aggregate? ==> DistinctOrdinals(current.fields)
    requires !current.StaticView?
    ensures Replace(current, selectors, indexes, value, access)
            == var below := Step(current, selectors[0], Some(indexes[0]), access).value;
               var inner := Replace(below, selectors[1..], indexes[1..], value, access);
               if inner.None? then None else Put(current, selectors[0], indexes[0], inner.value.0, inner.value.1)
  {
    if selectors[0].FieldSelector? {
      var k := FoundFieldAt(current.fields, selectors[0].field);
      ReplaceOneField(current.fields, k, selectors[1..], indexes[1..], value, access);
    }
  }

  // ---------------------------------------------------------------------------
  // Paths and the storage they hop through
  // ---------------------------------------------------------------------------

  /** The storage one selector reaches into, if it leaves the value at hand. */
  function Hop(current: Value, selector: Selector): set<Location> {
    if selector.SliceSelector? && current.Slice? then {current.location} else {}
  }

  /** All the storage a path reaches into, as far as it resolves. */
  function Hops(root: Value, selectors: seq<Selector>, indexes: seq<nat>, access: Access): set<Location>
    decreases |selectors|
  {
    if selectors == [] || indexes == [] then {}
    else
      var step := Step(root, selectors[0], Some(indexes[0]), access);
      Hop(root, selectors[0]) + if step.At? then Hops(step.value, selectors[1..], indexes[1..], access) else {}
  }

  /** A step an update can take back: one field of the ordinal, no static data, and a slice whose own path can be updated. */
  ghost predicate Proper(current: Value, access: Access)
    decreases access.Live?, 0
  {
    && (current.Aggregate? ==> DistinctOrdinals(current.fields)) && !current.StaticView?
    && (current.Slice? && access.Live? && current.location.Cell? ==>
          && current.location.cell in access.store.cells
          && Path(access.store.cells[current.location.cell], current.selectors, current.indexes, Stored))
  }

  /** A path that resolves at these indexes, through steps an update can take back. */
  ghost predicate Path(root: Value, selectors: seq<Selector>, indexes: seq<nat>, access: Access)
    decreases access.Live?, 1, |selectors|
  {
    && |indexes| == |selectors|
    && (selectors != [] ==>
          && Proper(root, access)
          && Step(root, selectors[0], Some(indexes[0]), access).At?
          && Path(Step(root, selectors[0], Some(indexes[0]), access).value, selectors[1..], indexes[1..], access))
  }

  /** No storage is reached into twice. */
  ghost predicate Unaliased(root: Value, selectors: seq<Selector>, indexes: seq<nat>, access: Access)
    decreases |selectors|
  {
    selectors != [] && indexes != [] && Step(root, selectors[0], Some(indexes[0]), access).At? ==>
      var below := Step(root, selectors[0], Some(indexes[0]), access).value;
      && Hop(root, selectors[0]) !! Hops(below, selectors[1..], indexes[1..], access)
      && Unaliased(below, selectors[1..], indexes[1..], access)
  }

  datatype Contents = Missing | OfCell(value: Value) | OfBuffer(buffer: Buffer)

  function ContentsOf(store: Store, l: Location): Contents {
    match l
    case Cell(c) => if c in store.cells then OfCell(store.cells[c]) else Missing
    case Ticket(t) => if t in store.buffers then OfBuffer(store.buffers[t]) else Missing
  }

  /** The two stores agree everywhere but there. */
  ghost predicate SameBut(access: Access, access': Access, changed: set<Location>) {
    && access.Live? == access'.Live?
    && (access.Live? ==>
          && access'.store.locals == access.store.locals
          && forall l :: l !in changed ==> ContentsOf(access'.store, l) == ContentsOf(access.store, l))
  }

  lemma SameButTransitive(a: Access, b: Access, c: Access, d: set<Location>, e: set<Location>)
    requires SameBut(a, b, d) && SameBut(b, c, e)
    ensures SameBut(a, c, d + e)
  {
  }

  lemma StoresEqual(a: Access, b: Access)
    requires SameBut(a, b, {})
    ensures a == b
  {
    if a.Live? {
      forall c ensures c in a.store.cells <==> c in b.store.cells {
        assert ContentsOf(a.store, Cell(c)) == ContentsOf(b.store, Cell(c));
      }
      forall c | c in a.store.cells ensures a.store.cells[c] == b.store.cells[c] {
        assert ContentsOf(a.store, Cell(c)) == ContentsOf(b.store, Cell(c));
      }
      forall t ensures t in a.store.buffers <==> t in b.store.buffers {
        assert ContentsOf(a.store, Ticket(t)) == ContentsOf(b.store, Ticket(t));
      }
      forall t | t in a.store.buffers ensures a.store.buffers[t] == b.store.buffers[t] {
        assert ContentsOf(a.store, Ticket(t)) == ContentsOf(b.store, Ticket(t));
      }
      assert a.store.cells == b.store.cells && a.store.buffers == b.store.buffers;
    }
  }

  /** A step sees only the storage it hops into. */
  lemma StepFrame(current: Value, selector: Selector, index: nat, access: Access, access': Access, changed: set<Location>)
    requires SameBut(access, access', changed) && Hop(current, selector) !! changed
    ensures Step(current, selector, Some(index), access') == Step(current, selector, Some(index), access)
  {
  }

  /** So a path sees only the storage it hops through. */
  lemma {:induction false} PathFrame(root: Value, selectors: seq<Selector>, indexes: seq<nat>, access: Access, access': Access, changed: set<Location>)
    requires SameBut(access, access', changed) && Hops(root, selectors, indexes, access) !! changed
    requires Path(root, selectors, indexes, access)
    ensures Path(root, selectors, indexes, access')
    ensures Hops(root, selectors, indexes, access') == Hops(root, selectors, indexes, access)
    ensures Walk(root, selectors, indexes, access') == Walk(root, selectors, indexes, access)
    ensures Unaliased(root, selectors, indexes, access) ==> Unaliased(root, selectors, indexes, access')
    decreases |selectors|
  {
    if selectors != [] {
      StepFrame(root, selectors[0], indexes[0], access, access', changed);
      var below := Step(root, selectors[0], Some(indexes[0]), access).value;
      PathFrame(below, selectors[1..], indexes[1..], access, access', changed);
      ProperFrame(root, selectors[0], indexes[0], access, access', changed);
    }
  }

  lemma ProperFrame(current: Value, selector: Selector, index: nat, access: Access, access': Access, changed: set<Location>)
    requires SameBut(access, access', changed) && Hop(current, selector) !! changed
    requires Proper(current, access) && Step(current, selector, Some(index), access).At?
    ensures Proper(current, access')
  {
  }

  /** A path that resolves walks to its end at these indexes. */
  lemma {:induction false} PathWalks(root: Value, selectors: seq<Selector>, indexes: seq<nat>, access: Access)
    requires Path(root, selectors, indexes, access)
    ensures Walk(root, selectors, indexes, access).Resolved?
    decreases |selectors|
  {
    if selectors != [] {
      PathWalks(Step(root, selectors[0], Some(indexes[0]), access).value, selectors[1..], indexes[1..], access);
    }
  }

  /** A path is its first step followed by the path below it. */
  lemma PathUnfolds(root: Value, selectors: seq<Selector>, indexes: seq<nat>, access: Access, below: Value, index: nat)
    requires selectors != [] && |indexes| == |selectors|
    requires Proper(root, access) && Step(root, selectors[0], Some(indexes[0]), access) == At(below, index)
    ensures Path(root, selectors, indexes, access) <==> Path(below, selectors[1..], indexes[1..], access)
    ensures Hops(root, selectors, indexes, access)
            == Hop(root, selectors[0]) + Hops(below, selectors[1..], indexes[1..], access)
    ensures Unaliased(root, selectors, indexes, access)
            <==> Hop(root, selectors[0]) !! Hops(below, selectors[1..], indexes[1..], access)
                 && Unaliased(below, selectors[1..], indexes[1..], access)
    ensures var deeper := Walk(below, selectors[1..], indexes[1..], access);
            deeper.Resolved? ==> Walk(root, selectors, indexes, access) == Resolved(deeper.selected, [index] + deeper.indexes)
  {
  }

  lemma {:induction false} StoredPathsDoNotHop(root: Value, selectors: seq<Selector>, indexes: seq<nat>)
    requires Path(root, selectors, indexes, Stored)
    ensures Hops(root, selectors, indexes, Stored) == {} && Unaliased(root, selectors, indexes, Stored)
    decreases |selectors|
  {
    if selectors != [] {
      StoredPathsDoNotHop(Step(root, selectors[0], Some(indexes[0]), Stored).value, selectors[1..], indexes[1..]);
    }
  }

  // ---------------------------------------------------------------------------
  // Reading back
  // ---------------------------------------------------------------------------

  lemma PutFieldReadsBack(fields: seq<Field>, id: FieldId, value: Value)
    requires DistinctOrdinals(fields) && FindField(fields, id).Some?
    ensures FindField(PutField(fields, id.ordinal, value), id) == Some(value)
    ensures DistinctOrdinals(PutField(fields, id.ordinal, value))
  {
    var k := FoundFieldAt(fields, id);
    var after := PutField(fields, id.ordinal, value);
    assert forall i :: 0 <= i < |fields| ==> after[i].id == fields[i].id;
    FindFieldAt(after, id, k);
  }

  lemma {:induction false} SetElementReadsBack(current: Value, index: nat, value: Value, access: Access)
    requires current.Slice? && Proper(current, access)
    requires Element(access, current.location, current.base, current.selectors, current.indexes, index).Some?
    ensures var r := SetElement(access, current.location, current.base, current.selectors, current.indexes, index, value);
            && r.Some? && SameBut(access, r.value, {current.location}) && Proper(current, r.value)
            && Element(r.value, current.location, current.base, current.selectors, current.indexes, index) == Some(value)
    decreases access.Live?, 0
  {
    match current.location
    case Ticket(t) =>
    case Cell(c) =>
      var cell := access.store.cells[c];
      var backing := Walk(cell, current.selectors, current.indexes, Stored).selected;
      var updated := Array(backing.elements[current.base + index := value]);
      StoredPathsDoNotHop(cell, current.selectors, current.indexes);
      ReadsBack(cell, current.selectors, current.indexes, updated, Stored);
      CellUpdated(access, current, index, value, updated);
  }

  lemma CellUpdated(access: Access, current: Value, index: nat, value: Value, updated: Value)
    requires current.Slice? && current.location.Cell? && access.Live? && current.location.cell in access.store.cells
    requires var cell := access.store.cells[current.location.cell];
             var r := Replace(cell, current.selectors, current.indexes, updated, Stored);
             var backing := Walk(cell, current.selectors, current.indexes, Stored);
             && backing.Resolved? && backing.selected.Array? && current.base + index < |backing.selected.elements|
             && updated == Array(backing.selected.elements[current.base + index := value])
             && r.Some? && Path(r.value.0, current.selectors, current.indexes, Stored)
             && Walk(r.value.0, current.selectors, current.indexes, Stored) == Resolved(updated, backing.indexes)
    ensures var r := SetElement(access, current.location, current.base, current.selectors, current.indexes, index, value);
            && r.Some? && SameBut(access, r.value, {current.location}) && Proper(current, r.value)
            && Element(r.value, current.location, current.base, current.selectors, current.indexes, index) == Some(value)
  {
  }

  lemma {:induction false} PutReadsBack(current: Value, selector: Selector, index: nat, value: Value, access: Access)
    requires Proper(current, access) && Step(current, selector, Some(index), access).At?
    ensures var r := Put(current, selector, index, value, access);
            && r.Some? && SameBut(access, r.value.1, Hop(current, selector)) && Hop(r.value.0, selector) == Hop(current, selector)
            && Step(r.value.0, selector, Some(index), r.value.1) == At(value, Step(current, selector, Some(index), access).index)
            && Proper(r.value.0, r.value.1)
    decreases access.Live?, 1
  {
    hide SetElement, Element;
    match selector
    case FieldSelector(id) => PutFieldReadsBack(current.fields, id, value);
    case ElementSelector(_, _) =>
    case SliceSelector(_) => SetElementReadsBack(current, index, value, access);
  }

  /**
   Replacing what a path selects succeeds; the same path then selects the new value; and no storage
   changes but what the path hops through.
   */
  lemma {:induction false} ReadsBack(root: Value, selectors: seq<Selector>, indexes: seq<nat>, value: Value, access: Access)
    requires Path(root, selectors, indexes, access) && Unaliased(root, selectors, indexes, access)
    ensures Walk(root, selectors, indexes, access).Resolved?
    ensures var r := Replace(root, selectors, indexes, value, access);
            && r.Some? && Path(r.value.0, selectors, indexes, r.value.1)
            && Walk(r.value.0, selectors, indexes, r.value.1)
               == Resolved(value, Walk(root, selectors, indexes, access).indexes)
            && SameBut(access, r.value.1, Hops(root, selectors, indexes, access))
            && Hops(r.value.0, selectors, indexes, r.value.1) == Hops(root, selectors, indexes, access)
            && Unaliased(r.value.0, selectors, indexes, r.value.1)
    decreases access.Live?, 2, |selectors|
  {
    if selectors == [] {
      assert SameBut(access, access, {});
    } else {
      hide Step, Replace, Put, Proper, Path, Walk, Hops, Hop, Unaliased, SameBut;
      PathFirst(root, selectors, indexes, access);
      var selector, rest, index, indexes' := selectors[0], selectors[1..], indexes[0], indexes[1..];
      var step := Step(root, selector, Some(index), access);
      var below, deeper := step.value, Hops(step.value, rest, indexes', access);
      PathUnfolds(root, selectors, indexes, access, below, step.index);
      PathWalks(below, rest, indexes', access);
      ReplaceUnfoldsPath(root, selectors, indexes, value, access);
      ReadsBack(below, rest, indexes', value, access);
      var inner := Replace(below, rest, indexes', value, access).value;
      StepFrame(root, selector, index, access, inner.1, deeper);
      ProperFrame(root, selector, index, access, inner.1, deeper);
      PutReadsBack(root, selector, index, inner.0, inner.1);
      var outer := Put(root, selector, index, inner.0, inner.1).value;
      PathFrame(inner.0, rest, indexes', inner.1, outer.1, Hop(root, selector));
      SameButTransitive(access, inner.1, outer.1, deeper, Hop(root, selector));
      PathUnfolds(outer.0, selectors, indexes, outer.1, inner.0, step.index);
    }
  }

  lemma PathFirst(root: Value, selectors: seq<Selector>, indexes: seq<nat>, access: Access)
    requires selectors != [] && Path(root, selectors, indexes, access)
    ensures |indexes| == |selectors| && Proper(root, access) && Step(root, selectors[0], Some(indexes[0]), access).At?
  {
  }

  lemma ReplaceUnfoldsPath(root: Value, selectors: seq<Selector>, indexes: seq<nat>, value: Value, access: Access)
    requires selectors != [] && Path(root, selectors, indexes, access)
    ensures Replace(root, selectors, indexes, value, access)
            == var below := Step(root, selectors[0], Some(indexes[0]), access).value;
               var inner := Replace(below, selectors[1..], indexes[1..], value, access);
               if inner.None? then None else Put(root, selectors[0], indexes[0], inner.value.0, inner.value.1)
  {
    ReplaceUnfolds(root, selectors, indexes, value, access);
  }

  // ---------------------------------------------------------------------------
  // Writing back what was read
  // ---------------------------------------------------------------------------

  lemma PutFieldSame(fields: seq<Field>, id: FieldId)
    requires DistinctOrdinals(fields) && FindField(fields, id).Some?
    ensures PutField(fields, id.ordinal, FindField(fields, id).value) == fields
  {
  }

  lemma {:induction false} SetElementSame(current: Value, index: nat, access: Access)
    requires current.Slice? && Proper(current, access)
    requires Element(access, current.location, current.base, current.selectors, current.indexes, index).Some?
    ensures SetElement(access, current.location, current.base, current.selectors, current.indexes, index,
                       Element(access, current.location, current.base, current.selectors, current.indexes, index).value)
            == Some(access)
    decreases access.Live?, 0
  {
    var store := access.store;
    match current.location
    case Cell(c) =>
      var cell := store.cells[c];
      var backing := Walk(cell, current.selectors, current.indexes, Stored).selected;
      assert backing.elements[current.base + index := backing.elements[current.base + index]] == backing.elements;
      WriteBackChangesNothing(cell, current.selectors, current.indexes, Stored);
      assert store.cells[c := cell] == store.cells;
      assert store.(cells := store.cells) == store;
    case Ticket(t) =>
      var slots := store.buffers[t].slots;
      assert slots[current.base + index := slots[current.base + index]] == slots;
      assert store.buffers[t := Buffer(true, slots)] == store.buffers;
      assert store.(buffers := store.buffers) == store;
  }

  lemma {:induction false} PutSame(current: Value, selector: Selector, index: nat, access: Access)
    requires Proper(current, access) && Step(current, selector, Some(index), access).At?
    ensures Put(current, selector, index, Step(current, selector, Some(index), access).value, access) == Some((current, access))
    decreases access.Live?, 1
  {
    hide SetElement, Element;
    match selector
    case FieldSelector(id) => PutFieldSame(current.fields, id);
    case ElementSelector(_, _) =>
      assert current.elements[index := current.elements[index]] == current.elements;
    case SliceSelector(_) => SetElementSame(current, index, access);
  }

  /** Replacing a place by what it holds changes neither the value nor any storage, aliased or not. */
  lemma {:induction false} WriteBackChangesNothing(root: Value, selectors: seq<Selector>, indexes: seq<nat>, access: Access)
    requires Path(root, selectors, indexes, access)
    ensures Walk(root, selectors, indexes, access).Resolved?
    ensures Replace(root, selectors, indexes, Walk(root, selectors, indexes, access).selected, access) == Some((root, access))
    decreases access.Live?, 2, |selectors|
  {
    PathWalks(root, selectors, indexes, access);
    if selectors != [] {
      hide Step, Replace, Put, Proper;
      var below := Step(root, selectors[0], Some(indexes[0]), access).value;
      PathWalks(below, selectors[1..], indexes[1..], access);
      ReplaceUnfoldsPath(root, selectors, indexes, Walk(root, selectors, indexes, access).selected, access);
      WriteBackChangesNothing(below, selectors[1..], indexes[1..], access);
      PutSame(root, selectors[0], indexes[0], access);
    }
  }

  // ---------------------------------------------------------------------------
  // The last write wins
  // ---------------------------------------------------------------------------

  lemma SetElementFrame(current: Value, index: nat, value: Value, a: Access, b: Access, changed: set<Location>)
    requires current.Slice? && SameBut(a, b, changed) && current.location !in changed
    ensures var x := SetElement(a, current.location, current.base, current.selectors, current.indexes, index, value);
            var y := SetElement(b, current.location, current.base, current.selectors, current.indexes, index, value);
            x.Some? == y.Some? && (x.Some? ==> SameBut(x.value, y.value, changed))
  {
    hide Walk, Replace;
    if a.Live? { assert ContentsOf(a.store, current.location) == ContentsOf(b.store, current.location); }
  }

  lemma PutFrame(current: Value, selector: Selector, index: nat, value: Value, a: Access, b: Access, changed: set<Location>)
    requires SameBut(a, b, changed) && Hop(current, selector) !! changed
    ensures var x, y := Put(current, selector, index, value, a), Put(current, selector, index, value, b);
            x.Some? == y.Some? && (x.Some? ==> x.value.0 == y.value.0 && SameBut(x.value.1, y.value.1, changed))
  {
    hide SetElement;
    if selector.SliceSelector? && current.Slice? { SetElementFrame(current, index, value, a, b, changed); }
  }

  /** An update neither sees nor changes storage its path does not hop through. */
  lemma {:induction false} ReplaceFrame(root: Value, selectors: seq<Selector>, indexes: seq<nat>, value: Value, a: Access, b: Access, changed: set<Location>)
    requires Path(root, selectors, indexes, a) && Unaliased(root, selectors, indexes, a)
    requires SameBut(a, b, changed) && Hops(root, selectors, indexes, a) !! changed
    ensures var x, y := Replace(root, selectors, indexes, value, a), Replace(root, selectors, indexes, value, b);
            x.Some? && y.Some? && x.value.0 == y.value.0 && SameBut(x.value.1, y.value.1, changed)
    decreases |selectors|
  {
    if selectors != [] {
      var selector, rest, index, indexes' := selectors[0], selectors[1..], indexes[0], indexes[1..];
      var step := Step(root, selector, Some(index), a);
      PathUnfolds(root, selectors, indexes, a, step.value, step.index);
      ReplaceUnfoldsPath(root, selectors, indexes, value, a);
      PathFrame(root, selectors, indexes, a, b, changed);
      ReplaceUnfoldsPath(root, selectors, indexes, value, b);
      StepFrame(root, selector, index, a, b, changed);
      ReadsBack(root, selectors, indexes, value, a);
      ReplaceFrame(step.value, rest, indexes', value, a, b, changed);
      hide Step, Replace, Put, Path, Walk, Hops, Hop, Unaliased, SameBut;
      var x, y := Replace(step.value, rest, indexes', value, a).value, Replace(step.value, rest, indexes', value, b).value;
      PutFrame(root, selector, index, x.0, x.1, y.1, changed);
    }
  }

  /** Setting an element twice, the second time wherever the first left its storage, is setting it once. */
  lemma {:induction false} SetTwice(current: Value, index: nat, first: Value, second: Value, a: Access, b: Access)
    requires current.Slice? && Proper(current, a) && SameBut(a, b, {current.location})
    requires Element(a, current.location, current.base, current.selectors, current.indexes, index).Some?
    requires var once := SetElement(a, current.location, current.base, current.selectors, current.indexes, index, first);
             once.Some? && ContentsOf(b.store, current.location) == ContentsOf(once.value.store, current.location)
    ensures SetElement(b, current.location, current.base, current.selectors, current.indexes, index, second)
            == SetElement(a, current.location, current.base, current.selectors, current.indexes, index, second)
    decreases a.Live?, 0
  {
    SetElementReadsBack(current, index, second, a);
    var x := SetElement(a, current.location, current.base, current.selectors, current.indexes, index, second).value;
    match current.location
    case Ticket(t) =>
      var slots: map<nat, Value> := a.store.buffers[t].slots;
      var k: nat := current.base + index;
      assert slots[k := first][k := second] == slots[k := second];
      StoresEqual(SetElement(b, current.location, current.base, current.selectors, current.indexes, index, second).value, x);
    case Cell(c) =>
      SetCellTwice(current, a.store.cells[c], index, first, second);
      hide Walk, Replace, Path, Proper;
      StoresEqual(SetElement(b, current.location, current.base, current.selectors, current.indexes, index, second).value, x);
  }

  lemma {:induction false} SetCellTwice(current: Value, cell: Value, index: nat, first: Value, second: Value)
    requires current.Slice? && Path(cell, current.selectors, current.indexes, Stored)
    requires Walk(cell, current.selectors, current.indexes, Stored).Resolved?
    requires Walk(cell, current.selectors, current.indexes, Stored).selected.Array?
    requires current.base + index < |Walk(cell, current.selectors, current.indexes, Stored).selected.elements|
    ensures var backing := Walk(cell, current.selectors, current.indexes, Stored).selected.elements;
            var one := Array(backing[current.base + index := first]);
            var two := Array(backing[current.base + index := second]);
            && Array(one.elements[current.base + index := second]) == two
            && var once := Replace(cell, current.selectors, current.indexes, one, Stored);
               && once.Some?
               && Walk(once.value.0, current.selectors, current.indexes, Stored).Resolved?
               && Walk(once.value.0, current.selectors, current.indexes, Stored).selected == one
               && once.value.1 == Stored
               && Replace(once.value.0, current.selectors, current.indexes, two, Stored)
                  == Replace(cell, current.selectors, current.indexes, two, Stored)
               && Replace(cell, current.selectors, current.indexes, two, Stored).Some?
    decreases false, 3
  {
    var backing := Walk(cell, current.selectors, current.indexes, Stored).selected.elements;
    var k: nat := current.base + index;
    var one, two := Array(backing[k := first]), Array(backing[k := second]);
    StoredPathsDoNotHop(cell, current.selectors, current.indexes);
    ReadsBack(cell, current.selectors, current.indexes, one, Stored);
    ReadsBack(cell, current.selectors, current.indexes, two, Stored);
    LastWriteWins(cell, current.selectors, current.indexes, one, two, Stored);
    assert one.elements[k := second] == two.elements;
  }

  lemma PutFieldTwice(fields: seq<Field>, ordinal: nat, first: Value, second: Value)
    ensures PutField(PutField(fields, ordinal, first), ordinal, second) == PutField(fields, ordinal, second)
  {
  }

  lemma {:induction false} PutTwice(current: Value, selector: Selector, index: nat, first: Value, second: Value, a: Access, b: Access)
    requires Proper(current, a) && Step(current, selector, Some(index), a).At? && SameBut(a, b, Hop(current, selector))
    requires var once := Put(current, selector, index, first, a);
             && once.Some?
             && (a.Live? ==> forall l :: l in Hop(current, selector) ==>
                   ContentsOf(b.store, l) == ContentsOf(once.value.1.store, l))
    ensures Put(Put(current, selector, index, first, a).value.0, selector, index, second, b)
            == Put(current, selector, index, second, a)
    decreases a.Live?, 1
  {
    hide SetElement, Element, Proper;
    match selector
    case FieldSelector(id) =>
      PutFieldTwice(current.fields, id.ordinal, first, second);
      StoresEqual(a, b);
    case ElementSelector(_, _) =>
      assert current.elements[index := first][index := second] == current.elements[index := second];
      StoresEqual(a, b);
    case SliceSelector(_) => SetTwice(current, index, first, second, a, b);
  }

  /** Writing a place twice is writing it once, with the second value. */
  lemma {:induction false} LastWriteWins(root: Value, selectors: seq<Selector>, indexes: seq<nat>, first: Value, second: Value, access: Access)
    requires Path(root, selectors, indexes, access) && Unaliased(root, selectors, indexes, access)
    ensures Replace(root, selectors, indexes, first, access).Some?
    ensures var once := Replace(root, selectors, indexes, first, access).value;
            Replace(once.0, selectors, indexes, second, once.1) == Replace(root, selectors, indexes, second, access)
    decreases access.Live?, 2, |selectors|
  {
    ReadsBack(root, selectors, indexes, first, access);
    if selectors != [] {
      var selector, rest, index, indexes' := selectors[0], selectors[1..], indexes[0], indexes[1..];
      var step := Step(root, selector, Some(index), access);
      var below, deeper := step.value, Hops(step.value, rest, indexes', access);
      PathUnfolds(root, selectors, indexes, access, below, step.index);
      ReplaceUnfoldsPath(root, selectors, indexes, first, access);
      ReplaceUnfoldsPath(root, selectors, indexes, second, access);
      ReadsBack(below, rest, indexes', first, access);
      ReadsBack(below, rest, indexes', second, access);
      LastWriteWins(below, rest, indexes', first, second, access);
      assert Proper(root, access);
      hide Replace, Put, Path, Walk, Hops, Hop, Unaliased, Proper, Step, SameBut;
      var inner := Replace(below, rest, indexes', first, access).value;
      var again := Replace(below, rest, indexes', second, access).value;
      StepFrame(root, selector, index, access, inner.1, deeper);
      ProperFrame(root, selector, index, access, inner.1, deeper);
      PutReadsBack(root, selector, index, inner.0, inner.1);
      var outer := Put(root, selector, index, inner.0, inner.1).value;
      ReplaceUnfoldsPath(outer.0, selectors, indexes, second, outer.1);
      // The second write below starts from where the first left the outer storage.
      ReplaceFrame(inner.0, rest, indexes', second, inner.1, outer.1, Hop(root, selector));
      PathFrame(inner.0, rest, indexes', inner.1, outer.1, Hop(root, selector));
      ReadsBack(inner.0, rest, indexes', second, outer.1);
      var final := Replace(inner.0, rest, indexes', second, outer.1).value;
      SecondPut(root, selector, index, access, deeper, inner, again, outer, final);
    }
  }

  /** Putting the second value where the first left things is putting it where nothing was. */
  lemma {:induction false} SecondPut(root: Value, selector: Selector, index: nat, access: Access, deeper: set<Location>,
                                     inner: (Value, Access), again: (Value, Access), outer: (Value, Access), final: (Value, Access))
    requires Proper(root, access) && Step(root, selector, Some(index), access).At? && Hop(root, selector) !! deeper
    requires SameBut(access, inner.1, deeper) && SameBut(access, again.1, deeper)
    requires Put(root, selector, index, inner.0, inner.1) == Some(outer)
    requires SameBut(outer.1, final.1, deeper) && SameBut(again.1, final.1, Hop(root, selector)) && final.0 == again.0
    ensures Put(outer.0, selector, index, final.0, final.1) == Put(root, selector, index, again.0, again.1)
    decreases access.Live?, 2, 0
  {
    StepFrame(root, selector, index, access, again.1, deeper);
    ProperFrame(root, selector, index, access, again.1, deeper);
    PutReadsBack(root, selector, index, inner.0, again.1);
    PutFrame(root, selector, index, inner.0, inner.1, again.1, deeper);
    PutTwice(root, selector, index, inner.0, again.0, again.1, final.1);
  }
}
