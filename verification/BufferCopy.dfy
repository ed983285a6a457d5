/**
 Copying a range into raw storage as one simultaneous move: every destination slot receives what its source held
 before the call, however the two ranges overlap, and a trap changes nothing. The source is a slice, over a cell
 or over raw storage, or static data.
 */
module BufferCopy {
  import opened Wrappers
  import opened Place
  import opened PlaceUpdates
  import opened PlaceReads

  datatype RawBuffer = RawBuffer(ticket: nat, count: nat)

  datatype Outcome = Done | Trapped | Faulted

  function SlotOf(store: Store, ticket: nat, k: nat): Option<Value> {
    if ticket in store.buffers && k in store.buffers[ticket].slots then Some(store.buffers[ticket].slots[k]) else None
  }

  predicate LiveBuffer(store: Store, ticket: nat) {
    ticket in store.buffers && store.buffers[ticket].active
  }

  predicate Readable(source: Value) {
    source.Slice? || source.StaticView?
  }

  predicate OverRaw(source: Value) {
    source.Slice? && source.location.Ticket?
  }

  /** The slice has no array to read straight from its cell. */
  predicate LostArray(store: Store, source: Value) {
    source.Slice? && source.location.Cell? && (source.location.cell !in store.cells || !store.cells[source.location.cell].Array?)
  }

  /** The value a copy finds at one index of the source range, if there is one. */
  function SourceAt(store: Store, source: Value, i: nat): Option<Value> {
    match source
    case StaticView(bytes, _) => if i < |bytes| then Some(Plain(bytes[i])) else None
    case Slice(location, base, _, _, _) =>
      if location.Ticket? then SlotOf(store, location.ticket, base + i) else DirectElement(store, location, base, i)
    case _ => None
  }

  /** The source range holds the value at an index: in a byte of static data, a slot, or the array of the slice's own cell. */
  ghost predicate HasSource(store: Store, source: Value, i: nat, v: Value) {
    match source
    case StaticView(bytes, _) => i < |bytes| && v == Plain(bytes[i])
    case Slice(Ticket(t), base, _, _, _) =>
      t in store.buffers && base + i in store.buffers[t].slots && store.buffers[t].slots[base + i] == v
    case Slice(Cell(c), base, _, _, _) =>
      c in store.cells && store.cells[c].Array? && base + i < |store.cells[c].elements| && store.cells[c].elements[base + i] == v
    case _ => false
  }

  ghost predicate IsInitialized(store: Store, source: Value, i: nat) {
    exists v :: HasSource(store, source, i, v)
  }

  lemma InitializedMeans(store: Store, source: Value, i: nat)
    ensures SourceAt(store, source, i).Some? <==> IsInitialized(store, source, i)
  {
    if SourceAt(store, source, i).Some? { assert HasSource(store, source, i, SourceAt(store, source, i).value); }
  }

  lemma RangeMeans(store: Store, source: Value, length: nat)
    ensures (forall i: nat :: i < length ==> IsInitialized(store, source, i)) <==> (forall i: nat :: i < length ==> SourceAt(store, source, i).Some?)
  {
    forall i: nat | i < length ensures SourceAt(store, source, i).Some? <==> IsInitialized(store, source, i) {
      InitializedMeans(store, source, i);
    }
  }

  lemma SourceMeans(store: Store, source: Value, i: nat, v: Value)
    ensures SourceAt(store, source, i) == Some(v) <==> HasSource(store, source, i, v)
  {
  }

  predicate InRange(b: RawBuffer, offset: nat, length: nat, source: Value)
    requires Readable(source)
  {
    length <= source.length && offset + length <= b.count && offset <= MAX_SAFE_INTEGER && length <= MAX_SAFE_INTEGER
  }

  /** When the evaluator meets what its verifier rules out: no readable source, or a slice whose cell is no array. */
  predicate Faults(store: Store, b: RawBuffer, offset: nat, length: nat, source: Value) {
    (!source.Slice? && !source.StaticView?)
    || (InRange(b, offset, length, source) && LiveBuffer(store, b.ticket) && LostArray(store, source))
  }

  /** When a copy goes through: the ranges fit, the storage is live and every source slot is initialized. */
  ghost predicate Copies(store: Store, b: RawBuffer, offset: nat, length: nat, source: Value) {
    && (source.Slice? || source.StaticView?) && InRange(b, offset, length, source)
    && b.ticket in store.buffers && store.buffers[b.ticket].active
    && (source.Slice? && source.location.Ticket? ==> source.location.ticket in store.buffers && store.buffers[source.location.ticket].active)
    && (source.Slice? && source.location.Cell? ==> source.location.cell in store.cells && store.cells[source.location.cell].Array?)
    && forall i: nat :: i < length ==> IsInitialized(store, source, i)
  }

  predicate Vacated(source: Value, retains: bool, length: nat, ticket: nat, k: nat) {
    OverRaw(source) && !retains && ticket == source.location.ticket && source.base <= k < source.base + length
  }

  /** What a slot holds once the move is over, in terms of what every slot held before it. */
  function Moved(before: Store, b: RawBuffer, offset: nat, length: nat, source: Value, retains: bool, ticket: nat, k: nat): Option<Value> {
    if ticket == b.ticket && offset <= k < offset + length then SourceAt(before, source, k - offset)
    else if Vacated(source, retains, length, ticket, k) then None
    else SlotOf(before, ticket, k)
  }

  /** The same cells, the same buffers, live or not as before, holding exactly the moved slots. */
  ghost predicate IsMove(before: Store, after: Store, b: RawBuffer, offset: nat, length: nat, source: Value, retains: bool) {
    && SameOutside(before, after)
    && forall t, k: nat :: t in before.buffers ==> SlotOf(after, t, k) == Moved(before, b, offset, length, source, retains, t, k)
  }

  /** The stores differ at most in what slots of buffers hold. */
  ghost predicate SameOutside(before: Store, after: Store) {
    && after.locals == before.locals && after.cells == before.cells && after.buffers.Keys == before.buffers.Keys
    && forall t :: t in before.buffers ==> after.buffers[t].active == before.buffers[t].active
  }

  class RawStorage {
    var store: Store

    constructor (store: Store)
      ensures this.store == store
    {
      this.store := store;
    }

    /** Reads the whole source range, or reports its first uninitialized slot. */
    method ReadRange(source: Value, length: nat) returns (moved: seq<Value>, complete: bool)
      ensures complete <==> forall i: nat :: i < length ==> SourceAt(store, source, i).Some?
      ensures complete ==> |moved| == length
      ensures complete ==> forall i: nat :: i < length ==> SourceAt(store, source, i) == Some(moved[i])
    {
      moved := [];
      for i := 0 to length
        invariant |moved| == i
        invariant forall j: nat :: j < i ==> SourceAt(store, source, j) == Some(moved[j])
      {
        var selected := SourceAt(store, source, i);
        if selected.None? { return moved, false; }
        moved := moved + [selected.value];
      }
      complete := true;
    }

    /** Gives up a range of slots. */
    method Vacate(ticket: nat, base: nat, length: nat)
      requires ticket in store.buffers
      modifies this
      ensures SameOutside(old(store), store)
      ensures forall t, k: nat :: t in store.buffers ==>
        SlotOf(store, t, k) == if t == ticket && base <= k < base + length then None else SlotOf(old(store), t, k)
    {
      for i := 0 to length
        invariant SameOutside(old(store), store)
        invariant forall t, k: nat :: t in store.buffers ==>
          SlotOf(store, t, k) == if t == ticket && base <= k < base + i then None else SlotOf(old(store), t, k)
      {
        ghost var before := store;
        store := store.(buffers := store.buffers[ticket := Buffer(store.buffers[ticket].active, store.buffers[ticket].slots - {base + i})]);
        forall t, k: nat | t in store.buffers
          ensures SlotOf(store, t, k) == if t == ticket && k == base + i then None else SlotOf(before, t, k)
        {
        }
      }
    }

    /** Writes a range of slots, initialized or not. */
    method WriteRange(ticket: nat, offset: nat, moved: seq<Value>)
      requires ticket in store.buffers
      modifies this
      ensures SameOutside(old(store), store)
      ensures forall t, k: nat :: t in store.buffers ==>
        SlotOf(store, t, k)
        == if t == ticket && offset <= k < offset + |moved| then Some(moved[k - offset]) else SlotOf(old(store), t, k)
    {
      for i := 0 to |moved|
        invariant SameOutside(old(store), store)
        invariant forall t, k: nat :: t in store.buffers ==>
          SlotOf(store, t, k)
          == if t == ticket && offset <= k < offset + i then Some(moved[k - offset]) else SlotOf(old(store), t, k)
      {
        ghost var before := store;
        store := store.(buffers := store.buffers[ticket := Buffer(store.buffers[ticket].active, store.buffers[ticket].slots[offset + i := moved[i]])]);
        forall t, k: nat | t in store.buffers
          ensures SlotOf(store, t, k) == if t == ticket && k == offset + i then Some(moved[i]) else SlotOf(before, t, k)
        {
        }
      }
    }

    /** Copies a range; it goes through exactly when it can, and otherwise leaves every slot alone. */
    method Copy(b: RawBuffer, offset: nat, length: nat, source: Value, retains: bool) returns (outcome: Outcome)
      modifies this
      ensures outcome == Done <==> Copies(old(store), b, offset, length, source)
      ensures outcome == Faulted <==> Faults(old(store), b, offset, length, source)
      ensures outcome != Done ==> store == old(store)
      ensures outcome == Done ==> IsMove(old(store), store, b, offset, length, source, retains)
    {
      if !Readable(source) { return Faulted; }
      if length > source.length || offset > b.count || length > b.count - offset
         || offset > MAX_SAFE_INTEGER || length > MAX_SAFE_INTEGER { return Trapped; }
      if b.ticket !in store.buffers || !store.buffers[b.ticket].active { return Trapped; }
      if source.Slice? && source.location.Cell? && source.location.cell !in store.cells { return Faulted; }
      if OverRaw(source) && !LiveBuffer(store, source.location.ticket) { return Trapped; }
      if source.Slice? && source.location.Cell? && !store.cells[source.location.cell].Array? { return Faulted; }
      var moved, complete := ReadRange(source, length);
      RangeMeans(store, source, length);
      if !complete { return Trapped; }
      if !retains && OverRaw(source) { Vacate(source.location.ticket, source.base, length); }
      WriteRange(b.ticket, offset, moved);
      return Done;
    }
  }

  // ---------------------------------------------------------------------------
  // What a simultaneous move means
  // ---------------------------------------------------------------------------

  lemma SameSlots(x: Store, y: Store, t: nat)
    requires t in x.buffers && t in y.buffers && forall k: nat :: SlotOf(x, t, k) == SlotOf(y, t, k)
    ensures x.buffers[t].slots == y.buffers[t].slots
  {
    forall k: nat ensures k in x.buffers[t].slots <==> k in y.buffers[t].slots {
      assert SlotOf(x, t, k) == SlotOf(y, t, k);
    }
    forall k | k in x.buffers[t].slots ensures x.buffers[t].slots[k] == y.buffers[t].slots[k] {
      assert SlotOf(x, t, k) == SlotOf(y, t, k);
    }
  }

  /** A copy determines the storage it leaves. */
  lemma MoveIsUnique(before: Store, x: Store, y: Store, b: RawBuffer, offset: nat, length: nat, source: Value, retains: bool)
    requires IsMove(before, x, b, offset, length, source, retains) && IsMove(before, y, b, offset, length, source, retains)
    ensures x == y
  {
    forall t | t in before.buffers ensures x.buffers[t] == y.buffers[t] {
      SameSlots(x, y, t);
    }
    assert x.buffers == y.buffers;
  }

  /** Slots the way back needs vacant: those of the target range that the source range does not share. */
  ghost predicate VacantBeyond(s: Store, ticket: nat, from: nat, to: nat, length: nat) {
    forall k :: to <= k < to + length && !(from <= k < from + length) ==> SlotOf(s, ticket, k).None?
  }

  /** A slice over raw storage. */
  function RawSlice(ticket: nat, base: nat, length: nat): Value {
    Slice(Ticket(ticket), base, length, [], [])
  }

  /** Moving a range within one buffer onto vacant slots and back again restores every slot, overlapping or not. */
  lemma MoveThereAndBack(s0: Store, s1: Store, s2: Store, b: RawBuffer, from: nat, to: nat, length: nat)
    requires Copies(s0, b, to, length, RawSlice(b.ticket, from, length)) && from + length <= b.count && from <= MAX_SAFE_INTEGER
    requires IsMove(s0, s1, b, to, length, RawSlice(b.ticket, from, length), false)
    requires IsMove(s1, s2, b, from, length, RawSlice(b.ticket, to, length), false)
    requires VacantBeyond(s0, b.ticket, from, to, length)
    ensures Copies(s1, b, from, length, RawSlice(b.ticket, to, length))
    ensures s2 == s0
  {
    var t := b.ticket;
    RangeMeans(s0, RawSlice(t, from, length), length);
    RangeMeans(s1, RawSlice(t, to, length), length);
    forall i: nat | i < length
      ensures SlotOf(s1, t, to + i) == SlotOf(s0, t, from + i) && SourceAt(s1, RawSlice(t, to, length), i).Some?
    {
      assert SourceAt(s0, RawSlice(t, from, length), i).Some?;
    }
    forall u | u in s0.buffers ensures s2.buffers[u] == s0.buffers[u] {
      forall k: nat ensures SlotOf(s2, u, k) == SlotOf(s0, u, k) {
        if u == t && from <= k < from + length { assert SlotOf(s1, t, to + (k - from)) == SlotOf(s0, t, k); }
      }
      SameSlots(s2, s0, u);
    }
    assert s2.buffers == s0.buffers;
  }

  // ---------------------------------------------------------------------------
  // Whether what is copied is the slice
  // ---------------------------------------------------------------------------

  /** The slice has the elements to be copied. */
  ghost predicate Holds(store: Store, s: Value, length: nat)
    requires s.Slice?
  {
    && (s.location.Ticket? ==> LiveBuffer(store, s.location.ticket))
    && (s.location.Cell? ==> s.location.cell in store.cells)
    && forall i: nat :: i < length ==> SliceElement(store, s, i).Some?
  }

  /** A caller can tell: over raw storage, or over a whole cell, or nothing to copy from a cell that is an array at all. */
  predicate WholeCell(store: Store, s: Value, length: nat)
    requires s.Slice? && (s.location.Cell? ==> s.location.cell in store.cells)
  {
    s.location.Ticket? || (length == 0 && store.cells[s.location.cell].Array?) || (length > 0 && s.selectors == [])
  }

  /**
   Copying a slice of well-typed values fills the destination with the elements of the slice exactly when the slice
   keeps no path into its cell; with such a path the copy fails, or moves other values.
   */
  lemma CopiesTheSliceExactly(before: Store, after: Store, b: RawBuffer, offset: nat, length: nat, s: Value, retains: bool)
    requires Typed(before) && s.Slice? && InRange(b, offset, length, s) && LiveBuffer(before, b.ticket) && Holds(before, s, length)
    requires Copies(before, b, offset, length, s) ==> IsMove(before, after, b, offset, length, s, retains)
    ensures (&& Copies(before, b, offset, length, s)
             && forall i: nat :: i < length ==> SlotOf(after, b.ticket, offset + i) == SliceElement(before, s, i))
            <==> WholeCell(before, s, length)
  {
    RangeMeans(before, s, length);
    forall i: nat | i < length
      ensures SourceAt(before, s, i) == SliceElement(before, s, i) <==> s.location.Ticket? || s.selectors == []
    {
      assert SliceElement(before, s, i).Some?;
      DirectExactly(before, s, i);
    }
    if Copies(before, b, offset, length, s) {
      forall i: nat | i < length ensures SlotOf(after, b.ticket, offset + i) == SourceAt(before, s, i) {
        assert Moved(before, b, offset, length, s, retains, b.ticket, offset + i) == SourceAt(before, s, i);
      }
    }
    if length > 0 { assert SliceElement(before, s, 0).Some?; }
  }

  /** The matrix beside a vacant buffer: copying the slice of its first row moves the two rows. */
  lemma CopyMovesRows(after: Store)
    requires IsMove(MATRIX.(buffers := map[0 := Buffer(true, map[])]), after, RawBuffer(0, 2), 0, 2, FIRST_ROW, true)
    ensures var before := MATRIX.(buffers := map[0 := Buffer(true, map[])]);
            && Copies(before, RawBuffer(0, 2), 0, 2, FIRST_ROW)
            && SliceElement(before, FIRST_ROW, 0) == Some(Plain(1)) && SlotOf(after, 0, 0) == Some(ROW)
            && SliceElement(before, FIRST_ROW, 1) == Some(Plain(2)) && SlotOf(after, 0, 1) == Some(Array([Plain(3), Plain(4)]))
  {
    var before := MATRIX.(buffers := map[0 := Buffer(true, map[])]);
    var root, path := before.cells[0], [ElementSelector(Proven(0), 2)];
    assert path[1..] == [] && [0][1..] == [] && Walk(ROW, [], [], Stored) == Resolved(ROW, []);
    assert Step(root, path[0], Some(0), Stored) == At(ROW, 0);
    assert Walk(root, path, [0], Stored) == Resolved(ROW, [0]);
    RangeMeans(before, FIRST_ROW, 2);
    assert Moved(before, RawBuffer(0, 2), 0, 2, FIRST_ROW, true, 0, 0) == SourceAt(before, FIRST_ROW, 0);
    assert Moved(before, RawBuffer(0, 2), 0, 2, FIRST_ROW, true, 0, 1) == SourceAt(before, FIRST_ROW, 1);
  }
}
