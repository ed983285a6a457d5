/**
 Runs of a program that stores no borrows: assigning owned values, binding locals, borrowing arrays and copying into
 raw storage keep it so, and therefore every assignment of every run takes effect where it points, and only there.
 */
module CheckedRuns {
  import opened Wrappers
  import opened Place
  import opened PlaceLaws
  import opened PlaceUpdates
  import opened PlaceAssign
  import opened PlaceReads
  import opened BufferCopy

  datatype Operation =
    | Bind(local: nat, value: Value)
    | Write(cell: nat, selectors: seq<Selector>, indexes: seq<nat>, value: Value)
    | Borrow(local: nat, cell: nat, selectors: seq<Selector>)
    | CopyRange(buffer: RawBuffer, offset: nat, length: nat, source: Value, retains: bool)

  /** What an operation does to the store; only borrowing makes a borrow. */
  ghost predicate Performs(op: Operation, before: Store, after: Store) {
    match op
    case Bind(local, value) => Owned(value) && after == before.(cells := before.cells[local := value])
    case Write(cell, selectors, indexes, value) => Owned(value) && Assign(before, cell, selectors, indexes, value) == Some(after)
    case Borrow(local, cell, selectors) =>
      var slice := BorrowArray(before, cell, selectors);
      slice.Some? && after == before.(cells := before.cells[local := slice.value])
    case CopyRange(b, offset, length, source, retains) =>
      Copies(before, b, offset, length, source) && IsMove(before, after, b, offset, length, source, retains)
  }

  lemma SourceIsOwned(store: Store, source: Value, i: nat)
    requires Checked(store)
    ensures SourceAt(store, source, i).Some? ==> Owned(SourceAt(store, source, i).value)
  {
  }

  lemma CopyStaysChecked(before: Store, after: Store, b: RawBuffer, offset: nat, length: nat, source: Value, retains: bool)
    requires Checked(before) && IsMove(before, after, b, offset, length, source, retains)
    ensures Checked(after)
  {
    forall t, k | t in after.buffers && k in after.buffers[t].slots ensures Owned(after.buffers[t].slots[k]) {
      assert SlotOf(after, t, k) == Moved(before, b, offset, length, source, retains, t, k);
      if t == b.ticket && offset <= k < offset + length { SourceIsOwned(before, source, k - offset); }
    }
  }

  lemma StaysChecked(op: Operation, before: Store, after: Store)
    requires Checked(before) && Performs(op, before, after)
    ensures Checked(after)
  {
    match op
    case Bind(_, _) =>
    case Write(cell, selectors, indexes, value) => AssignStaysChecked(before, cell, selectors, indexes, value);
    case Borrow(_, _, _) =>
    case CopyRange(b, offset, length, source, retains) => CopyStaysChecked(before, after, b, offset, length, source, retains);
  }

  ghost predicate IsRun(ops: seq<Operation>, states: seq<Store>) {
    |states| == |ops| + 1 && forall i :: 0 <= i < |ops| ==> Performs(ops[i], states[i], states[i + 1])
  }

  /** Every state of a run from a checked store is checked. */
  lemma {:induction false} RunsStayChecked(ops: seq<Operation>, states: seq<Store>, n: nat)
    requires IsRun(ops, states) && Checked(states[0]) && n < |states|
    ensures Checked(states[n])
  {
    if n > 0 {
      RunsStayChecked(ops, states, n - 1);
      StaysChecked(ops[n - 1], states[n - 1], states[n]);
    }
  }

  /** Every assignment of a run takes effect and leaves every diverging path selecting what it did. */
  lemma EveryAssignmentTakesEffect(ops: seq<Operation>, states: seq<Store>, n: nat, ts: seq<Selector>, js: seq<nat>)
    requires IsRun(ops, states) && Checked(states[0]) && n < |ops| && ops[n].Write?
    requires var w := ops[n];
             && w.cell in states[n].cells && Path(states[n].cells[w.cell], w.selectors, w.indexes, Live(states[n]))
             && |ts| == |js| && Diverge(w.selectors, w.indexes, ts, js)
    ensures Selected(states[n + 1], ops[n].cell, ops[n].selectors, ops[n].indexes) == Some(ops[n].value)
    ensures Selected(states[n + 1], ops[n].cell, ts, js) == Selected(states[n], ops[n].cell, ts, js)
  {
    RunsStayChecked(ops, states, n);
    CheckedAssignment(states[n], ops[n].cell, ops[n].selectors, ops[n].indexes, ops[n].value, ts, js);
  }
}
