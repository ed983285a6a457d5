/**
 Assignments through a path rooted in a cell: exactly when one takes effect, and why the cases in which it does
 not, and the aliasing the laws of updates exclude, need a borrow kept inside other data.
 */
module PlaceAssign {
  import opened Wrappers
  import opened Place
  import opened PlaceLaws
  import opened PlaceUpdates

  /** Assigns through a path rooted in a cell: replace what the cell held, then store the result there. */
  function Assign(store: Store, cell: nat, selectors: seq<Selector>, indexes: seq<nat>, value: Value): Option<Store> {
    if cell !in store.cells then None
    else
      var r := Replace(store.cells[cell], selectors, indexes, value, Live(store));
      if r.None? || !r.value.1.Live? then None
      else Some(r.value.1.store.(cells := r.value.1.store.cells[cell := r.value.0]))
  }

  /** What the path now selects from the cell. */
  function Selected(store: Store, cell: nat, selectors: seq<Selector>, indexes: seq<nat>): Option<Value> {
    if cell in store.cells then Selects(store.cells[cell], selectors, indexes, Live(store)) else None
  }

  lemma RestoredCell(store: Store, after: Store, cell: nat, root: Value)
    requires cell in store.cells && store.cells[cell] == root && SameBut(Live(store), Live(after), {Cell(cell)})
    ensures after.(cells := after.cells[cell := root]) == store
  {
    StoresEqual(Live(store), Live(after.(cells := after.cells[cell := root])));
  }

  lemma CellStored(after: Store, cell: nat, root: Value)
    ensures SameBut(Live(after), Live(after.(cells := after.cells[cell := root])), {Cell(cell)})
  {
  }

  /** The path last reaches into the very cell it is rooted in. */
  predicate EndsAtItsRoot(store: Store, cell: nat, selectors: seq<Selector>, indexes: seq<nat>) {
    cell in store.cells && Cell(cell) in Touched(store.cells[cell], selectors, indexes, Live(store))
  }

  /**
   An assignment through a path takes effect unless the last storage the path reaches into is the very
   cell it is rooted in: then the rebuilt root overwrites the write, and nothing at all has changed.
   */
  lemma AssignTakesExactly(store: Store, cell: nat, selectors: seq<Selector>, indexes: seq<nat>, value: Value)
    requires cell in store.cells && Path(store.cells[cell], selectors, indexes, Live(store))
    requires Unaliased(store.cells[cell], selectors, indexes, Live(store))
    ensures Assign(store, cell, selectors, indexes, value).Some?
    ensures var store' := Assign(store, cell, selectors, indexes, value).value;
            if EndsAtItsRoot(store, cell, selectors, indexes) then store' == store
            else Selected(store', cell, selectors, indexes) == Some(value)
  {
    var root, access := store.cells[cell], Live(store);
    var last := LastReach(root, selectors, indexes, access);
    ReadsBack(root, selectors, indexes, value, access);
    OnlyTheLastSlotChanges(root, selectors, indexes, value, access);
    LastReachIsHop(root, selectors, indexes, access);
    var r := Replace(root, selectors, indexes, value, access).value;
    var after := r.1.store;
    var stored := after.(cells := after.cells[cell := r.0]);
    hide Replace, Path, Walk, Hops, Unaliased, LastReach, OnlySlot;
    if EndsAtItsRoot(store, cell, selectors, indexes) {
      RestoredCell(store, after, cell, root);
    } else if last.Some? {
      assert ContentsOf(after, Cell(cell)) == ContentsOf(store, Cell(cell));
      assert after.cells[cell := r.0] == after.cells;
    } else {
      CellStored(after, cell, r.0);
      PathFrame(r.0, selectors, indexes, r.1, Live(stored), {Cell(cell)});
    }
  }

  // ---------------------------------------------------------------------------
  // What breaks the laws: a borrow kept inside the data it borrows
  // ---------------------------------------------------------------------------

  const VIEW := FieldId(0, 0, 0)
  const DATA := FieldId(0, 0, 1)

  /** A struct in cell 0 whose view field borrows its own array field. */
  const SELF_VIEWING: Store :=
    Store(map[],
          map[0 := Aggregate([Field(VIEW, Slice(Cell(0), 0, 1, [FieldSelector(DATA)], [1])), Field(DATA, Array([Plain(7)]))])],
          map[])

  /** There the assignment `view[0] = 8` changes nothing. */
  lemma AssignmentCanBeLost()
    ensures var path, indexes := [FieldSelector(VIEW), SliceSelector(0)], [0, 0];
            && Path(SELF_VIEWING.cells[0], path, indexes, Live(SELF_VIEWING))
            && Unaliased(SELF_VIEWING.cells[0], path, indexes, Live(SELF_VIEWING))
            && Selected(SELF_VIEWING, 0, path, indexes) == Some(Plain(7))
            && EndsAtItsRoot(SELF_VIEWING, 0, path, indexes)
            && Assign(SELF_VIEWING, 0, path, indexes, Plain(8)) == Some(SELF_VIEWING)
  {
    var path, indexes := [FieldSelector(VIEW), SliceSelector(0)], [0, 0];
    var root, access := SELF_VIEWING.cells[0], Live(SELF_VIEWING);
    var view, data := root.fields[0].value, root.fields[1].value;
    assert path[1..] == [SliceSelector(0)] && indexes[1..] == [0] && [SliceSelector(0)][1..] == [] && [0][1..] == [];
    assert Step(root, FieldSelector(VIEW), Some(0), access) == At(view, 0);
    assert Step(root, FieldSelector(DATA), Some(1), Stored) == At(data, 1) by {
      assert root.fields[1..] == [root.fields[1]];
      assert FindField(root.fields[1..], DATA) == Some(data);
    }
    assert Path(data, [], [], Stored) && [FieldSelector(DATA)][1..] == [] && [1][1..] == [];
    assert Walk(root, [FieldSelector(DATA)], [1], Stored) == Resolved(data, [1]) by { assert Walk(data, [], [], Stored) == Resolved(data, []); }
    assert Step(view, SliceSelector(0), Some(0), access) == At(Plain(7), 0);
    assert Path(root, [FieldSelector(DATA)], [1], Stored);
    assert Path(Plain(7), [], [], access) && Walk(Plain(7), [], [], access) == Resolved(Plain(7), []);
    assert Path(view, [SliceSelector(0)], [0], access);
    assert Walk(view, [SliceSelector(0)], [0], access) == Resolved(Plain(7), [0]);
    assert LastReach(view, [SliceSelector(0)], [0], access) == Some((view, 0));
    AssignTakesExactly(SELF_VIEWING, 0, path, indexes, Plain(8));
  }

  /** An array in cell 0 whose one element borrows the array. */
  const OUROBOROS := Slice(Cell(0), 0, 1, [], [])
  const SELF_BORROWING: Store := Store(map[], map[0 := Array([OUROBOROS])], map[])

  /** A path that reaches into it twice resolves, and replacing what it selects changes nothing. */
  lemma AliasedUpdateCanBeLost()
    ensures var path, indexes := [SliceSelector(0), SliceSelector(0)], [0, 0];
            && Path(OUROBOROS, path, indexes, Live(SELF_BORROWING)) && !Unaliased(OUROBOROS, path, indexes, Live(SELF_BORROWING))
            && Replace(OUROBOROS, path, indexes, Plain(8), Live(SELF_BORROWING)) == Some((OUROBOROS, Live(SELF_BORROWING)))
  {
    var path, indexes, access := [SliceSelector(0), SliceSelector(0)], [0, 0], Live(SELF_BORROWING);
    var cell := SELF_BORROWING.cells[0];
    assert Walk(cell, [], [], Stored) == Resolved(cell, []) && Path(cell, [], [], Stored);
    assert Step(OUROBOROS, SliceSelector(0), Some(0), access) == At(OUROBOROS, 0);
    assert path[1..] == [SliceSelector(0)] && indexes[1..] == [0] && [SliceSelector(0)][1..] == [] && [0][1..] == [];
    assert Path(OUROBOROS, [], [], access) && Path(OUROBOROS, [SliceSelector(0)], [0], access);
    assert Hops(OUROBOROS, [SliceSelector(0)], [0], access) == {Cell(0)};
    var written := Live(SELF_BORROWING.(cells := map[0 := Array([Plain(8)])]));
    assert SetElement(access, Cell(0), 0, [], [], 0, Plain(8)) == Some(written) by {
      assert cell.elements[0 := Plain(8)] == [Plain(8)];
      assert SELF_BORROWING.cells[0 := Array([Plain(8)])] == map[0 := Array([Plain(8)])];
    }
    assert Replace(OUROBOROS, [], [], Plain(8), access) == Some((Plain(8), access));
    assert Replace(OUROBOROS, [SliceSelector(0)], [0], Plain(8), access) == Some((OUROBOROS, written));
    assert SetElement(written, Cell(0), 0, [], [], 0, OUROBOROS) == Some(access) by {
      var now := Array([Plain(8)]);
      assert Walk(now, [], [], Stored) == Resolved(now, []) && now.elements[0 := OUROBOROS] == [OUROBOROS];
      assert written.store.cells[0 := Array([OUROBOROS])] == SELF_BORROWING.cells;
    }
  }

  // ---------------------------------------------------------------------------
  // Checked programs keep borrows out of other data
  // ---------------------------------------------------------------------------

  /** A value that may be stored: no borrow anywhere inside it. */
  ghost predicate Owned(v: Value) {
    match v
    case Plain(_) => true
    case Aggregate(fields) => forall i :: 0 <= i < |fields| ==> Owned(fields[i].value)
    case Array(elements) => forall i :: 0 <= i < |elements| ==> Owned(elements[i])
    case _ => false
  }

  /** The language's rule: a borrow is a whole local, never a part of one nor of raw storage. */
  ghost predicate Checked(store: Store) {
    && (forall c :: c in store.cells ==> var v := store.cells[c]; v.Slice? || v.StaticView? || Owned(v))
    && forall t, k :: t in store.buffers && k in store.buffers[t].slots ==> Owned(store.buffers[t].slots[k])
  }

  lemma {:induction false} OwnedPathStays(root: Value, selectors: seq<Selector>, indexes: seq<nat>, access: Access)
    requires Owned(root)
    ensures Hops(root, selectors, indexes, access) == {} && LastReach(root, selectors, indexes, access).None?
    ensures var r := Walk(root, selectors, indexes, access); r.Resolved? ==> Owned(r.selected)
    decreases |selectors|
  {
    if selectors != [] {
      var captured := Step(root, selectors[0], First(indexes), access);
      if captured.At? { OwnedPathStays(captured.value, selectors[1..], Rest(indexes), access); }
    }
  }

  lemma BorrowHoldsNoArray(root: Value, selectors: seq<Selector>, indexes: seq<nat>)
    requires root.Slice? || root.StaticView?
    ensures var r := Walk(root, selectors, indexes, Stored); r.Resolved? ==> !r.selected.Array?
  {
    if selectors != [] {
      var step := Step(root, selectors[0], First(indexes), Stored);
      if step.At? { BytesHoldNoArray(step.value, selectors[1..], Rest(indexes)); }
    }
  }

  lemma BytesHoldNoArray(root: Value, selectors: seq<Selector>, indexes: seq<nat>)
    requires root.Plain?
    ensures var r := Walk(root, selectors, indexes, Stored); r.Resolved? ==> r.selected.Plain?
  {
  }

  /** What the first step of a path finds is owned, so the path reaches into storage once at most. */
  lemma BelowIsOwned(store: Store, root: Value, selector: Selector, index: nat)
    requires Checked(store) && (root.Slice? || root.StaticView? || Owned(root))
    ensures var step := Step(root, selector, Some(index), Live(store)); step.At? ==> Owned(step.value)
    ensures var step := Step(root, selector, Some(index), Live(store));
            step.At? && selector.SliceSelector? && root.Slice? && root.location.Cell? ==>
              root.location.cell in store.cells && !store.cells[root.location.cell].Slice?
  {
    if root.Slice? && root.location.Cell? && root.location.cell in store.cells {
      var cell := store.cells[root.location.cell];
      if Owned(cell) {
        OwnedPathStays(cell, root.selectors, root.indexes, Stored);
      } else {
        BorrowHoldsNoArray(cell, root.selectors, root.indexes);
      }
    }
    var step := Step(root, selector, Some(index), Live(store));
    if selector.SliceSelector? && root.Slice? && step.At? {
      match root.location
      case Ticket(t) => assert store.buffers[t].slots[root.base + index] == step.value;
      case Cell(c) =>
        var backing := Walk(store.cells[c], root.selectors, root.indexes, Stored).selected;
        assert backing.elements[root.base + index] == step.value;
    }
  }

  /** In a checked program no path reaches into one storage twice, nor back into the cell it is rooted in. */
  lemma CheckedPathsReachOnce(store: Store, cell: nat, selectors: seq<Selector>, indexes: seq<nat>)
    requires Checked(store) && cell in store.cells
    ensures Unaliased(store.cells[cell], selectors, indexes, Live(store))
    ensures !EndsAtItsRoot(store, cell, selectors, indexes)
  {
    var root, access := store.cells[cell], Live(store);
    if selectors != [] && indexes != [] && Step(root, selectors[0], Some(indexes[0]), access).At? {
      var below := Step(root, selectors[0], Some(indexes[0]), access).value;
      BelowIsOwned(store, root, selectors[0], indexes[0]);
      OwnedPathStays(below, selectors[1..], indexes[1..], access);
      NoHopsUnaliased(below, selectors[1..], indexes[1..], access);
    }
  }

  /**
   So every resolved place of a checked program is replaced exactly when it avoids static data; then it reads back,
   and of two writes the last wins.
   */
  lemma CheckedUpdatesAreLawful(store: Store, cell: nat, selectors: seq<Selector>, captured: seq<nat>, first: Value, second: Value)
    requires Checked(store) && cell in store.cells && Tidy(store.cells[cell]) && TidyAccess(Live(store))
    requires Walk(store.cells[cell], selectors, captured, Live(store)).Resolved?
    ensures var root, indexes := store.cells[cell], Walk(store.cells[cell], selectors, captured, Live(store)).indexes;
            var once := Replace(root, selectors, indexes, first, Live(store));
            && (once.Some? <==> !ThroughStatic(root, selectors, indexes, Live(store)))
            && (once.Some? ==>
                  && Selects(once.value.0, selectors, indexes, once.value.1) == Some(first)
                  && Replace(once.value.0, selectors, indexes, second, once.value.1) == Replace(root, selectors, indexes, second, Live(store)))
  {
    var root, access := store.cells[cell], Live(store);
    var indexes := Walk(root, selectors, captured, access).indexes;
    CheckedPathsReachOnce(store, cell, selectors, indexes);
    ReplaceableExactly(root, selectors, captured, first, access);
    if !ThroughStatic(root, selectors, indexes, access) {
      WalkReplays(root, selectors, captured, access);
      ResolvedIsPath(root, selectors, indexes, access);
      ReadsBack(root, selectors, indexes, first, access);
      LastWriteWins(root, selectors, indexes, first, second, access);
    }
  }

  /** Of all storage an update there changes one slot, the one its path reaches last; without a hop only the root changes. */
  lemma CheckedUpdateChangesOneSlot(store: Store, cell: nat, selectors: seq<Selector>, indexes: seq<nat>, value: Value)
    requires Checked(store) && cell in store.cells && Path(store.cells[cell], selectors, indexes, Live(store))
    ensures Replace(store.cells[cell], selectors, indexes, value, Live(store)).Some?
    ensures var root := store.cells[cell];
            var r, last := Replace(root, selectors, indexes, value, Live(store)).value, LastReach(root, selectors, indexes, Live(store));
            && r.1.Live?
            && if last.Some? then r.0 == root && OnlySlot(store, r.1.store, last.value.0, last.value.1) else r.1.store == store
  {
    CheckedPathsReachOnce(store, cell, selectors, indexes);
    OnlyTheLastSlotChanges(store.cells[cell], selectors, indexes, value, Live(store));
  }

  lemma {:induction false} CheckedPathsAreApart(store: Store, root: Value, ss: seq<Selector>, is_: seq<nat>, ts: seq<Selector>, js: seq<nat>, changed: set<Location>)
    requires Checked(store) && (root.Slice? || root.StaticView? || Owned(root))
    requires |ss| == |is_| && |ts| == |js| && Diverge(ss, is_, ts, js)
    ensures Apart(root, ss, is_, ts, js, Live(store), changed)
    decreases |ss|
  {
    BelowIsOwned(store, root, ts[0], js[0]);
    var step := Step(root, ts[0], Some(js[0]), Live(store));
    if step.At? {
      if HeadsDiffer(ss[0], is_[0], ts[0], js[0]) { OwnedPathStays(step.value, ts[1..], js[1..], Live(store)); }
      else { CheckedPathsAreApart(store, step.value, ss[1..], is_[1..], ts[1..], js[1..], changed); }
    }
  }

  /** So there every assignment takes effect, and leaves every diverging path selecting what it did. */
  lemma CheckedAssignment(store: Store, cell: nat, ss: seq<Selector>, is_: seq<nat>, value: Value, ts: seq<Selector>, js: seq<nat>)
    requires Checked(store) && cell in store.cells && Path(store.cells[cell], ss, is_, Live(store))
    requires |ts| == |js| && Diverge(ss, is_, ts, js)
    ensures Assign(store, cell, ss, is_, value).Some?
    ensures var store' := Assign(store, cell, ss, is_, value).value;
            && Selected(store', cell, ss, is_) == Some(value)
            && Selected(store', cell, ts, js) == Selected(store, cell, ts, js)
  {
    var root, access := store.cells[cell], Live(store);
    var changed := Touched(root, ss, is_, access);
    CheckedPathsReachOnce(store, cell, ss, is_);
    AssignTakesExactly(store, cell, ss, is_, value);
    CheckedPathsAreApart(store, root, ss, is_, ts, js, changed);
    OnlyTheLastSlotChanges(root, ss, is_, value, access);
    DivergingPathUntouched(root, ss, is_, ts, js, value, access, changed);
    var r := Replace(root, ss, is_, value, access).value;
    var after := r.1.store;
    if LastReach(root, ss, is_, access).Some? {
      assert ContentsOf(after, Cell(cell)) == ContentsOf(store, Cell(cell));
      assert after.cells[cell := r.0] == after.cells;
    } else {
      RootOwned(store, root, ss, is_);
      OwnedPathStays(root, ts, js, access);
      CellStored(after, cell, r.0);
      WalkFrame(r.0, ts, js, r.1, Live(after.(cells := after.cells[cell := r.0])), {Cell(cell)});
    }
  }

  lemma RootOwned(store: Store, root: Value, ss: seq<Selector>, is_: seq<nat>)
    requires Checked(store) && (root.Slice? || root.StaticView? || Owned(root))
    requires ss != [] && Path(root, ss, is_, Live(store)) && LastReach(root, ss, is_, Live(store)).None?
    ensures Owned(root)
  {
  }

  // ---------------------------------------------------------------------------
  // Programs stay checked
  // ---------------------------------------------------------------------------

  /** Replacing inside an owned value by an owned value stays inside it, and owned. */
  lemma {:induction false} OwnedReplaces(root: Value, selectors: seq<Selector>, indexes: seq<nat>, value: Value, access: Access)
    requires Owned(root) && Owned(value)
    ensures var r := Replace(root, selectors, indexes, value, access); r.Some? ==> Owned(r.value.0) && r.value.1 == access
    decreases |selectors|, 0
  {
    if selectors != [] && indexes != [] {
      match selectors[0]
      case FieldSelector(id) =>
        if root.Aggregate? { OwnedFieldsReplace(root.fields, id.ordinal, selectors[1..], indexes[1..], value, access); }
      case ElementSelector(_, _) =>
        if root.Array? && indexes[0] < |root.elements| {
          OwnedReplaces(root.elements[indexes[0]], selectors[1..], indexes[1..], value, access);
        }
      case SliceSelector(_) =>
    }
  }

  lemma {:induction false} OwnedFieldsReplace(fields: seq<Field>, ordinal: nat, selectors: seq<Selector>, indexes: seq<nat>, value: Value, access: Access)
    requires (forall i :: 0 <= i < |fields| ==> Owned(fields[i].value)) && Owned(value)
    ensures var r := ReplaceFields(fields, ordinal, selectors, indexes, value, access);
            r.Some? ==> (forall i :: 0 <= i < |r.value.0| ==> Owned(r.value.0[i].value)) && r.value.1 == access
    decreases |selectors|, 1 + |fields|
  {
    if fields != [] {
      assert forall i :: 0 <= i < |fields[1..]| ==> fields[1..][i] == fields[i + 1];
      if fields[0].id.ordinal == ordinal { OwnedReplaces(fields[0].value, selectors, indexes, value, access); }
      OwnedFieldsReplace(fields[1..], ordinal, selectors, indexes, value, access);
    }
  }

  /** Writing an owned element of a slice keeps what its cell or buffer holds owned. */
  lemma SliceStaysChecked(store: Store, s: Value, index: nat, value: Value)
    requires Checked(store) && s.Slice? && Owned(value)
    ensures var r := SetElement(Live(store), s.location, s.base, s.selectors, s.indexes, index, value);
            r.Some? ==> Checked(r.value.store)
    ensures var r := SetElement(Live(store), s.location, s.base, s.selectors, s.indexes, index, value);
            r.Some? ==> forall c :: c in store.cells && !Owned(store.cells[c]) ==> c in r.value.store.cells && r.value.store.cells[c] == store.cells[c]
  {
    var r := SetElement(Live(store), s.location, s.base, s.selectors, s.indexes, index, value);
    if r.Some? && s.location.Cell? {
      var cell := store.cells[s.location.cell];
      if !Owned(cell) { BorrowHoldsNoArray(cell, s.selectors, s.indexes); }
      OwnedPathStays(cell, s.selectors, s.indexes, Stored);
      var elements := Walk(cell, s.selectors, s.indexes, Stored).selected.elements;
      var updated := Array(if s.base + index < |elements| then elements[s.base + index := value] else elements);
      OwnedReplaces(cell, s.selectors, s.indexes, updated, Stored);
    }
  }

  /** An assignment of an owned value keeps a checked program checked, whatever its path. */
  lemma AssignStaysChecked(store: Store, cell: nat, selectors: seq<Selector>, indexes: seq<nat>, value: Value)
    requires Checked(store) && Owned(value) && Assign(store, cell, selectors, indexes, value).Some?
    ensures Checked(Assign(store, cell, selectors, indexes, value).value)
  {
    var root := store.cells[cell];
    if selectors != [] {
      if root.Slice? && selectors[0].SliceSelector? && indexes != [] {
        var previous := Element(Live(store), root.location, root.base, root.selectors, root.indexes, indexes[0]);
        ElementIsOwned(store, root, indexes[0]);
        OwnedReplaces(previous.value, selectors[1..], indexes[1..], value, Live(store));
        SliceStaysChecked(store, root, indexes[0], Replace(previous.value, selectors[1..], indexes[1..], value, Live(store)).value.0);
      } else if Owned(root) {
        OwnedReplaces(root, selectors, indexes, value, Live(store));
      }
    }
  }

  lemma ElementIsOwned(store: Store, s: Value, index: nat)
    requires Checked(store) && s.Slice?
    ensures var e := Element(Live(store), s.location, s.base, s.selectors, s.indexes, index); e.Some? ==> Owned(e.value)
  {
    if s.location.Cell? && s.location.cell in store.cells {
      var cell := store.cells[s.location.cell];
      if Owned(cell) { OwnedPathStays(cell, s.selectors, s.indexes, Stored); } else { BorrowHoldsNoArray(cell, s.selectors, s.indexes); }
    }
  }
}
