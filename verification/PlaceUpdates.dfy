/** Which places can be replaced, what a replacement changes, and what it leaves alone. */
module PlaceUpdates {
  import opened Wrappers
  import opened Place
  import opened PlaceLaws

  // ---------------------------------------------------------------------------
  // Which resolved places can be replaced
  // ---------------------------------------------------------------------------

  /** No aggregate repeats a field ordinal, and a slice keeps a concrete index for each of its own plain selectors. */
  ghost predicate Tidy(v: Value) {
    match v
    case Aggregate(fields) => DistinctOrdinals(fields) && forall i :: 0 <= i < |fields| ==> Tidy(fields[i].value)
    case Array(elements) => forall i :: 0 <= i < |elements| ==> Tidy(elements[i])
    case Slice(_, _, _, selectors, indexes) =>
      |selectors| == |indexes| && forall i :: 0 <= i < |selectors| ==> !selectors[i].SliceSelector?
    case _ => true
  }

  ghost predicate TidyAccess(access: Access) {
    access.Live? ==>
      && (forall c :: c in access.store.cells ==> Tidy(access.store.cells[c]))
      && (forall t, k :: t in access.store.buffers && k in access.store.buffers[t].slots ==> Tidy(access.store.buffers[t].slots[k]))
  }

  /** The path reads a byte of static data. */
  ghost predicate ThroughStatic(root: Value, selectors: seq<Selector>, indexes: seq<nat>, access: Access)
    decreases |selectors|
  {
    && selectors != [] && indexes != [] && Step(root, selectors[0], Some(indexes[0]), access).At?
    && (root.StaticView?
        || ThroughStatic(Step(root, selectors[0], Some(indexes[0]), access).value, selectors[1..], indexes[1..], access))
  }

  /** Walking again at the indexes a walk returned finds the same place. */
  lemma {:induction false} WalkReplays(root: Value, selectors: seq<Selector>, captured: seq<nat>, access: Access)
    requires Walk(root, selectors, captured, access).Resolved?
    ensures var r := Walk(root, selectors, captured, access);
            |r.indexes| == |selectors| && Walk(root, selectors, r.indexes, access) == r
    decreases |selectors|
  {
    if selectors != [] {
      var step := Step(root, selectors[0], First(captured), access);
      var rest := Walk(step.value, selectors[1..], Rest(captured), access);
      WalkReplays(step.value, selectors[1..], Rest(captured), access);
      var indexes := Walk(root, selectors, captured, access).indexes;
      assert indexes[0] == step.index && indexes[1..] == rest.indexes;
      assert Step(root, selectors[0], Some(step.index), access) == step;
    }
  }

  lemma {:induction false} StoredWalkTidy(root: Value, selectors: seq<Selector>, indexes: seq<nat>)
    requires Tidy(root) && Walk(root, selectors, indexes, Stored).Resolved?
    ensures Tidy(Walk(root, selectors, indexes, Stored).selected)
    decreases |selectors|
  {
    if selectors != [] {
      var step := Step(root, selectors[0], First(indexes), Stored);
      StepTidy(root, selectors[0], First(indexes), Stored);
      StoredWalkTidy(step.value, selectors[1..], Rest(indexes));
    }
  }

  lemma {:induction false} StepTidy(current: Value, selector: Selector, captured: Option<nat>, access: Access)
    requires Tidy(current) && Step(current, selector, captured, access).At?
    requires access.Live? ==> selector.FieldSelector? || selector.ElementSelector? || current.StaticView?
    ensures Tidy(Step(current, selector, captured, access).value)
  {
  }

  lemma {:induction false} SliceStepTidy(current: Value, selector: Selector, captured: Option<nat>, access: Access)
    requires Tidy(current) && TidyAccess(access) && Step(current, selector, captured, access).At?
    ensures Tidy(Step(current, selector, captured, access).value)
  {
    if access.Live? && selector.SliceSelector? && current.Slice? {
      if current.location.Cell? {
        StoredWalkTidy(access.store.cells[current.location.cell], current.selectors, current.indexes);
      }
    } else {
      StepTidy(current, selector, captured, access);
    }
  }

  lemma {:induction false} PlainPathIsStored(root: Value, selectors: seq<Selector>, indexes: seq<nat>)
    requires forall i :: 0 <= i < |selectors| ==> !selectors[i].SliceSelector?
    ensures !ThroughStatic(root, selectors, indexes, Stored)
    decreases |selectors|
  {
    if selectors != [] && indexes != [] && Step(root, selectors[0], Some(indexes[0]), Stored).At? {
      PlainPathIsStored(Step(root, selectors[0], Some(indexes[0]), Stored).value, selectors[1..], indexes[1..]);
    }
  }

  /** A resolved place that avoids static data is a path an update can take back. */
  lemma {:induction false} ResolvedIsPath(root: Value, selectors: seq<Selector>, indexes: seq<nat>, access: Access)
    requires Tidy(root) && TidyAccess(access) && |indexes| == |selectors|
    requires Walk(root, selectors, indexes, access).Resolved? && !ThroughStatic(root, selectors, indexes, access)
    ensures Path(root, selectors, indexes, access)
    decreases access.Live?, |selectors|
  {
    if selectors != [] {
      var step := Step(root, selectors[0], Some(indexes[0]), access);
      SliceStepTidy(root, selectors[0], Some(indexes[0]), access);
      ResolvedIsPath(step.value, selectors[1..], indexes[1..], access);
      if root.Slice? && access.Live? && root.location.Cell? {
        var cell := access.store.cells[root.location.cell];
        PlainPathIsStored(cell, root.selectors, root.indexes);
        ResolvedIsPath(cell, root.selectors, root.indexes, Stored);
      }
    }
  }

  lemma {:induction false} StaticDataIsFinal(root: Value, selectors: seq<Selector>, indexes: seq<nat>, value: Value, access: Access)
    requires Tidy(root) && TidyAccess(access) && |indexes| == |selectors| && ThroughStatic(root, selectors, indexes, access)
    ensures Replace(root, selectors, indexes, value, access) == None
    decreases |selectors|
  {
    if !root.StaticView? {
      SliceStepTidy(root, selectors[0], Some(indexes[0]), access);
      StaticDataIsFinal(Step(root, selectors[0], Some(indexes[0]), access).value, selectors[1..], indexes[1..], value, access);
      ReplaceUnfolds(root, selectors, indexes, value, access);
    }
  }

  /** A resolved place that hops through no storage twice can be replaced exactly when it avoids static data. */
  lemma ReplaceableExactly(root: Value, selectors: seq<Selector>, captured: seq<nat>, value: Value, access: Access)
    requires Tidy(root) && TidyAccess(access) && Walk(root, selectors, captured, access).Resolved?
    requires Unaliased(root, selectors, Walk(root, selectors, captured, access).indexes, access)
    ensures var indexes := Walk(root, selectors, captured, access).indexes;
            Replace(root, selectors, indexes, value, access).Some? <==> !ThroughStatic(root, selectors, indexes, access)
  {
    var indexes := Walk(root, selectors, captured, access).indexes;
    WalkReplays(root, selectors, captured, access);
    if ThroughStatic(root, selectors, indexes, access) {
      StaticDataIsFinal(root, selectors, indexes, value, access);
    } else {
      ResolvedIsPath(root, selectors, indexes, access);
      ReadsBack(root, selectors, indexes, value, access);
    }
  }

  // ---------------------------------------------------------------------------
  // Diverging paths
  // ---------------------------------------------------------------------------

  predicate HeadsDiffer(a: Selector, i: nat, b: Selector, j: nat) {
    || (a.FieldSelector? && b.FieldSelector? && a.field.ordinal != b.field.ordinal)
    || (a.ElementSelector? && b.ElementSelector? && i != j)
    || (a.SliceSelector? && b.SliceSelector? && i != j)
  }

  /** The paths agree up to some step and there take different fields or elements. */
  predicate Diverge(ss: seq<Selector>, is_: seq<nat>, ts: seq<Selector>, js: seq<nat>)
    requires |ss| == |is_| && |ts| == |js|
    decreases |ss|
  {
    && ss != [] && ts != []
    && (HeadsDiffer(ss[0], is_[0], ts[0], js[0])
        || (ss[0] == ts[0] && is_[0] == js[0] && Diverge(ss[1..], is_[1..], ts[1..], js[1..])))
  }

  lemma {:induction false} PutFieldElsewhere(fields: seq<Field>, ordinal: nat, value: Value, id: FieldId)
    requires id.ordinal != ordinal
    ensures FindField(PutField(fields, ordinal, value), id) == FindField(fields, id)
  {
    if fields != [] { PutFieldElsewhere(fields[1..], ordinal, value, id); }
  }

  lemma PutElsewhere(current: Value, a: Selector, i: nat, b: Selector, j: nat, value: Value, access: Access)
    requires HeadsDiffer(a, i, b, j) && Put(current, a, i, value, access).Some?
    ensures Step(Put(current, a, i, value, access).value.0, b, Some(j), access) == Step(current, b, Some(j), access)
  {
    if a.FieldSelector? { PutFieldElsewhere(current.fields, a.field.ordinal, value, b.field); }
  }

  /** Two walks agree if their first steps do, or only differ in values that walk on alike. */
  lemma SameWalk(x: Value, y: Value, ts: seq<Selector>, js: seq<nat>, access: Access)
    requires ts != [] && |js| == |ts|
    requires var a, b := Step(x, ts[0], Some(js[0]), access), Step(y, ts[0], Some(js[0]), access);
             || a == b
             || (a.At? && b.At? && a.index == b.index
                 && Walk(a.value, ts[1..], js[1..], access) == Walk(b.value, ts[1..], js[1..], access))
    ensures Walk(x, ts, js, access) == Walk(y, ts, js, access)
  {
  }

  // ---------------------------------------------------------------------------
  // Writing one element of a slice changes one slot
  // ---------------------------------------------------------------------------

  /** Reading the element of the slice through the store. */
  function SliceElement(store: Store, s: Value, j: nat): Option<Value>
    requires s.Slice?
  {
    Element(Live(store), s.location, s.base, s.selectors, s.indexes, j)
  }

  /** The path, inside its backing cell, of one element of a slice; the element's index is its last. */
  function SlotPath(s: Value): seq<Selector>
    requires s.Slice?
  {
    s.selectors + [ElementSelector(Proven(0), 0)]
  }

  /**
   Between the stores only one element of the slice differs: in raw storage one slot, in a cell nothing that
   a path diverging from that element's selects.
   */
  ghost predicate OnlySlot(before: Store, after: Store, s: Value, index: nat)
    requires s.Slice?
  {
    && SameBut(Live(before), Live(after), {s.location})
    && (forall j: nat :: j != index ==> SliceElement(after, s, j) == SliceElement(before, s, j))
    && match s.location
       case Ticket(t) =>
         && t in before.buffers && t in after.buffers && after.buffers[t].active == before.buffers[t].active
         && after.buffers[t].slots.Keys == before.buffers[t].slots.Keys
         && forall k :: k in before.buffers[t].slots && k != s.base + index ==> after.buffers[t].slots[k] == before.buffers[t].slots[k]
       case Cell(c) =>
         && c in before.cells && c in after.cells && |s.selectors| == |s.indexes|
         && forall ts, js | |ts| == |js| && Diverge(SlotPath(s), s.indexes + [s.base + index], ts, js) ::
              Walk(after.cells[c], ts, js, Stored) == Walk(before.cells[c], ts, js, Stored)
  }

  /** Replacing one element of an array inside a value leaves every path that diverges from that element's alone. */
  lemma {:induction false} OtherElementsUntouched(root: Value, ss: seq<Selector>, is_: seq<nat>, k: nat, element: Selector, value: Value, ts: seq<Selector>, js: seq<nat>)
    requires Path(root, ss, is_, Stored) && Walk(root, ss, is_, Stored).Resolved? && Walk(root, ss, is_, Stored).selected.Array?
    requires k < |Walk(root, ss, is_, Stored).selected.elements| && element.ElementSelector?
    requires |ts| == |js| && Diverge(ss + [element], is_ + [k], ts, js)
    ensures var updated := Array(Walk(root, ss, is_, Stored).selected.elements[k := value]);
            && Replace(root, ss, is_, updated, Stored).Some?
            && Walk(Replace(root, ss, is_, updated, Stored).value.0, ts, js, Stored) == Walk(root, ts, js, Stored)
    decreases |ss|
  {
    var updated := Array(Walk(root, ss, is_, Stored).selected.elements[k := value]);
    if ss == [] {
      assert (ss + [element])[1..] == [] && (is_ + [k])[1..] == [];
    } else {
      var rest, indexes' := ss[1..], is_[1..];
      var step := Step(root, ss[0], Some(is_[0]), Stored);
      assert (ss + [element])[1..] == rest + [element] && (is_ + [k])[1..] == indexes' + [k];
      StoredPathsDoNotHop(root, ss, is_);
      PathUnfolds(root, ss, is_, Stored, step.value, step.index);
      PathWalks(step.value, rest, indexes', Stored);
      ReplaceUnfoldsPath(root, ss, is_, updated, Stored);
      ReadsBack(step.value, rest, indexes', updated, Stored);
      var inner := Replace(step.value, rest, indexes', updated, Stored).value.0;
      PutReadsBack(root, ss[0], is_[0], inner, Stored);
      if HeadsDiffer(ss[0], is_[0], ts[0], js[0]) {
        hide Replace, Path, Hops, Put, Step, Walk;
        PutElsewhere(root, ss[0], is_[0], ts[0], js[0], inner, Stored);
        SameWalk(root, Put(root, ss[0], is_[0], inner, Stored).value.0, ts, js, Stored);
      } else {
        OtherElementsUntouched(step.value, rest, indexes', k, element, value, ts[1..], js[1..]);
        hide Replace, Path, Hops, Put, Step, Walk;
        SameWalk(root, Put(root, ss[0], is_[0], inner, Stored).value.0, ts, js, Stored);
      }
    }
  }

  /** A slice element written through its backing cell or buffer reads back, and every other slot stays as it was. */
  lemma {:induction false} SetElementChangesOneSlot(s: Value, index: nat, value: Value, store: Store)
    requires s.Slice? && Proper(s, Live(store)) && SliceElement(store, s, index).Some?
    ensures var r := SetElement(Live(store), s.location, s.base, s.selectors, s.indexes, index, value);
            r.Some? && SliceElement(r.value.store, s, index) == Some(value) && OnlySlot(store, r.value.store, s, index)
  {
    SetElementReadsBack(s, index, value, Live(store));
    var after := SetElement(Live(store), s.location, s.base, s.selectors, s.indexes, index, value).value.store;
    match s.location
    case Ticket(t) =>
    case Cell(c) =>
      var cell := store.cells[c];
      var backing := Walk(cell, s.selectors, s.indexes, Stored).selected;
      var updated := Array(backing.elements[s.base + index := value]);
      StoredPathsDoNotHop(cell, s.selectors, s.indexes);
      ReadsBack(cell, s.selectors, s.indexes, updated, Stored);
      forall ts, js | |ts| == |js| && Diverge(SlotPath(s), s.indexes + [s.base + index], ts, js)
        ensures Walk(after.cells[c], ts, js, Stored) == Walk(cell, ts, js, Stored)
      {
        OtherElementsUntouched(cell, s.selectors, s.indexes, s.base + index, ElementSelector(Proven(0), 0), value, ts, js);
      }
  }

  // ---------------------------------------------------------------------------
  // What an update through hops changes
  // ---------------------------------------------------------------------------

  /** The slice a path reaches through last, and the index it takes there. */
  function LastReach(root: Value, selectors: seq<Selector>, indexes: seq<nat>, access: Access): (r: Option<(Value, nat)>)
    ensures r.Some? ==> r.value.0.Slice?
    decreases |selectors|
  {
    if selectors == [] || indexes == [] then None
    else
      match Step(root, selectors[0], Some(indexes[0]), access)
      case At(below, _) =>
        var deeper := LastReach(below, selectors[1..], indexes[1..], access);
        if deeper.Some? then deeper
        else if selectors[0].SliceSelector? && root.Slice? then Some((root, indexes[0])) else None
      case _ => None
  }

  /** The storage an update through the path writes, if it writes any. */
  function Touched(root: Value, selectors: seq<Selector>, indexes: seq<nat>, access: Access): set<Location> {
    var last := LastReach(root, selectors, indexes, access);
    if last.Some? then {last.value.0.location} else {}
  }

  lemma {:induction false} LastReachIsHop(root: Value, selectors: seq<Selector>, indexes: seq<nat>, access: Access)
    requires Path(root, selectors, indexes, access)
    ensures Touched(root, selectors, indexes, access) <= Hops(root, selectors, indexes, access)
    ensures LastReach(root, selectors, indexes, access).None? ==> Hops(root, selectors, indexes, access) == {}
    decreases |selectors|
  {
    if selectors != [] {
      LastReachIsHop(Step(root, selectors[0], Some(indexes[0]), access).value, selectors[1..], indexes[1..], access);
    }
  }

  /**
   Of all storage only one slot changes, the one the path reaches last, and once a path reaches into storage
   its root value stays as it was.
   */
  lemma {:induction false} OnlyTheLastSlotChanges(root: Value, selectors: seq<Selector>, indexes: seq<nat>, value: Value, access: Access)
    requires Path(root, selectors, indexes, access) && Unaliased(root, selectors, indexes, access)
    ensures Replace(root, selectors, indexes, value, access).Some?
    ensures var r, last := Replace(root, selectors, indexes, value, access).value, LastReach(root, selectors, indexes, access);
            && SameBut(access, r.1, Touched(root, selectors, indexes, access))
            && if last.Some? then r.0 == root && access.Live? && OnlySlot(access.store, r.1.store, last.value.0, last.value.1)
               else r.1 == access
    decreases |selectors|
  {
    ReadsBack(root, selectors, indexes, value, access);
    if selectors != [] {
      var selector, rest, index, indexes' := selectors[0], selectors[1..], indexes[0], indexes[1..];
      var step := Step(root, selector, Some(index), access);
      var below := step.value;
      PathUnfolds(root, selectors, indexes, access, below, step.index);
      ReplaceUnfoldsPath(root, selectors, indexes, value, access);
      OnlyTheLastSlotChanges(below, rest, indexes', value, access);
      LastReachIsHop(below, rest, indexes', access);
      var inner := Replace(below, rest, indexes', value, access).value;
      var last, touched := LastReach(below, rest, indexes', access), Touched(below, rest, indexes', access);
      hide Replace, Path, Walk, Hops, Unaliased, Step, Put, Proper, OnlySlot;
      if last.Some? {
        StepFrame(root, selector, index, access, inner.1, touched);
        ProperFrame(root, selector, index, access, inner.1, touched);
        PutSame(root, selector, index, inner.1);
      } else {
        LastPut(root, selector, index, inner.0, access);
      }
    }
  }

  /** Putting a value back through the last step that reaches into storage changes one slot there. */
  lemma LastPut(root: Value, selector: Selector, index: nat, value: Value, access: Access)
    requires Proper(root, access) && Step(root, selector, Some(index), access).At?
    ensures var r := Put(root, selector, index, value, access);
            && r.Some? && SameBut(access, r.value.1, Hop(root, selector))
            && if selector.SliceSelector? then r.value.0 == root && access.Live? && OnlySlot(access.store, r.value.1.store, root, index)
               else r.value.1 == access
  {
    PutReadsBack(root, selector, index, value, access);
    hide OnlySlot;
    if selector.SliceSelector? { SetElementChangesOneSlot(root, index, value, access.store); }
  }

  // ---------------------------------------------------------------------------
  // Disjoint paths
  // ---------------------------------------------------------------------------

  /** The paths diverge, and past that point the second reaches into none of the changed storage. */
  ghost predicate Apart(root: Value, ss: seq<Selector>, is_: seq<nat>, ts: seq<Selector>, js: seq<nat>, access: Access, changed: set<Location>)
    requires |ss| == |is_| && |ts| == |js|
    decreases |ss|
  {
    && ss != [] && ts != []
    && var step := Step(root, ts[0], Some(js[0]), access);
       if HeadsDiffer(ss[0], is_[0], ts[0], js[0]) then step.At? ==> Hops(step.value, ts[1..], js[1..], access) !! changed
       else ss[0] == ts[0] && is_[0] == js[0] && (step.At? ==> Apart(step.value, ss[1..], is_[1..], ts[1..], js[1..], access, changed))
  }

  /** A walk sees only the storage it reaches into. */
  lemma {:induction false} WalkFrame(root: Value, ts: seq<Selector>, js: seq<nat>, a: Access, b: Access, changed: set<Location>)
    requires SameBut(a, b, changed) && Hops(root, ts, js, a) !! changed && |ts| == |js|
    ensures Walk(root, ts, js, b) == Walk(root, ts, js, a) && Hops(root, ts, js, b) == Hops(root, ts, js, a)
    decreases |ts|
  {
    if ts != [] {
      StepFrame(root, ts[0], js[0], a, b, changed);
      var step := Step(root, ts[0], Some(js[0]), a);
      if step.At? { WalkFrame(step.value, ts[1..], js[1..], a, b, changed); }
    }
  }

  /** The second path reaches into changed storage only where both go. */
  lemma {:induction false} ApartHops(root: Value, ss: seq<Selector>, is_: seq<nat>, ts: seq<Selector>, js: seq<nat>, access: Access, changed: set<Location>)
    requires |ss| == |is_| && |ts| == |js| && Apart(root, ss, is_, ts, js, access, changed)
    ensures Hops(root, ts, js, access) * changed <= Hops(root, ss, is_, access)
    decreases |ss|
  {
    var step := Step(root, ts[0], Some(js[0]), access);
    if !HeadsDiffer(ss[0], is_[0], ts[0], js[0]) && step.At? {
      ApartHops(step.value, ss[1..], is_[1..], ts[1..], js[1..], access, changed);
    }
  }

  /** The step where the second path turns off finds what it did. */
  lemma DivergingStepUntouched(root: Value, a: Selector, i: nat, b: Selector, j: nat, value: Value, access: Access)
    requires HeadsDiffer(a, i, b, j) && Proper(root, access) && Step(root, a, Some(i), access).At?
    ensures Put(root, a, i, value, access).Some?
    ensures var r := Put(root, a, i, value, access).value;
            Step(r.0, b, Some(j), r.1) == Step(root, b, Some(j), access)
  {
    LastPut(root, a, i, value, access);
    if a.SliceSelector? {
      hide SetElement, Element, Put;
      var r := Put(root, a, i, value, access).value;
      assert SliceElement(r.1.store, root, j) == SliceElement(access.store, root, j);
    } else {
      PutElsewhere(root, a, i, b, j, value, access);
    }
  }

  /** Walks whose first steps find the same, or values that are walked alike from there, are alike. */
  lemma SameOnward(x: Value, y: Value, ts: seq<Selector>, js: seq<nat>, a: Access, b: Access)
    requires ts != [] && |js| == |ts| && Hop(x, ts[0]) == Hop(y, ts[0])
    requires var s, t := Step(x, ts[0], Some(js[0]), a), Step(y, ts[0], Some(js[0]), b);
             if s.At? then
               && t.At? && t.index == s.index
               && Walk(t.value, ts[1..], js[1..], b) == Walk(s.value, ts[1..], js[1..], a)
               && Hops(t.value, ts[1..], js[1..], b) == Hops(s.value, ts[1..], js[1..], a)
             else t == s
    ensures Walk(y, ts, js, b) == Walk(x, ts, js, a) && Hops(y, ts, js, b) == Hops(x, ts, js, a)
  {
  }

  lemma ApartFirst(root: Value, ss: seq<Selector>, is_: seq<nat>, ts: seq<Selector>, js: seq<nat>, access: Access, changed: set<Location>)
    requires |ss| == |is_| && |ts| == |js| && Apart(root, ss, is_, ts, js, access, changed)
    ensures ss != [] && ts != []
    ensures var step := Step(root, ts[0], Some(js[0]), access);
            if HeadsDiffer(ss[0], is_[0], ts[0], js[0]) then step.At? ==> Hops(step.value, ts[1..], js[1..], access) !! changed
            else ss[0] == ts[0] && is_[0] == js[0] && (step.At? ==> Apart(step.value, ss[1..], is_[1..], ts[1..], js[1..], access, changed))
  {
  }

  lemma TouchedFirst(root: Value, selectors: seq<Selector>, indexes: seq<nat>, access: Access)
    requires Path(root, selectors, indexes, access) && selectors != []
    ensures var below := Step(root, selectors[0], Some(indexes[0]), access).value;
            var deeper := Touched(below, selectors[1..], indexes[1..], access);
            Touched(root, selectors, indexes, access)
            == if LastReach(below, selectors[1..], indexes[1..], access).Some? then deeper else Hop(root, selectors[0])
  {
  }

  lemma HeadsHop(current: Value, a: Selector, i: nat, b: Selector, j: nat)
    requires HeadsDiffer(a, i, b, j)
    ensures Hop(current, b) == Hop(current, a)
  {
  }

  /**
   An update leaves every diverging path selecting what it did, through any number of hops on either path, as
   long as the other does not, past the divergence, reach into the one storage the update writes.
   */
  lemma {:induction false} DivergingPathUntouched(root: Value, ss: seq<Selector>, is_: seq<nat>, ts: seq<Selector>, js: seq<nat>, value: Value,
                                                  access: Access, changed: set<Location>)
    requires Path(root, ss, is_, access) && Unaliased(root, ss, is_, access) && Touched(root, ss, is_, access) <= changed
    requires |ts| == |js| && Apart(root, ss, is_, ts, js, access, changed)
    ensures Replace(root, ss, is_, value, access).Some?
    ensures var r := Replace(root, ss, is_, value, access).value;
            Walk(r.0, ts, js, r.1) == Walk(root, ts, js, access) && Hops(r.0, ts, js, r.1) == Hops(root, ts, js, access)
    decreases |ss|
  {
    ApartFirst(root, ss, is_, ts, js, access, changed);
    PathFirst(root, ss, is_, access);
    hide Replace, Path, Walk, Hops, Unaliased, Step, Put, Proper, OnlySlot, Apart, Touched, LastReach, Hop;
    var selector, rest, index, indexes' := ss[0], ss[1..], is_[0], is_[1..];
    var step := Step(root, selector, Some(index), access);
    var below := step.value;
    PathUnfolds(root, ss, is_, access, below, step.index);
    ReplaceUnfoldsPath(root, ss, is_, value, access);
    OnlyTheLastSlotChanges(root, ss, is_, value, access);
    OnlyTheLastSlotChanges(below, rest, indexes', value, access);
    LastReachIsHop(below, rest, indexes', access);
    var inner := Replace(below, rest, indexes', value, access).value;
    var outer := Replace(root, ss, is_, value, access).value;
    var last, touched := LastReach(below, rest, indexes', access), Touched(below, rest, indexes', access);
    StepFrame(root, selector, index, access, inner.1, touched);
    ProperFrame(root, selector, index, access, inner.1, touched);
    PutReadsBack(root, selector, index, inner.0, inner.1);
    TouchedFirst(root, ss, is_, access);
    if !HeadsDiffer(selector, index, ts[0], js[0]) {
      ApartHops(below, rest, indexes', ts[1..], js[1..], access, changed);
      DivergingPathUntouched(below, rest, indexes', ts[1..], js[1..], value, access, changed);
    }
    if HeadsDiffer(selector, index, ts[0], js[0]) {
      DivergingStepUntouched(root, selector, index, ts[0], js[0], inner.0, inner.1);
      HeadsHop(root, selector, index, ts[0], js[0]);
      HeadsHop(outer.0, selector, index, ts[0], js[0]);
      StepFrame(root, ts[0], js[0], access, inner.1, touched);
      var turn := Step(root, ts[0], Some(js[0]), access);
      if turn.At? { WalkFrame(turn.value, ts[1..], js[1..], access, outer.1, changed); }
    } else {
      if last.Some? {
        PutSame(root, selector, index, inner.1);
      } else {
        WalkFrame(inner.0, ts[1..], js[1..], inner.1, outer.1, Hop(root, selector));
      }
    }
    SameOnward(root, outer.0, ts, js, access, outer.1);
  }

  // ---------------------------------------------------------------------------
  // Fields of one ordinal
  // ---------------------------------------------------------------------------

  /** What a path selects, if it resolves. */
  function Selects(root: Value, selectors: seq<Selector>, indexes: seq<nat>, access: Access): Option<Value> {
    var r := Walk(root, selectors, indexes, access);
    if r.Resolved? then Some(r.selected) else None
  }

  /** The position of the field a walk selects. */
  function FieldIndex(fields: seq<Field>, id: FieldId): (k: nat)
    requires FindField(fields, id).Some?
    ensures k < |fields| && fields[k] == Field(id, FindField(fields, id).value)
  {
    if fields[0].id == id then 0 else 1 + FieldIndex(fields[1..], id)
  }

  /** Every field of the ordinal has this place, in the value itself. */
  ghost predicate PlaceInEach(fields: seq<Field>, ordinal: nat, rest: seq<Selector>, indexes: seq<nat>, access: Access) {
    forall i :: 0 <= i < |fields| && fields[i].id.ordinal == ordinal ==>
      Path(fields[i].value, rest, indexes, access) && Hops(fields[i].value, rest, indexes, access) == {}
  }

  lemma {:induction false} NoHopsUnaliased(root: Value, selectors: seq<Selector>, indexes: seq<nat>, access: Access)
    requires Hops(root, selectors, indexes, access) == {}
    ensures Unaliased(root, selectors, indexes, access)
    decreases |selectors|
  {
    if selectors != [] && indexes != [] && Step(root, selectors[0], Some(indexes[0]), access).At? {
      NoHopsUnaliased(Step(root, selectors[0], Some(indexes[0]), access).value, selectors[1..], indexes[1..], access);
    }
  }

  /** A place inside a value is replaced with no storage touched, and only a place that holds the value already is left alone. */
  lemma {:induction false} StaysInside(root: Value, selectors: seq<Selector>, indexes: seq<nat>, value: Value, access: Access)
    requires Path(root, selectors, indexes, access) && Hops(root, selectors, indexes, access) == {}
    ensures Walk(root, selectors, indexes, access).Resolved?
    ensures Replace(root, selectors, indexes, value, access).Some?
    ensures var r := Replace(root, selectors, indexes, value, access).value;
            r.1 == access && (r.0 == root <==> Walk(root, selectors, indexes, access).selected == value)
  {
    NoHopsUnaliased(root, selectors, indexes, access);
    ReadsBack(root, selectors, indexes, value, access);
    OnlyTheLastSlotChanges(root, selectors, indexes, value, access);
    LastReachIsHop(root, selectors, indexes, access);
    WriteBackChangesNothing(root, selectors, indexes, access);
  }

  /** The replacement goes below every field of the ordinal. */
  lemma {:induction false} ReplacesEach(fields: seq<Field>, ordinal: nat, rest: seq<Selector>, indexes: seq<nat>, value: Value, access: Access)
    requires PlaceInEach(fields, ordinal, rest, indexes, access)
    ensures ReplaceFields(fields, ordinal, rest, indexes, value, access).Some?
    ensures var r := ReplaceFields(fields, ordinal, rest, indexes, value, access).value;
            && r.1 == access && |r.0| == |fields|
            && forall i :: 0 <= i < |fields| ==>
                 if fields[i].id.ordinal == ordinal
                 then r.0[i].id == fields[i].id && Replace(fields[i].value, rest, indexes, value, access) == Some((r.0[i].value, access))
                 else r.0[i] == fields[i]
  {
    if fields != [] {
      if fields[0].id.ordinal == ordinal { StaysInside(fields[0].value, rest, indexes, value, access); }
      forall i | 0 <= i < |fields[1..]| ensures fields[1..][i] == fields[i + 1] {}
      ReplacesEach(fields[1..], ordinal, rest, indexes, value, access);
    }
  }

  /**
   The replacement matches fields by ordinal alone, the walk by the whole identity: a write below one field leaves
   the others alone exactly when every other field of the ordinal holds the new value there already.
   */
  lemma RepeatedOrdinalIsOverwritten(fields: seq<Field>, id: FieldId, rest: seq<Selector>, indexes: seq<nat>, value: Value, access: Access)
    requires FindField(fields, id).Some? && PlaceInEach(fields, id.ordinal, rest, indexes, access)
    ensures Selects(Aggregate(fields), [FieldSelector(id)] + rest, [id.ordinal] + indexes, access)
            == Selects(fields[FieldIndex(fields, id)].value, rest, indexes, access)
    ensures var r := Replace(Aggregate(fields), [FieldSelector(id)] + rest, [id.ordinal] + indexes, value, access);
            && r.Some? && r.value.1 == access && r.value.0.Aggregate? && |r.value.0.fields| == |fields|
            && var k := FieldIndex(fields, id);
               (forall i :: 0 <= i < |fields| && i != k ==> r.value.0.fields[i] == fields[i])
               <==> forall i :: 0 <= i < |fields| && i != k && fields[i].id.ordinal == id.ordinal ==>
                      Selects(fields[i].value, rest, indexes, access) == Some(value)
  {
    assert ([FieldSelector(id)] + rest)[1..] == rest && ([id.ordinal] + indexes)[1..] == indexes;
    ReplacesEach(fields, id.ordinal, rest, indexes, value, access);
    var after, k := ReplaceFields(fields, id.ordinal, rest, indexes, value, access).value.0, FieldIndex(fields, id);
    var r := Replace(Aggregate(fields), [FieldSelector(id)] + rest, [id.ordinal] + indexes, value, access);
    assert r == Some((Aggregate(after), access));
    forall i | 0 <= i < |fields| && i != k
      ensures after[i] == fields[i] <==> (fields[i].id.ordinal == id.ordinal ==> Selects(fields[i].value, rest, indexes, access) == Some(value))
    {
      if fields[i].id.ordinal == id.ordinal { StaysInside(fields[i].value, rest, indexes, value, access); }
    }
    StaysInside(fields[k].value, rest, indexes, value, access);
    assert Step(Aggregate(fields), FieldSelector(id), Some(id.ordinal), access) == At(fields[k].value, id.ordinal);
  }

  /** Such an aggregate: two fields of one ordinal, of which the walk selects one and the write changes both. */
  lemma BothAreOverwritten(a: FieldId, b: FieldId, x: Value, y: Value, value: Value)
    requires a.ordinal == b.ordinal && a != b
    ensures Replace(Aggregate([Field(a, x), Field(b, y)]), [FieldSelector(a)], [a.ordinal], value, Stored)
            == Some((Aggregate([Field(a, value), Field(b, value)]), Stored))
  {
    var fields := [Field(a, x), Field(b, y)];
    ReplacesEach(fields, a.ordinal, [], [], value, Stored);
    var r := ReplaceFields(fields, a.ordinal, [], [], value, Stored).value.0;
    assert Replace(x, [], [], value, Stored) == Some((value, Stored)) && Replace(y, [], [], value, Stored) == Some((value, Stored));
    assert fields[0].id.ordinal == fields[1].id.ordinal == a.ordinal;
    assert r == [Field(a, value), Field(b, value)];
    assert [FieldSelector(a)][1..] == [] && [a.ordinal][1..] == [];
  }
}
